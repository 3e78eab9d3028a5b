/**
 * Case-insensitive string comparison used to order rooms and sections.
 *
 * Strings are modelled by the runes `utf8.DecodeRuneInString` yields from
 * them: an invalid byte decodes to RuneError, so it appears in the sequence as
 * a RuneError element. `unicode.ToLower` is the parameter `lower`.
 */
module SortUtil {

  type Rune = int
  type Runes = seq<Rune>

  const RuneError: Rune := 0xFFFD
  const Bang: Rune := 0x21   // '!'

  /** What popRune yields: the first rune and the rest, or RuneError on "". */
  function Pop(s: Runes): (p: (Rune, Runes))
    ensures s == [] ==> p == (RuneError, s)
    ensures s != [] ==> [p.0] + p.1 == s
  {
    if s == [] then (RuneError, s) else (s[0], s[1..])
  }

  /**
   * popRune: decodes the first rune of the string and drops its bytes from
   * the front. On an empty string it returns RuneError and leaves the string
   * as it is.
   */
  method PopRune(str: Runes) returns (r: Rune, rest: Runes)
    ensures (r, rest) == Pop(str)
    ensures str == [] ==> r == RuneError && rest == str
    ensures str != [] ==> [r] + rest == str
  {
    if |str| == 0 {
      return RuneError, str;
    }
    r, rest := str[0], str[1..];
  }

  /**
   * compareRuneFold: orders runes by their lower-case form, breaking ties by
   * the raw code point.
   */
  function CompareRuneFold(i: Rune, j: Rune, lower: Rune -> Rune): (c: int)
    ensures c == -1 || c == 0 || c == 1
    ensures c == 0 <==> i == j
  {
    if i == j then 0
    else
      var li, lj := lower(i), lower(j);
      if li != lj then (if li < lj then -1 else 1)
      else if i < j then -1 else 1
  }

  /** The pair order compareRuneFold implements: by lower-case form, then by rune. */
  predicate FoldedBefore(i: Rune, j: Rune, lower: Rune -> Rune)
  {
    lower(i) < lower(j) || (lower(i) == lower(j) && i < j)
  }

  lemma CompareRuneFoldAntisymmetric(i: Rune, j: Rune, lower: Rune -> Rune)
    ensures CompareRuneFold(i, j, lower) == -CompareRuneFold(j, i, lower)
  {
  }

  /** compareRuneFold is the three-way comparison of the pairs (lower(r), r). */
  lemma CompareRuneFoldOrdersPairs(i: Rune, j: Rune, lower: Rune -> Rune)
    ensures CompareRuneFold(i, j, lower) == -1 <==> FoldedBefore(i, j, lower)
    ensures CompareRuneFold(i, j, lower) == 1 <==> FoldedBefore(j, i, lower)
  {
  }

  /**
   * What StrcmpFold computes, one loop iteration per call: pop a rune from
   * each side; stop on RuneError deciding by what is left after the pop; a '!'
   * on the left sorts last, then a '!' on the right; otherwise compare the
   * two runes and go on while they are equal.
   */
  function Strcmp(i: Runes, j: Runes, lower: Rune -> Rune): int
    decreases |i|
  {
    var (ir, i') := Pop(i);
    var (jr, j') := Pop(j);
    if ir == RuneError || jr == RuneError then
      if i' == [] && j' != [] then -1
      else if i' != [] && j' == [] then 1
      else 0
    else if ir == Bang then 1
    else if jr == Bang then -1
    else
      var eq := CompareRuneFold(ir, jr, lower);
      if eq != 0 then eq else Strcmp(i', j', lower)
  }

  /** StrcmpFold: the loop that consumes both strings rune by rune. */
  method StrcmpFold(i: Runes, j: Runes, lower: Rune -> Rune) returns (c: int)
    ensures c == Strcmp(i, j, lower)
    ensures c == -1 || c == 0 || c == 1
  {
    var i, j := i, j;
    ghost var want := Strcmp(i, j, lower);
    StrcmpRange(i, j, lower);
    while true
      invariant Strcmp(i, j, lower) == want
      decreases |i|
    {
      var ir, jr;
      ir, i := PopRune(i);
      jr, j := PopRune(j);

      if ir == RuneError || jr == RuneError {
        if i == [] && j != [] {
          return -1;
        }
        if i != [] && j == [] {
          return 1;
        }
        return 0;
      }

      if ir == Bang {
        return 1;
      }
      if jr == Bang {
        return -1;
      }

      var eq := CompareRuneFold(ir, jr, lower);
      if eq != 0 {
        return eq;
      }
    }
  }

  /** StrlessFold: i sorts strictly before j. */
  method StrlessFold(i: Runes, j: Runes, lower: Rune -> Rune) returns (less: bool)
    ensures less <==> Strcmp(i, j, lower) == -1
  {
    var c := StrcmpFold(i, j, lower);
    less := c == -1;
  }

  lemma {:induction false} StrcmpRange(i: Runes, j: Runes, lower: Rune -> Rune)
    ensures Strcmp(i, j, lower) in {-1, 0, 1}
    decreases |i|
  {
    var (ir, i') := Pop(i);
    var (jr, j') := Pop(j);
    if ir != RuneError && jr != RuneError && ir != Bang && jr != Bang
       && CompareRuneFold(ir, jr, lower) == 0 {
      StrcmpRange(i', j', lower);
    }
  }

  /** A string with no '!' and no RuneError in it. */
  predicate Plain(s: Runes)
  {
    forall k :: 0 <= k < |s| ==> s[k] != Bang && s[k] != RuneError
  }

  /** A '!' met on the left puts the left string last, whatever the right holds next. */
  lemma BangOnLeftSortsLast(i: Runes, j: Runes, lower: Rune -> Rune)
    requires i != [] && i[0] == Bang
    requires j != [] && j[0] != RuneError
    ensures Strcmp(i, j, lower) == 1
  {
  }

  /** A '!' met only on the right puts the right string last. */
  lemma BangOnRightSortsLast(i: Runes, j: Runes, lower: Rune -> Rune)
    requires i != [] && i[0] != Bang && i[0] != RuneError
    requires j != [] && j[0] == Bang
    ensures Strcmp(i, j, lower) == -1
  {
  }

  /** A string with no '!' compares equal to itself. */
  lemma {:induction false} StrcmpReflexive(s: Runes, lower: Rune -> Rune)
    requires forall k :: 0 <= k < |s| ==> s[k] != Bang
    ensures Strcmp(s, s, lower) == 0
    decreases |s|
  {
    if s != [] && s[0] != RuneError {
      StrcmpReflexive(s[1..], lower);
    }
  }

  /** Between plain strings, swapping the arguments negates the result. */
  lemma {:induction false} StrcmpAntisymmetric(i: Runes, j: Runes, lower: Rune -> Rune)
    requires Plain(i) && Plain(j)
    ensures Strcmp(i, j, lower) == -Strcmp(j, i, lower)
    decreases |i|
  {
    if i != [] && j != [] {
      CompareRuneFoldAntisymmetric(i[0], j[0], lower);
      if CompareRuneFold(i[0], j[0], lower) == 0 {
        StrcmpAntisymmetric(i[1..], j[1..], lower);
      }
    }
  }

  /**
   * As written, the end-of-string rule looks at what is left AFTER the pop, so
   * a plain string and the same string with one more rune compare equal: the
   * longer one neither sorts before nor after the shorter.
   */
  lemma {:induction false} StrcmpOneRuneLongerTies(s: Runes, r: Rune, lower: Rune -> Rune)
    requires Plain(s) && r != RuneError
    ensures Strcmp(s + [r], s, lower) == 0
    ensures Strcmp(s, s + [r], lower) == 0
    decreases |s|
  {
    if s != [] {
      assert (s + [r])[1..] == s[1..] + [r];
      StrcmpOneRuneLongerTies(s[1..], r, lower);
    }
  }

  /** Concrete instance: "a" against "" and "ab" against "a" both give 0. */
  lemma StrcmpTieExample(lower: Rune -> Rune)
    ensures Strcmp([0x61], [], lower) == 0
    ensures Strcmp([0x61, 0x62], [0x61], lower) == 0
  {
    StrcmpOneRuneLongerTies([], 0x61, lower);
    StrcmpOneRuneLongerTies([0x61], 0x62, lower);
  }

  /**
   * The comparison with the end-of-string rule the comments describe
   * ("len(i) < len(j)"): on RuneError it decides by whether each string was
   * already exhausted BEFORE the pop.
   */
  function StrcmpFixed(i: Runes, j: Runes, lower: Rune -> Rune): int
    decreases |i|
  {
    var (ir, i') := Pop(i);
    var (jr, j') := Pop(j);
    if ir == RuneError || jr == RuneError then
      if i == [] && j != [] then -1
      else if i != [] && j == [] then 1
      else 0
    else if ir == Bang then 1
    else if jr == Bang then -1
    else
      var eq := CompareRuneFold(ir, jr, lower);
      if eq != 0 then eq else StrcmpFixed(i', j', lower)
  }

  /** With the corrected rule a plain proper prefix sorts first. */
  lemma {:induction false} StrcmpFixedPrefixFirst(s: Runes, t: Runes, lower: Rune -> Rune)
    requires Plain(s) && t != []
    ensures StrcmpFixed(s, s + t, lower) == -1
    ensures StrcmpFixed(s + t, s, lower) == 1
    decreases |s|
  {
    if s != [] {
      assert (s + t)[1..] == s[1..] + t;
      StrcmpFixedPrefixFirst(s[1..], t, lower);
    }
  }
}
