/** mustKey: the logical key to on-disk key mapping of the database layer. */
module Keys {
  import opened Bytes

  /** The on-disk key of the empty key: two null bytes. */
  const NullKey: Bytes := [0, 0]

  /** strings.Count(key, "\x00"): the number of null bytes in key. */
  function CountNulls(key: Bytes): (n: nat)
    ensures n <= |key|
  {
    if key == [] then 0 else (if key[0] == 0 then 1 else 0) + CountNulls(key[1..])
  }

  predicate AllNull(key: Bytes)
  {
    forall k :: 0 <= k < |key| ==> key[k] == 0
  }

  lemma {:induction false} CountNullsAll(key: Bytes)
    ensures CountNulls(key) == |key| <==> AllNull(key)
  {
    if key != [] {
      CountNullsAll(key[1..]);
      assert AllNull(key) <==> key[0] == 0 && AllNull(key[1..]);
    }
  }

  /**
   * mustKey: "" becomes the two-null sentinel, a key of two or more null
   * bytes and nothing else gets one more null byte, every other key is kept.
   */
  function MustKey(key: Bytes): (r: Bytes)
    ensures r != []
    ensures r == NullKey <==> key == []
    ensures key != [] ==> key <= r && |r| <= |key| + 1
  {
    if key == [] then NullKey
    else
      var nulls := CountNulls(key);
      if nulls == |key| then
        if nulls >= 2 then key + [0] else key
      else key
  }

  /** The three cases of mustKey, stated with AllNull rather than by counting. */
  lemma MustKeyCases(key: Bytes)
    ensures key == [] ==> MustKey(key) == NullKey
    ensures key != [] && AllNull(key) && |key| >= 2 ==> MustKey(key) == key + [0]
    ensures key != [] && !(AllNull(key) && |key| >= 2) ==> MustKey(key) == key
  {
    CountNullsAll(key);
  }

  /** Distinct logical keys never share an on-disk key. */
  lemma MustKeyInjective(a: Bytes, b: Bytes)
    requires MustKey(a) == MustKey(b)
    ensures a == b
  {
    MustKeyCases(a);
    MustKeyCases(b);
    if a != [] && b != [] && AllNull(a) && |a| >= 2 && AllNull(b) && |b| >= 2 {
      assert a == MustKey(a)[..|a|] && b == MustKey(b)[..|b|];
    }
  }
}
