/**
 * Ordering of the room list's sections (Favourites, People, user tags, ...).
 *
 * The tag helpers of the section package (TagEqNamespace, TagName.HasNamespace,
 * MatrixSectionOrder, TagNamespace) and sortutil.LessFold are given as the
 * fields of a `Naming` record.
 */
module Section {
  import opened Bytes

  /** A section as the ordering sees it: its Matrix tag and its display name. */
  datatype Section = Section(tag: Bytes, tagName: Bytes)

  datatype Naming = Naming(
    eqNamespace: (Bytes, Bytes) -> bool,   // TagEqNamespace
    hasNamespace: (Bytes, Bytes) -> bool,  // TagName.HasNamespace
    order: map<Bytes, int>,                // MatrixSectionOrder
    namespace: Bytes -> Bytes,             // TagNamespace
    lessFold: (Bytes, Bytes) -> bool)      // sortutil.LessFold

  /** The user-tag namespace "u". */
  const User: Bytes := [0x75]

  predicate IsUser(nm: Naming, s: Section)
  {
    nm.hasNamespace(s.tag, User)
  }

  predicate Known(nm: Naming, s: Section)
  {
    s.tag in nm.order
  }

  /** lessTag: whether section i goes before section j. */
  predicate LessTag(nm: Naming, i: Section, j: Section)
  {
    if nm.eqNamespace(i.tag, j.tag) then nm.lessFold(i.tagName, j.tagName)
    else if IsUser(nm, i) then true
    else if IsUser(nm, j) then false
    else if Known(nm, i) && Known(nm, j) then nm.order[i.tag] < nm.order[j.tag]
    else if Known(nm, i) then true
    else if Known(nm, j) then false
    else Less(nm.namespace(i.tag), nm.namespace(j.tag))
  }

  // The branches of lessTag, one lemma each: they document the order case
  // by case. The properties of the order as a whole are LessTagAsymmetric
  // and the contract of SortSections.

  /** Sections of one namespace are ordered by their names, case-insensitively. */
  lemma SameNamespaceByName(nm: Naming, i: Section, j: Section)
    requires nm.eqNamespace(i.tag, j.tag)
    ensures LessTag(nm, i, j) == nm.lessFold(i.tagName, j.tagName)
  {
  }

  /** A user tag goes before a tag of another namespace that is not a user tag, and never after it. */
  lemma UserTagsFirst(nm: Naming, i: Section, j: Section)
    requires !nm.eqNamespace(i.tag, j.tag) && !nm.eqNamespace(j.tag, i.tag)
    requires IsUser(nm, i) && !IsUser(nm, j)
    ensures LessTag(nm, i, j) && !LessTag(nm, j, i)
  {
  }

  /** Two known Matrix tags of different namespaces go by MatrixSectionOrder. */
  lemma KnownTagsByOrder(nm: Naming, i: Section, j: Section)
    requires !nm.eqNamespace(i.tag, j.tag) && !IsUser(nm, i) && !IsUser(nm, j)
    requires Known(nm, i) && Known(nm, j)
    ensures LessTag(nm, i, j) <==> nm.order[i.tag] < nm.order[j.tag]
  {
  }

  /** A known Matrix tag goes before an unknown one, and never after it. */
  lemma KnownBeforeUnknown(nm: Naming, i: Section, j: Section)
    requires !nm.eqNamespace(i.tag, j.tag) && !nm.eqNamespace(j.tag, i.tag)
    requires !IsUser(nm, i) && !IsUser(nm, j)
    requires Known(nm, i) && !Known(nm, j)
    ensures LessTag(nm, i, j) && !LessTag(nm, j, i)
  {
  }

  /** Two unknown tags go by the byte order of their namespaces. */
  lemma UnknownTagsByNamespace(nm: Naming, i: Section, j: Section)
    requires !nm.eqNamespace(i.tag, j.tag) && !IsUser(nm, i) && !IsUser(nm, j)
    requires !Known(nm, i) && !Known(nm, j)
    ensures LessTag(nm, i, j) <==> Less(nm.namespace(i.tag), nm.namespace(j.tag))
  {
  }

  /**
   * The conditions under which lessTag never puts two sections each before the
   * other: namespace equality is symmetric, two user tags share a namespace,
   * and the name comparison is asymmetric.
   */
  ghost predicate Coherent(nm: Naming)
  {
    && (forall a, b :: nm.eqNamespace(a, b) == nm.eqNamespace(b, a))
    && (forall a, b :: nm.hasNamespace(a, User) && nm.hasNamespace(b, User) ==> nm.eqNamespace(a, b))
    && (forall a, b :: nm.lessFold(a, b) ==> !nm.lessFold(b, a))
  }

  lemma LessTagAsymmetric(nm: Naming, i: Section, j: Section)
    requires Coherent(nm)
    ensures !(LessTag(nm, i, j) && LessTag(nm, j, i))
  {
    assert nm.eqNamespace(i.tag, j.tag) == nm.eqNamespace(j.tag, i.tag);
    if !nm.eqNamespace(i.tag, j.tag) && !IsUser(nm, i) && !IsUser(nm, j)
       && !Known(nm, i) && !Known(nm, j) {
      LessTrichotomy(nm.namespace(i.tag), nm.namespace(j.tag));
    }
  }

  /** No two elements are each ordered before the other. */
  ghost predicate Asymmetric<T(!new)>(less: (T, T) -> bool)
  {
    forall a, b :: less(a, b) ==> !less(b, a)
  }

  /** Being ordered no earlier than is transitive. */
  ghost predicate NegTransitive<T(!new)>(less: (T, T) -> bool)
  {
    forall a, b, c :: !less(a, b) && !less(b, c) ==> !less(a, c)
  }

  /** What sort.Slice needs of its less function: a strict weak order. */
  ghost predicate StrictWeakOrder<T(!new)>(less: (T, T) -> bool)
  {
    Asymmetric(less) && NegTransitive(less)
  }

  /** No element is ordered before one that comes earlier in s. */
  ghost predicate Ordered<T>(less: (T, T) -> bool, s: seq<T>)
  {
    forall p, q :: 0 <= p < q < |s| ==> !less(s[q], s[p])
  }

  /**
   * SortSections: sorts the sections in place by lessTag. The outcome is the
   * same sections, ordered whenever lessTag is a strict weak order (what the
   * library sort asks of its less function).
   */
  method SortSections(sections: array<Section>, nm: Naming)
    modifies sections
    ensures multiset(sections[..]) == multiset(old(sections[..]))
    ensures StrictWeakOrder((x, y) => LessTag(nm, x, y)) ==> Ordered((x, y) => LessTag(nm, x, y), sections[..])
  {
    SortSlice(sections, (x, y) => LessTag(nm, x, y));
  }

  /**
   * sort.Slice, modelled by an insertion sort: only its outcome (a permutation,
   * ordered when less is a strict weak order) is part of the model.
   */
  method SortSlice<T(!new)>(a: array<T>, less: (T, T) -> bool)
    modifies a
    ensures multiset(a[..]) == multiset(old(a[..]))
    ensures StrictWeakOrder(less) ==> Ordered(less, a[..])
  {
    ghost var swo := StrictWeakOrder(less);
    var i := 0;
    while i < a.Length
      invariant 0 <= i <= a.Length
      invariant multiset(a[..]) == multiset(old(a[..]))
      invariant swo ==> Ordered(less, a[..i])
    {
      InsertLast(a, i, less, swo);
      i := i + 1;
    }
    assert a[..a.Length] == a[..];
  }

  /** s[..i+1] is ordered once the element at the hole j is left out. */
  ghost predicate OrderedAround<T>(less: (T, T) -> bool, s: seq<T>, i: int, j: int)
    requires 0 <= j <= i < |s|
  {
    forall p, q :: 0 <= p < q <= i && p != j && q != j ==> !less(s[q], s[p])
  }

  /** Nothing between the hole j and i is ordered before the element at j. */
  ghost predicate NotBeforeHole<T>(less: (T, T) -> bool, s: seq<T>, i: int, j: int)
    requires 0 <= j <= i < |s|
  {
    forall q :: j < q <= i ==> !less(s[q], s[j])
  }

  lemma SwapKeepsOrder<T(!new)>(less: (T, T) -> bool, s: seq<T>, t: seq<T>, i: int, j: int)
    requires 0 < j <= i < |s| && |t| == |s|
    requires Asymmetric(less)
    requires OrderedAround(less, s, i, j) && NotBeforeHole(less, s, i, j)
    requires less(s[j], s[j - 1])
    requires t[j - 1] == s[j] && t[j] == s[j - 1]
    requires forall k :: 0 <= k < |s| && k != j - 1 && k != j ==> t[k] == s[k]
    ensures OrderedAround(less, t, i, j - 1) && NotBeforeHole(less, t, i, j - 1)
  {
  }

  lemma HoleFilled<T(!new)>(less: (T, T) -> bool, s: seq<T>, i: int, j: int)
    requires 0 <= j <= i < |s|
    requires NegTransitive(less)
    requires OrderedAround(less, s, i, j) && NotBeforeHole(less, s, i, j)
    requires j > 0 ==> !less(s[j], s[j - 1])
    ensures Ordered(less, s[..i + 1])
  {
    forall p, q | 0 <= p < q <= i
      ensures !less(s[q], s[p])
    {
      if q == j && p < j - 1 {
        assert !less(s[j], s[j - 1]) && !less(s[j - 1], s[p]);
      }
    }
  }

  /** Exchanges two elements of the array. */
  method Swap<T>(a: array<T>, x: int, y: int)
    requires 0 <= x < y < a.Length
    modifies a
    ensures a[x] == old(a[y]) && a[y] == old(a[x])
    ensures forall k :: 0 <= k < a.Length && k != x && k != y ==> a[k] == old(a[k])
    ensures multiset(a[..]) == multiset(old(a[..]))
  {
    a[x], a[y] := a[y], a[x];
  }

  /** Moves a[i] left past every element it goes before. */
  method InsertLast<T(!new)>(a: array<T>, i: int, less: (T, T) -> bool, ghost swo: bool)
    requires 0 <= i < a.Length
    requires swo ==> StrictWeakOrder(less) && Ordered(less, a[..i])
    modifies a
    ensures multiset(a[..]) == multiset(old(a[..]))
    ensures swo ==> Ordered(less, a[..i + 1])
  {
    var j := i;
    while j > 0 && less(a[j], a[j - 1])
      invariant 0 <= j <= i
      invariant multiset(a[..]) == multiset(old(a[..]))
      invariant swo ==> Asymmetric(less) && NegTransitive(less)
      invariant swo ==> OrderedAround(less, a[..], i, j) && NotBeforeHole(less, a[..], i, j)
    {
      ghost var s := a[..];
      Swap(a, j - 1, j);
      if swo {
        SwapKeepsOrder(less, s, a[..], i, j);
      }
      j := j - 1;
    }
    if swo {
      HoleFilled(less, a[..], i, j);
    }
  }
}
