/**
 * The ordered, nested key-value engine underneath the database layer (bbolt),
 * reduced to values: a bucket is the list of its entries in key order, each a
 * leaf value or a nested bucket. Paths of bucket names address nested buckets.
 */
module Store {
  import opened Bytes
  import opened Errors

  datatype Item = Leaf(value: Bytes) | Nested(entries: seq<Entry>)

  datatype Entry = Entry(key: Bytes, item: Item)

  type Bucket = seq<Entry>

  /** A NodePath: the bucket names from the root down. */
  type Path = seq<Bytes>

  const MaxKeySize: int := 32768
  const MaxValueSize: int := 0x7FFF_FFFE

  /** Keys strictly ascending: the order a bbolt cursor walks. */
  predicate Sorted(b: Bucket)
  {
    forall p, q :: 0 <= p < q < |b| ==> Less(b[p].key, b[q].key)
  }

  /** Sorted at every level of nesting, and no empty key (bbolt refuses one). */
  predicate WF(b: Bucket)
  {
    Sorted(b) && forall k :: 0 <= k < |b| ==> b[k].key != [] && WFItem(b[k].item)
  }

  predicate WFItem(it: Item)
  {
    it.Nested? ==> WF(it.entries)
  }

  /** The item stored under k, if any. */
  function Find(b: Bucket, k: Bytes): Option<Item>
  {
    if b == [] then None
    else if b[0].key == k then Some(b[0].item)
    else Find(b[1..], k)
  }

  /** Bucket.Get: the value of a leaf; nothing for a missing key or a nested bucket. */
  function Get(b: Bucket, k: Bytes): Option<Bytes>
  {
    match Find(b, k)
    case Some(Leaf(v)) => Some(v)
    case _ => None
  }

  /** The nested bucket named k, if there is one. */
  function Child(b: Bucket, k: Bytes): Option<Bucket>
  {
    match Find(b, k)
    case Some(Nested(es)) => Some(es)
    case _ => None
  }

  /** Stores it under k, in key order, replacing what k held. */
  function Insert(b: Bucket, k: Bytes, it: Item): Bucket
  {
    if b == [] then [Entry(k, it)]
    else if b[0].key == k then [Entry(k, it)] + b[1..]
    else if Less(k, b[0].key) then [Entry(k, it)] + b
    else [b[0]] + Insert(b[1..], k, it)
  }

  /** The entries whose keys are not in ks, in their order. */
  function Without(b: Bucket, ks: set<Bytes>): Bucket
  {
    if b == [] then []
    else if b[0].key in ks then Without(b[1..], ks)
    else [b[0]] + Without(b[1..], ks)
  }

  function KeySet(b: Bucket): set<Bytes>
  {
    set k | 0 <= k < |b| :: b[k].key
  }

  // ---------------------------------------------------------------------
  // bbolt's bucket operations, with their error conditions.
  // ---------------------------------------------------------------------

  /** Bucket.Put of a leaf value. */
  function Put(b: Bucket, k: Bytes, v: Bytes): (r: Result<Bucket>)
    ensures r.Ok? ==> Get(r.value, k) == Some(v)
    ensures r.Ok? ==> forall k' :: k' != k ==> Find(r.value, k') == Find(b, k')
    ensures r.Err? ==> k == [] || |k| > MaxKeySize || |v| > MaxValueSize || Child(b, k).Some?
  {
    FindInsert(b, k, Leaf(v));
    if k == [] then Err(KeyRequired)
    else if |k| > MaxKeySize then Err(KeyTooLarge)
    else if |v| > MaxValueSize then Err(ValueTooLarge)
    else match Find(b, k)
      case Some(Nested(_)) => Err(IncompatibleValue)
      case _ => Ok(Insert(b, k, Leaf(v)))
  }

  /** Bucket.Delete (and Cursor.Delete) of a leaf: a missing key is not an error. */
  function Delete(b: Bucket, k: Bytes): (r: Result<Bucket>)
    ensures r.Ok? <==> Child(b, k).None?
    ensures r.Ok? ==> Find(r.value, k) == None
    ensures r.Ok? ==> forall k' :: k' != k ==> Find(r.value, k') == Find(b, k')
  {
    FindWithoutAll(b, {k});
    match Find(b, k)
    case Some(Nested(_)) => Err(IncompatibleValue)
    case _ => Ok(Without(b, {k}))
  }

  /** Bucket.DeleteBucket: removes a nested bucket and everything under it. */
  function DeleteBucket(b: Bucket, k: Bytes): (r: Result<Bucket>)
    ensures r.Ok? <==> Child(b, k).Some?
    ensures r.Ok? ==> Find(r.value, k) == None
    ensures r.Ok? ==> forall k' :: k' != k ==> Find(r.value, k') == Find(b, k')
  {
    FindWithoutAll(b, {k});
    match Find(b, k)
    case None => Err(BucketNotFound)
    case Some(Leaf(_)) => Err(IncompatibleValue)
    case Some(Nested(_)) => Ok(Without(b, {k}))
  }

  // ---------------------------------------------------------------------
  // Paths.
  // ---------------------------------------------------------------------

  /** The bucket a path names, looked up without creating anything. */
  function BucketAt(root: Bucket, p: Path): Option<Bucket>
    decreases |p|
  {
    if p == [] then Some(root)
    else match Child(root, p[0])
      case Some(es) => BucketAt(es, p[1..])
      case None => None
  }

  /** Replaces the bucket a path names; nothing changes if there is none. */
  function SetBucketAt(root: Bucket, p: Path, nb: Bucket): Bucket
    decreases |p|
  {
    if p == [] then nb
    else match Child(root, p[0])
      case Some(es) => Insert(root, p[0], Nested(SetBucketAt(es, p[1..], nb)))
      case None => root
  }

  /**
   * Walks the path creating every missing bucket (CreateBucketIfNotExists at
   * each level). Buckets created before a failing step stay created.
   */
  function CreatePath(root: Bucket, p: Path): (Bucket, Option<Error>)
    decreases |p|
  {
    if p == [] then (root, None)
    else if p[0] == [] then (root, Some(BucketNameRequired))
    else match Find(root, p[0])
      case Some(Leaf(_)) => (root, Some(IncompatibleValue))
      case Some(Nested(es)) =>
        var (es', e) := CreatePath(es, p[1..]);
        (Insert(root, p[0], Nested(es')), e)
      case None =>
        var (es', e) := CreatePath([], p[1..]);
        (Insert(root, p[0], Nested(es')), e)
  }

  /**
   * NodePath.Bucket: in a writable transaction the path is created as needed;
   * in a read-only one a missing bucket is ErrBucketNotFound.
   */
  function Resolve(root: Bucket, p: Path, writable: bool): (Bucket, Option<Error>)
  {
    if writable then CreatePath(root, p)
    else (root, if BucketAt(root, p).Some? then None else Some(BucketNotFound))
  }

  // ---------------------------------------------------------------------
  // Lemmas about single buckets.
  // ---------------------------------------------------------------------

  lemma {:induction false} FindInsert(b: Bucket, k: Bytes, it: Item)
    ensures Find(Insert(b, k, it), k) == Some(it)
    ensures forall k' :: k' != k ==> Find(Insert(b, k, it), k') == Find(b, k')
  {
    if b != [] && b[0].key != k && !Less(k, b[0].key) {
      FindInsert(b[1..], k, it);
    }
  }

  lemma {:induction false} FindWithout(b: Bucket, ks: set<Bytes>, k: Bytes)
    ensures Find(Without(b, ks), k) == if k in ks then None else Find(b, k)
  {
    if b != [] {
      FindWithout(b[1..], ks, k);
    }
  }

  lemma FindWithoutAll(b: Bucket, ks: set<Bytes>)
    ensures forall k :: Find(Without(b, ks), k) == if k in ks then None else Find(b, k)
  {
    forall k {
      FindWithout(b, ks, k);
    }
  }

  lemma {:induction false} InsertInsert(b: Bucket, k: Bytes, x: Item, y: Item)
    ensures Insert(Insert(b, k, x), k, y) == Insert(b, k, y)
  {
    if b != [] && b[0].key != k && !Less(k, b[0].key) {
      InsertInsert(b[1..], k, x, y);
    }
  }

  lemma {:induction false} WithoutWithout(b: Bucket, xs: set<Bytes>, ys: set<Bytes>)
    ensures Without(Without(b, xs), ys) == Without(b, xs + ys)
  {
    if b != [] {
      WithoutWithout(b[1..], xs, ys);
    }
  }

  lemma {:induction false} WithoutNothing(b: Bucket)
    ensures Without(b, {}) == b
  {
    if b != [] {
      WithoutNothing(b[1..]);
    }
  }

  /** Every key of a sorted bucket's tail is above its head. */
  lemma SortedTail(b: Bucket)
    requires Sorted(b) && b != []
    ensures Sorted(b[1..])
    ensures forall e :: e in b[1..] ==> Less(b[0].key, e.key)
  {
    forall e | e in b[1..]
      ensures Less(b[0].key, e.key)
    {
      var q :| 0 <= q < |b[1..]| && b[1..][q] == e;
      assert b[q + 1] == e;
    }
  }

  lemma {:induction false} FindMember(b: Bucket, k: Bytes)
    requires Find(b, k).Some?
    ensures Entry(k, Find(b, k).value) in b
  {
    if b[0].key != k {
      FindMember(b[1..], k);
    }
  }

  lemma {:induction false} FindAbsentBelow(b: Bucket, k: Bytes)
    requires forall e :: e in b ==> e.key != k
    ensures Find(b, k) == None
  {
    if b != [] {
      FindAbsentBelow(b[1..], k);
    }
  }

  /** In a sorted bucket, the item found under an entry's key is that entry's. */
  lemma {:induction false} FindAt(b: Bucket, i: int)
    requires Sorted(b) && 0 <= i < |b|
    ensures Find(b, b[i].key) == Some(b[i].item)
  {
    if i > 0 {
      SortedTail(b);
      assert b[1..][i - 1] == b[i];
      FindAt(b[1..], i - 1);
      assert b[0].key != b[i].key by {
        LessIrreflexive(b[0].key);
      }
    }
  }

  lemma {:induction false} InsertMembers(b: Bucket, k: Bytes, it: Item)
    ensures forall e :: e in Insert(b, k, it) ==> e == Entry(k, it) || e in b
  {
    if b != [] && b[0].key != k && !Less(k, b[0].key) {
      InsertMembers(b[1..], k, it);
    }
  }

  lemma {:induction false} InsertSorted(b: Bucket, k: Bytes, it: Item)
    requires Sorted(b)
    ensures Sorted(Insert(b, k, it))
  {
    if b == [] {
    } else if b[0].key == k {
      SortedTail(b);
    } else if Less(k, b[0].key) {
      SortedTail(b);
      forall e | e in b
        ensures Less(k, e.key)
      {
        if e != b[0] {
          LessTransitive(k, b[0].key, e.key);
        }
      }
    } else {
      SortedTail(b);
      InsertSorted(b[1..], k, it);
      InsertMembers(b[1..], k, it);
      LessTrichotomy(k, b[0].key);
      var r := Insert(b, k, it);
      assert r == [b[0]] + Insert(b[1..], k, it);
      forall p, q | 0 <= p < q < |r|
        ensures Less(r[p].key, r[q].key)
      {
        if p == 0 {
          assert r[q] in Insert(b[1..], k, it);
        } else {
          assert r[p] == Insert(b[1..], k, it)[p - 1];
        }
      }
    }
  }

  lemma {:induction false} WithoutMembers(b: Bucket, ks: set<Bytes>)
    ensures forall e :: e in Without(b, ks) ==> e in b && e.key !in ks
  {
    if b != [] {
      WithoutMembers(b[1..], ks);
    }
  }

  lemma {:induction false} WithoutSorted(b: Bucket, ks: set<Bytes>)
    requires Sorted(b)
    ensures Sorted(Without(b, ks))
  {
    if b != [] {
      SortedTail(b);
      WithoutSorted(b[1..], ks);
      WithoutMembers(b[1..], ks);
      if b[0].key !in ks {
        var w := Without(b[1..], ks);
        var r := [b[0]] + w;
        assert Without(b, ks) == r;
        forall p, q | 0 <= p < q < |r|
          ensures Less(r[p].key, r[q].key)
        {
          assert r[q] == w[q - 1];
          if p == 0 {
            assert w[q - 1] in w;
          } else {
            assert r[p] == w[p - 1];
          }
        }
      }
    }
  }

  lemma WFMembers(b: Bucket)
    ensures WF(b) <==> Sorted(b) && forall e :: e in b ==> e.key != [] && WFItem(e.item)
  {
    if Sorted(b) && forall e :: e in b ==> e.key != [] && WFItem(e.item) {
      forall k | 0 <= k < |b|
        ensures b[k].key != [] && WFItem(b[k].item)
      {
        assert b[k] in b;
      }
    }
  }

  lemma InsertWF(b: Bucket, k: Bytes, it: Item)
    requires WF(b) && k != [] && WFItem(it)
    ensures WF(Insert(b, k, it))
  {
    InsertSorted(b, k, it);
    InsertMembers(b, k, it);
    WFMembers(b);
    WFMembers(Insert(b, k, it));
  }

  lemma WithoutWF(b: Bucket, ks: set<Bytes>)
    requires WF(b)
    ensures WF(Without(b, ks))
  {
    WithoutSorted(b, ks);
    WithoutMembers(b, ks);
    WFMembers(b);
    WFMembers(Without(b, ks));
  }

  lemma {:induction false} InsertSame(b: Bucket, k: Bytes, it: Item)
    requires Sorted(b) && Find(b, k) == Some(it)
    ensures Insert(b, k, it) == b
  {
    if b[0].key != k {
      SortedTail(b);
      FindMember(b[1..], k);
      assert Less(b[0].key, k);
      LessTrichotomy(k, b[0].key);
      InsertSame(b[1..], k, it);
    }
  }

  lemma FindWF(b: Bucket, k: Bytes)
    requires WF(b) && Find(b, k).Some?
    ensures WFItem(Find(b, k).value)
  {
    FindMember(b, k);
    WFMembers(b);
  }

  /** Removing the keys of a sorted bucket's first n entries leaves its last entries. */
  lemma {:induction false} WithoutFront(b: Bucket, n: nat)
    requires Sorted(b) && n <= |b|
    ensures Without(b, KeySet(b[..n])) == b[n..]
  {
    if n == 0 {
      assert KeySet(b[..n]) == {};
      WithoutNothing(b);
    } else {
      SortedTail(b);
      WithoutFront(b[1..], n - 1);
      assert KeySet(b[..n]) == {b[0].key} + KeySet(b[1..][..n - 1]) by {
        forall x | x in KeySet(b[..n])
          ensures x in {b[0].key} + KeySet(b[1..][..n - 1])
        {
          var k :| 0 <= k < n && b[..n][k].key == x;
          if k > 0 {
            assert b[1..][..n - 1][k - 1] == b[k];
          }
        }
        forall x | x in {b[0].key} + KeySet(b[1..][..n - 1])
          ensures x in KeySet(b[..n])
        {
          if x != b[0].key {
            var k :| 0 <= k < n - 1 && b[1..][..n - 1][k].key == x;
            assert b[..n][k + 1].key == x;
          } else {
            assert b[..n][0].key == x;
          }
        }
      }
      WithoutWithout(b[1..], {b[0].key}, KeySet(b[1..][..n - 1]));
      assert Without(b[1..], {b[0].key}) == b[1..] by {
        forall e | e in b[1..]
          ensures e.key != b[0].key
        {
          LessIrreflexive(b[0].key);
        }
        WithoutUntouched(b[1..], {b[0].key});
      }
      assert b[0].key in KeySet(b[..n]) by {
        assert b[..n][0] == b[0];
      }
    }
  }

  lemma {:induction false} WithoutUntouched(b: Bucket, ks: set<Bytes>)
    requires forall e :: e in b ==> e.key !in ks
    ensures Without(b, ks) == b
  {
    if b != [] {
      WithoutUntouched(b[1..], ks);
    }
  }

  // ---------------------------------------------------------------------
  // Lemmas about paths.
  // ---------------------------------------------------------------------

  lemma {:induction false} BucketAtSet(root: Bucket, p: Path, nb: Bucket)
    requires BucketAt(root, p).Some?
    ensures BucketAt(SetBucketAt(root, p, nb), p) == Some(nb)
    decreases |p|
  {
    if p != [] {
      var es := Child(root, p[0]).value;
      FindInsert(root, p[0], Nested(SetBucketAt(es, p[1..], nb)));
      BucketAtSet(es, p[1..], nb);
    }
  }

  lemma {:induction false} SetBucketAtTwice(root: Bucket, p: Path, x: Bucket, y: Bucket)
    ensures SetBucketAt(SetBucketAt(root, p, x), p, y) == SetBucketAt(root, p, y)
    decreases |p|
  {
    if p != [] {
      match Child(root, p[0])
      case Some(es) =>
        var sx := SetBucketAt(es, p[1..], x);
        FindInsert(root, p[0], Nested(sx));
        SetBucketAtTwice(es, p[1..], x, y);
        InsertInsert(root, p[0], Nested(sx), Nested(SetBucketAt(es, p[1..], y)));
      case None =>
    }
  }

  lemma {:induction false} SetBucketAtSame(root: Bucket, p: Path)
    requires WF(root) && BucketAt(root, p).Some?
    ensures SetBucketAt(root, p, BucketAt(root, p).value) == root
    decreases |p|
  {
    if p != [] {
      var es := Child(root, p[0]).value;
      FindWF(root, p[0]);
      SetBucketAtSame(es, p[1..]);
      InsertSame(root, p[0], Nested(es));
    }
  }

  lemma {:induction false} BucketAtWF(root: Bucket, p: Path)
    requires WF(root) && BucketAt(root, p).Some?
    ensures WF(BucketAt(root, p).value)
    decreases |p|
  {
    if p != [] {
      FindWF(root, p[0]);
      BucketAtWF(Child(root, p[0]).value, p[1..]);
    }
  }

  lemma {:induction false} SetBucketAtWF(root: Bucket, p: Path, nb: Bucket)
    requires WF(root) && WF(nb)
    ensures WF(SetBucketAt(root, p, nb))
    decreases |p|
  {
    if p != [] {
      match Child(root, p[0])
      case Some(es) =>
        FindWF(root, p[0]);
        FindMember(root, p[0]);
        WFMembers(root);
        SetBucketAtWF(es, p[1..], nb);
        InsertWF(root, p[0], Nested(SetBucketAt(es, p[1..], nb)));
      case None =>
    }
  }

  lemma {:induction false} CreatePathWF(root: Bucket, p: Path)
    requires WF(root)
    ensures WF(CreatePath(root, p).0)
    decreases |p|
  {
    if p != [] && p[0] != [] {
      match Find(root, p[0])
      case Some(Leaf(_)) =>
      case Some(Nested(es)) =>
        FindWF(root, p[0]);
        CreatePathWF(es, p[1..]);
        InsertWF(root, p[0], Nested(CreatePath(es, p[1..]).0));
      case None =>
        CreatePathWF([], p[1..]);
        InsertWF(root, p[0], Nested(CreatePath([], p[1..]).0));
    }
  }

  /** A successful walk ends at the bucket that was there, or at a new empty one. */
  lemma {:induction false} CreatePathFinds(root: Bucket, p: Path)
    requires CreatePath(root, p).1 == None
    ensures BucketAt(root, p).None? ==> BucketAt(CreatePath(root, p).0, p) == Some([])
    ensures BucketAt(CreatePath(root, p).0, p).Some?
    decreases |p|
  {
    if p != [] {
      match Find(root, p[0])
      case Some(Nested(es)) =>
        CreatePathFinds(es, p[1..]);
        FindInsert(root, p[0], Nested(CreatePath(es, p[1..]).0));
      case None =>
        CreatePathFinds([], p[1..]);
        FindInsert(root, p[0], Nested(CreatePath([], p[1..]).0));
    }
  }

  /** Walking a path that already exists changes nothing. */
  lemma {:induction false} CreatePathExisting(root: Bucket, p: Path)
    requires WF(root) && BucketAt(root, p).Some?
    ensures CreatePath(root, p) == (root, None)
    decreases |p|
  {
    if p != [] {
      var es := Child(root, p[0]).value;
      FindMember(root, p[0]);
      FindWF(root, p[0]);
      CreatePathExisting(es, p[1..]);
      InsertSame(root, p[0], Nested(es));
    }
  }

  /** Creating one path never removes a bucket that another path names. */
  lemma {:induction false} CreatePathKeeps(root: Bucket, p: Path, q: Path)
    requires BucketAt(root, q).Some?
    ensures BucketAt(CreatePath(root, p).0, q).Some?
    decreases |p|
  {
    if p != [] && p[0] != [] && q != [] {
      match Find(root, p[0])
      case Some(Leaf(_)) =>
      case Some(Nested(es)) =>
        var es' := CreatePath(es, p[1..]).0;
        FindInsert(root, p[0], Nested(es'));
        if q[0] == p[0] {
          CreatePathKeeps(es, p[1..], q[1..]);
        }
      case None =>
        FindInsert(root, p[0], Nested(CreatePath([], p[1..]).0));
    }
  }
}
