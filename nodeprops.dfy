/**
 * Properties of the node's operations that relate several of them: what a
 * read sees after a write, what SetIfNone leaves alone, that Delete is
 * idempotent, what Exists reports, and which entries DropExceptLast keeps.
 */
module NodeProps {
  import opened Bytes
  import opened Errors
  import opened Store
  import opened Engine
  import opened Keys
  import opened NodeSpec

  /** The bucket an operation on path p works on: the one there, or a new empty one. */
  function Before(root: Bucket, p: Path): Bucket
  {
    if BucketAt(root, p).Some? then BucketAt(root, p).value else []
  }

  /** What a writable resolution of p leaves behind when it succeeds. */
  lemma Resolved(root: Bucket, p: Path)
    requires WF(root) && BucketOf(root, p, true).1 == None
    ensures WF(BucketOf(root, p, true).0)
    ensures BucketAt(BucketOf(root, p, true).0, p) == Some(Before(root, p))
    ensures BucketAt(root, p).Some? ==> BucketOf(root, p, true).0 == root
  {
    CreatePathWF(root, p);
    CreatePathFinds(root, p);
    if BucketAt(root, p).Some? {
      CreatePathExisting(root, p);
    }
  }

  /** Creating a path fails only on an empty name or a value in the way, never on a missing bucket. */
  lemma {:induction false} CreatePathErrors(root: Bucket, p: Path)
    ensures CreatePath(root, p).1 in {None, Some(BucketNameRequired), Some(IncompatibleValue)}
    decreases |p|
  {
    if p != [] && p[0] != [] {
      match Find(root, p[0])
      case Some(Leaf(_)) =>
      case Some(Nested(es)) => CreatePathErrors(es, p[1..]);
      case None => CreatePathErrors([], p[1..]);
    }
  }

  lemma FindNone(b: Bucket, k: Bytes)
    requires Find(b, k) == None
    ensures forall e :: e in b ==> e.key != k
  {
    forall e | e in b
      ensures e.key != k
    {
      if e.key == k {
        var i :| 0 <= i < |b| && b[i] == e;
        FindFirst(b, i);
      }
    }
  }

  lemma {:induction false} FindFirst(b: Bucket, i: int)
    requires 0 <= i < |b|
    ensures Find(b, b[i].key).Some?
  {
    if i > 0 && b[0].key != b[i].key {
      FindFirst(b[1..], i - 1);
    }
  }

  // ---------------------------------------------------------------------
  // Set and Get.
  // ---------------------------------------------------------------------

  /** Set's closure, when it succeeds, leaves the bytes under the key in the node's bucket. */
  lemma SetEffectStores<V>(root: Bucket, p: Path, key: Bytes, bytes: Bytes)
    requires WF(root)
    ensures var e := SetEffect<V>(root, p, key, bytes);
      e.err == None ==>
        WF(e.root) && BucketAt(e.root, p).Some? &&
        Store.Get(BucketAt(e.root, p).value, key) == Some(bytes) &&
        forall k' :: k' != key ==> Find(BucketAt(e.root, p).value, k') == Find(Before(root, p), k')
  {
    var (r1, e1) := BucketOf(root, p, true);
    if e1 == None {
      Resolved(root, p);
      BucketAtWF(r1, p);
      var b := BucketAt(r1, p).value;
      PutInWF(r1, true, p, key, bytes);
      match Store.Put(b, key, bytes)
      case Ok(nb) => BucketAtSet(r1, p, nb);
      case Err(_) =>
    }
  }

  /** Get's closure on a node whose bucket exists: the stored bytes, decoded; nothing changes. */
  lemma GetEffectReads<V>(root: Bucket, p: Path, writable: bool, key: Bytes, unmarshal: Bytes -> Result<V>)
    requires WF(root) && BucketAt(root, p).Some?
    ensures var d := Decode(Store.Get(BucketAt(root, p).value, key), unmarshal);
      GetEffect(root, p, writable, key, unmarshal) == Effect(root, d.0, d.1)
  {
    ResolveExisting(root, p, writable);
  }

  /**
   * After a successful Set(k, v), Get(k) decodes exactly the bytes v was
   * marshalled to, and changes nothing.
   */
  lemma SetThenGet<V>(s: State, p: Path, marshal: V -> Result<Bytes>, unmarshal: Bytes -> Result<V>, k: Bytes, v: V)
    requires StateWF(s)
    requires SetOutcome(s, p, marshal, unmarshal, k, v).1 == None
    ensures var s' := SetOutcome(s, p, marshal, unmarshal, k, v).0;
      var d := Decode(Some(marshal(v).value), unmarshal);
      GetOutcome(s', p, unmarshal, k) == (s', d.0, d.1)
  {
    var bytes := marshal(v).value;
    var key := MustKey(k);
    var s' := SetOutcome(s, p, marshal, unmarshal, k, v).0;
    match s.tx
    case Some(t) =>
      var e := SetEffect<V>(t.root, p, key, bytes);
      SetEffectStores<V>(t.root, p, key, bytes);
      assert s' == s.(tx := Some(t.(root := e.root)));
      GetEffectReads(e.root, p, true, key, unmarshal);
    case None =>
      var r1 := if |p| > 0 then BucketOf(s.db, p, true).0 else s.db;
      if |p| > 0 {
        Resolved(s.db, p);
      }
      var e := SetEffect<V>(r1, p, key, bytes);
      SetEffectStores<V>(r1, p, key, bytes);
      assert s' == s.(db := e.root);
      GetEffectReads(e.root, p, false, key, unmarshal);
  }

  /**
   * Get, where it creates nothing (a bucket that exists, or a read-only or
   * fresh transaction), reports ErrKeyNotFound for a missing bucket, a
   * missing key or a nested bucket under the key, and changes nothing.
   */
  lemma GetMissing<V>(s: State, p: Path, unmarshal: Bytes -> Result<V>, k: Bytes)
    requires StateWF(s) && Live(s) && (BucketAt(Tree(s), p).Some? || Reads(s))
    requires !Holds(s, p, MustKey(k))
    ensures GetOutcome(s, p, unmarshal, k) == (s, Some(KeyNotFound), NoOutput)
  {
    if BucketAt(Tree(s), p).Some? {
      ResolveExisting(Tree(s), p, s.tx.Some? && s.tx.value.writable);
    }
  }

  // ---------------------------------------------------------------------
  // SetIfNone.
  // ---------------------------------------------------------------------

  /** The node's bucket holds a value under key in the tree an operation sees. */
  predicate Holds(s: State, p: Path, key: Bytes)
  {
    BucketAt(Tree(s), p).Some? && Store.Get(BucketAt(Tree(s), p).value, key).Some?
  }

  /** SetIfNone never overwrites: with the key present, nothing changes. */
  lemma SetIfNoneKeepsExisting<V>(s: State, p: Path, marshal: V -> Result<Bytes>, unmarshal: Bytes -> Result<V>,
                                  k: Bytes, v: V)
    requires StateWF(s) && Holds(s, p, MustKey(k))
    ensures SetIfNoneOutcome(s, p, marshal, unmarshal, k, v).0 == s
  {
    ResolveExisting(Tree(s), p, true);
  }

  /** With the key absent, SetIfNone does what Set does. */
  lemma SetIfNoneAbsentIsSet<V>(s: State, p: Path, marshal: V -> Result<Bytes>, unmarshal: Bytes -> Result<V>,
                                k: Bytes, v: V)
    requires StateWF(s) && marshal(v).Ok? && !Holds(s, p, MustKey(k))
    ensures SetIfNoneOutcome(s, p, marshal, unmarshal, k, v) == SetOutcome(s, p, marshal, unmarshal, k, v)
  {
    var bytes := marshal(v).value;
    var key := MustKey(k);
    var root := Tree(s);
    if BucketOf(root, p, true).1 == None {
      Resolved(root, p);
      if |p| > 0 && s.tx.None? {
        var r1 := BucketOf(root, p, true).0;
        ResolveExisting(r1, p, true);
      }
    }
  }

  // ---------------------------------------------------------------------
  // Delete.
  // ---------------------------------------------------------------------

  /** Delete's closure, when it succeeds, removes the key and nothing else. */
  lemma DeleteEffectRemoves<V>(root: Bucket, p: Path, key: Bytes)
    requires WF(root)
    ensures var e := DeleteEffect<V>(root, p, key);
      e.err == None ==>
        WF(e.root) && BucketAt(e.root, p).Some? && Find(BucketAt(e.root, p).value, key) == None &&
        forall k' :: k' != key ==> Find(BucketAt(e.root, p).value, k') == Find(Before(root, p), k')
  {
    var (r1, e1) := BucketOf(root, p, true);
    if e1 == None {
      Resolved(root, p);
      BucketAtWF(r1, p);
      var b := BucketAt(r1, p).value;
      DeleteInWF(r1, true, p, key);
      match Store.Delete(b, key)
      case Ok(nb) => BucketAtSet(r1, p, nb);
      case Err(_) =>
    } else {
      CreatePathErrors(root, p);
    }
  }

  /**
   * A successful Delete(k) leaves the node's bucket without mustKey(k) and
   * every other key as it was.
   */
  lemma DeleteRemovesOnlyKey<V>(s: State, p: Path, unmarshal: Bytes -> Result<V>, k: Bytes)
    requires StateWF(s)
    requires DeleteOutcome(s, p, unmarshal, k).1 == None
    ensures var t := Tree(DeleteOutcome(s, p, unmarshal, k).0);
      BucketAt(t, p).Some? && Find(BucketAt(t, p).value, MustKey(k)) == None &&
      forall k' :: k' != MustKey(k) ==> Find(BucketAt(t, p).value, k') == Find(Before(Tree(s), p), k')
  {
    var key := MustKey(k);
    match s.tx
    case Some(t) =>
      DeleteEffectRemoves<V>(t.root, p, key);
    case None =>
      if |p| > 0 {
        Resolved(s.db, p);
        var r1 := BucketOf(s.db, p, true).0;
        DeleteEffectRemoves<V>(r1, p, key);
        assert Before(r1, p) == Before(s.db, p);
      } else {
        DeleteEffectRemoves<V>(s.db, p, key);
      }
  }

  /**
   * Delete on a node whose bucket is missing returns nil. In a writable
   * transaction the path is resolved by creating it, so what is left is an
   * empty bucket at the path.
   */
  lemma DeleteMissingBucket<V>(s: State, p: Path, unmarshal: Bytes -> Result<V>, k: Bytes)
    requires StateWF(s) && Live(s) && BucketAt(Tree(s), p).None?
    requires s.tx.Some? ==> s.tx.value.writable
    requires s.tx.None? ==> !s.ioError
    requires CreatePath(Tree(s), p).1 == None
    ensures DeleteOutcome(s, p, unmarshal, k).1 == None
    ensures BucketAt(Tree(DeleteOutcome(s, p, unmarshal, k).0), p) == Some([])
  {
    var key := MustKey(k);
    var root := Tree(s);
    Resolved(root, p);
    var r1 := BucketOf(root, p, true).0;
    ResolveExisting(r1, p, true);
    SetBucketAtSame(r1, p);
    assert Store.Delete([], key) == Ok([]);
    assert DeleteEffect<V>(r1, p, key) == Effect(r1, None, NoOutput);
  }

  /** Delete's closure on a bucket that lacks the key changes nothing. */
  lemma DeleteEffectAbsent<V>(root: Bucket, p: Path, key: Bytes)
    requires WF(root) && BucketAt(root, p).Some? && Find(BucketAt(root, p).value, key) == None
    ensures DeleteEffect<V>(root, p, key) == Effect(root, None, NoOutput)
  {
    var b := BucketAt(root, p).value;
    ResolveExisting(root, p, true);
    FindNone(b, key);
    WithoutUntouched(b, {key});
    SetBucketAtSame(root, p);
  }

  /** Delete is idempotent: once it has succeeded, deleting again succeeds and changes nothing. */
  lemma DeleteTwice<V>(s: State, p: Path, unmarshal: Bytes -> Result<V>, k: Bytes)
    requires StateWF(s)
    requires DeleteOutcome(s, p, unmarshal, k).1 == None
    ensures var s' := DeleteOutcome(s, p, unmarshal, k).0;
      DeleteOutcome(s', p, unmarshal, k) == (s', None)
  {
    var key := MustKey(k);
    var s' := DeleteOutcome(s, p, unmarshal, k).0;
    DeleteRemovesOnlyKey(s, p, unmarshal, k);
    match s.tx
    case Some(t) =>
      DeleteEffectRemoves<V>(t.root, p, key);
      DeleteEffectAbsent<V>(Tree(s'), p, key);
    case None =>
      var r1 := if |p| > 0 then BucketOf(s.db, p, true).0 else s.db;
      if |p| > 0 {
        Resolved(s.db, p);
      }
      DeleteEffectRemoves<V>(r1, p, key);
      ResolveExisting(s'.db, p, true);
      DeleteEffectAbsent<V>(s'.db, p, key);
  }

  // ---------------------------------------------------------------------
  // Exists.
  // ---------------------------------------------------------------------

  /**
   * Exists never fails and changes nothing: it is true exactly when a
   * transaction is at hand, the node's bucket exists, and k is empty or
   * names a value there, looked up as given, without mustKey.
   */
  lemma ExistsReports<V>(s: State, p: Path, unmarshal: Bytes -> Result<V>, k: Bytes)
    ensures ExistsOutcome(s, p, unmarshal, k) ==
      (s, Live(s) && BucketAt(Tree(s), p).Some? && (k == [] || Store.Get(BucketAt(Tree(s), p).value, k).Some?))
  {
  }

  /** The corrected Exists: a non-empty key is sanitised as Set sanitises it. */
  function ExistsFixedOutcome<V>(s: State, p: Path, unmarshal: Bytes -> Result<V>, k: Bytes): (State, bool)
  {
    ExistsOutcome(s, p, unmarshal, if k == [] then [] else MustKey(k))
  }

  /** As written, a key Set has just stored can read as absent: "\x00\x00" is stored as "\x00\x00\x00". */
  lemma SetThenExistsMisses()
    ensures var s := State([], true, false, None);
      var p: Path := [[1]];
      var k: Bytes := [0, 0];
      var marshal := (x: int) => Ok([7 as byte]);
      var unmarshal := (b: Bytes) => Ok(0);
      var (s', err) := SetOutcome(s, p, marshal, unmarshal, k, 5);
      err == None && !ExistsOutcome(s', p, unmarshal, k).1 && ExistsFixedOutcome(s', p, unmarshal, k).1
  {
    var s := State([], true, false, None);
    var p: Path := [[1]];
    var k: Bytes := [0, 0];
    var marshal := (x: int) => Ok([7 as byte]);
    var unmarshal := (b: Bytes) => Ok(0);
    MustKeyCases(k);
    assert MustKey(k) == [0, 0, 0];
    var r1 := [Entry([1], Nested([]))];
    assert BucketOf([], p, true) == (r1, None);
    var r2 := [Entry([1], Nested([Entry([0, 0, 0], Leaf([7]))]))];
    assert SetEffect<int>(r1, p, [0, 0, 0], [7]) == Effect(r2, None, NoOutput);
    var (s', err) := SetOutcome(s, p, marshal, unmarshal, k, 5);
    assert s' == s.(db := r2);
    ExistsReports(s', p, unmarshal, k);
    ExistsReports(s', p, unmarshal, [0, 0, 0]);
  }

  /** With the corrected Exists, a key Set has stored always reads as present. */
  lemma SetThenExistsFixed<V>(s: State, p: Path, marshal: V -> Result<Bytes>, unmarshal: Bytes -> Result<V>,
                              k: Bytes, v: V)
    requires StateWF(s)
    requires SetOutcome(s, p, marshal, unmarshal, k, v).1 == None
    ensures var s' := SetOutcome(s, p, marshal, unmarshal, k, v).0;
      ExistsFixedOutcome(s', p, unmarshal, k) == (s', true)
  {
    var bytes := marshal(v).value;
    var key := MustKey(k);
    var s' := SetOutcome(s, p, marshal, unmarshal, k, v).0;
    match s.tx
    case Some(t) =>
      SetEffectStores<V>(t.root, p, key, bytes);
    case None =>
      var r1 := if |p| > 0 then BucketOf(s.db, p, true).0 else s.db;
      if |p| > 0 {
        Resolved(s.db, p);
      }
      SetEffectStores<V>(r1, p, key, bytes);
    ExistsReports(s', p, unmarshal, if k == [] then [] else key);
  }

  // ---------------------------------------------------------------------
  // DropExceptLast and Drop.
  // ---------------------------------------------------------------------

  /**
   * A successful DropExceptLast(last) leaves in the node's bucket exactly
   * its last min(max(last, 0), n) entries: every one it removed has a
   * smaller key than every one it kept.
   */
  lemma DropExceptLastKeepsGreatest<V>(s: State, p: Path, unmarshal: Bytes -> Result<V>, last: int)
    requires StateWF(s)
    requires DropExceptLastOutcome(s, p, unmarshal, last).1 == None
    ensures var b := Before(Tree(s), p);
      var t := Tree(DropExceptLastOutcome(s, p, unmarshal, last).0);
      var cut := |b| - Keep(last, |b|);
      BucketAt(t, p) == Some(b[cut..]) &&
      |b[cut..]| == Keep(last, |b|) &&
      forall i, j :: 0 <= i < cut <= j < |b| ==> Less(b[i].key, b[j].key)
  {
    var root := if s.tx.Some? then s.tx.value.root
                else if |p| > 0 then BucketOf(s.db, p, true).0 else s.db;
    if s.tx.None? && |p| > 0 {
      Resolved(s.db, p);
    }
    var (r1, e1) := BucketOf(root, p, true);
    Resolved(root, p);
    var b := BucketAt(r1, p).value;
    BucketAtSet(r1, p, b[|b| - Keep(last, |b|)..]);
    BucketAtWF(r1, p);
  }

  /** A successful Drop leaves no bucket at the node's path; dropping the root empties the tree. */
  lemma DropRemovesBucket<V>(s: State, p: Path, unmarshal: Bytes -> Result<V>)
    requires DropOutcome(s, p, unmarshal).1 == None
    ensures p != [] ==> BucketAt(Tree(DropOutcome(s, p, unmarshal).0), p).None?
    ensures p == [] ==> Tree(DropOutcome(s, p, unmarshal).0) == []
  {
  }

  // ---------------------------------------------------------------------
  // Length, Each, EachKey.
  // ---------------------------------------------------------------------

  /** Where no bucket is created: no held transaction, or a read-only one. */
  predicate Reads(s: State)
  {
    s.tx.None? || !s.tx.value.writable
  }

  /**
   * Length counts every direct entry of the node's bucket, leaves and nested
   * buckets alike; a missing bucket counts 0 without an error.
   */
  lemma LengthCounts<V>(s: State, p: Path, unmarshal: Bytes -> Result<V>)
    requires StateWF(s) && Live(s) && (BucketAt(Tree(s), p).Some? || Reads(s))
    ensures LengthOutcome(s, p, unmarshal) == (s, |Before(Tree(s), p)|, None)
  {
    if BucketAt(Tree(s), p).Some? {
      ResolveExisting(Tree(s), p, s.tx.Some? && s.tx.value.writable);
    }
  }

  /** On a missing bucket, Each and EachKey visit nothing and report no error. */
  lemma IterateMissing<V>(s: State, p: Path, unmarshal: Bytes -> Result<V>,
                          visit: (Bytes, nat, V) -> Option<Error>, visitKey: (Bytes, nat) -> Option<Error>)
    requires Live(s) && BucketAt(Tree(s), p).None? && Reads(s)
    ensures EachOutcome(s, p, unmarshal, visit) == (s, None, [])
    ensures EachKeyOutcome(s, p, unmarshal, visitKey) == (s, None, [])
  {
  }

  lemma {:induction false} LeafKeysAscending(es: Bucket)
    requires Sorted(es)
    ensures forall i, j :: 0 <= i < j < |LeafKeys(es)| ==> Less(LeafKeys(es)[i], LeafKeys(es)[j])
    ensures forall x :: x in LeafKeys(es) ==> exists e :: e in es && e.key == x
    decreases |es|
  {
    if es != [] {
      SortedTail(es);
      LeafKeysAscending(es[1..]);
      forall x | x in LeafKeys(es[1..])
        ensures Less(es[0].key, x)
      {
        var e :| e in es[1..] && e.key == x;
      }
    }
  }

  /** On a bucket that exists, Each changes nothing and its outcome is the leaf iteration. */
  lemma EachOutcomeIterates<V>(s: State, p: Path, unmarshal: Bytes -> Result<V>, visit: (Bytes, nat, V) -> Option<Error>)
    requires StateWF(s) && Live(s) && BucketAt(Tree(s), p).Some?
    ensures var b := BucketAt(Tree(s), p).value;
      var (err, calls) := EachCalls(b, |LeafKeys(b)|, visit, unmarshal);
      EachOutcome(s, p, unmarshal, visit) == (s, err, calls)
  {
    ResolveExisting(Tree(s), p, s.tx.Some? && s.tx.value.writable);
  }

  /** On a bucket that exists, EachKey changes nothing and its outcome is the key iteration. */
  lemma EachKeyOutcomeIterates<V>(s: State, p: Path, unmarshal: Bytes -> Result<V>, visit: (Bytes, nat) -> Option<Error>)
    requires StateWF(s) && Live(s) && BucketAt(Tree(s), p).Some?
    ensures var b := BucketAt(Tree(s), p).value;
      var (err, calls) := EachKeyCalls(b, |b|, visit);
      EachKeyOutcome(s, p, unmarshal, visit) == (s, err, calls)
  {
    ResolveExisting(Tree(s), p, s.tx.Some? && s.tx.value.writable);
  }

  /**
   * Each, on a bucket that exists, changes nothing and calls visit on leaf
   * keys in ascending order, each time with the number of leaves; a nil
   * result goes on, EachBreak stops with no error, any other error stops
   * and is returned.
   */
  lemma EachVisitsLeaves<V>(s: State, p: Path, unmarshal: Bytes -> Result<V>, visit: (Bytes, nat, V) -> Option<Error>)
    requires StateWF(s) && Live(s) && BucketAt(Tree(s), p).Some?
    ensures var b := BucketAt(Tree(s), p).value;
      var (s', err, calls) := EachOutcome(s, p, unmarshal, visit);
      && s' == s
      && |calls| <= |LeafKeys(b)|
      && (forall i :: 0 <= i < |calls| ==> calls[i].key == LeafKeys(b)[i] && calls[i].length == |LeafKeys(b)|)
      && (forall i, j :: 0 <= i < j < |calls| ==> Less(calls[i].key, calls[j].key))
      && (forall i :: 0 <= i < |calls| - 1 ==> calls[i].result == None)
      && (calls != [] && calls[|calls| - 1].result != None ==> err == Stop(calls[|calls| - 1].result))
      && ((calls == [] || calls[|calls| - 1].result == None) ==>
            (err == None ==> |calls| == |LeafKeys(b)|) &&
            (err != None ==> err.value.Wrapped? && err.value.context == UnmarshalFailed))
  {
    var b := BucketAt(Tree(s), p).value;
    EachOutcomeIterates(s, p, unmarshal, visit);
    BucketAtWF(Tree(s), p);
    EachCallsShape(b, |LeafKeys(b)|, visit, unmarshal);
    LeafKeysAscending(b);
  }

  /** EachKey, on a bucket that exists, calls visit on every key in ascending order with the entry count. */
  lemma EachKeyVisitsAll<V>(s: State, p: Path, unmarshal: Bytes -> Result<V>, visit: (Bytes, nat) -> Option<Error>)
    requires StateWF(s) && Live(s) && BucketAt(Tree(s), p).Some?
    ensures var b := BucketAt(Tree(s), p).value;
      var (s', err, calls) := EachKeyOutcome(s, p, unmarshal, visit);
      && s' == s
      && |calls| <= |b|
      && (forall i :: 0 <= i < |calls| ==> calls[i].key == b[i].key && calls[i].length == |b|)
      && (forall i, j :: 0 <= i < j < |calls| ==> Less(calls[i].key, calls[j].key))
      && (forall i :: 0 <= i < |calls| - 1 ==> calls[i].result == None)
      && (calls != [] && calls[|calls| - 1].result != None ==> err == Stop(calls[|calls| - 1].result))
      && ((calls == [] || calls[|calls| - 1].result == None) ==> err == None && |calls| == |b|)
  {
    var b := BucketAt(Tree(s), p).value;
    EachKeyOutcomeIterates(s, p, unmarshal, visit);
    BucketAtWF(Tree(s), p);
    EachKeyCallsShape(b, |b|, visit);
  }
}
