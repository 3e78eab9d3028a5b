/**
 * The database node: a handle on one bucket path of a key-value database,
 * holding the transaction of the call chain it belongs to (if any) and a
 * cached handle on its resolved bucket. Every operation is proved against
 * the functions of the same name in NodeSpec.
 */
module Db {
  import opened Bytes
  import opened Errors
  import opened Store
  import opened Engine
  import opened Keys
  import opened Evict
  import opened NodeSpec

  /** The database handle and the value codec every node of it shares. */
  class KV<V> {
    const db: DB
    const marshal: V -> Result<Bytes>
    const unmarshal: Bytes -> Result<V>

    constructor (db: DB, marshal: V -> Result<Bytes>, unmarshal: Bytes -> Result<V>)
      ensures this.db == db && this.marshal == marshal && this.unmarshal == unmarshal
    {
      this.db := db;
      this.marshal := marshal;
      this.unmarshal := unmarshal;
    }
  }

  class Node<V> {
    const kv: KV<V>
    var txn: Tx?
    /** The cached bucket handle, standing for the bucket its path names. */
    var buck: Option<Path>
    var path: Path

    ghost predicate Valid()
      reads this, kv.db, txn
    {
      kv.db.Valid()
      && (txn != null ==> txn.db == kv.db && txn.Valid())
      && (buck.Some? ==> txn != null && buck.value == path)
    }

    /** A cached handle still names a bucket of the transaction's tree. */
    ghost predicate CacheValid()
      reads this, txn
    {
      buck.Some? ==> txn != null && BucketAt(txn.root, path).Some?
    }

    ghost function Snapshot(): State
      reads this, kv.db, txn
    {
      State(kv.db.root, kv.db.open, kv.db.ioError,
            if txn == null then None else Some(TxState(txn.writable, txn.root)))
    }

    constructor (kv: KV<V>, txn: Tx?, path: Path)
      requires kv.db.Valid() && (txn != null ==> txn.db == kv.db && txn.Valid())
      ensures Valid() && CacheValid()
      ensures this.kv == kv && this.txn == txn && this.path == path && buck == None
    {
      this.kv := kv;
      this.txn := txn;
      this.buck := None;
      this.path := path;
    }

    /** The copy a value receiver works on. */
    constructor Copy(n: Node<V>)
      ensures kv == n.kv && txn == n.txn && buck == n.buck && path == n.path
    {
      kv := n.kv;
      txn := n.txn;
      buck := n.buck;
      path := n.path;
    }

    /** Node.bucket: the cached handle, or the path resolved in the held transaction. */
    method Bucket() returns (err: Option<Error>)
      requires Valid() && CacheValid()
      modifies this, txn
      ensures txn == old(txn) && path == old(path) && Valid() && CacheValid()
      ensures txn == null ==> err == Some(TxClosed) && buck == None
      ensures txn != null ==> (txn.root, err) == BucketOf(old(txn.root), path, txn.writable)
      ensures txn != null ==> (buck.Some? <==> err == None)
      ensures old(buck).Some? ==> err == None && buck == old(buck) && txn.root == old(txn.root)
    {
      if buck.Some? {
        ResolveExisting(txn.root, path, txn.writable);
        return None;
      }
      if txn == null {
        return Some(TxClosed);
      }
      ResolveFinds(txn.root, path, txn.writable);
      var e := txn.Bucket(path);
      if e.Some? {
        return Some(if Is(e.value, BucketNotFound) then KeyNotFound else e.value);
      }
      buck := Some(path);
      err := None;
    }

    /** Node.bucketExists: a lookup that caches the handle it finds. */
    method BucketExists() returns (present: bool)
      requires Valid() && CacheValid() && txn != null
      modifies this
      ensures txn == old(txn) && path == old(path) && Valid() && CacheValid()
      ensures present == BucketAt(txn.root, path).Some?
      ensures present ==> buck == Some(path)
    {
      if buck.Some? {
        return true;
      }
      present := txn.BucketExists(path);
      if present {
        buck := Some(path);
      }
    }

    // -------------------------------------------------------------------
    // The closures the public operations run inside a transaction.
    // -------------------------------------------------------------------

    method RunSet(k: Bytes, bytes: Bytes) returns (err: Option<Error>)
      requires Valid() && CacheValid() && txn != null && txn.writable
      modifies this, txn
      ensures txn == old(txn) && path == old(path) && Valid()
      ensures Effect(txn.root, err, NoOutput) == SetEffect<V>(old(txn.root), path, k, bytes)
    {
      err := Bucket();
      if err.Some? {
        return;
      }
      err := txn.Put(path, k, bytes);
    }

    method RunSetIfNone(k: Bytes, bytes: Bytes) returns (err: Option<Error>)
      requires Valid() && CacheValid() && txn != null && txn.writable
      modifies this, txn
      ensures txn == old(txn) && path == old(path) && Valid()
      ensures Effect(txn.root, err, NoOutput) == SetIfNoneEffect<V>(old(txn.root), path, k, bytes)
    {
      err := Bucket();
      if err.Some? {
        return;
      }
      if txn.Get(path, k).Some? {
        return None;
      }
      err := txn.Put(path, k, bytes);
    }

    method RunGet(k: Bytes) returns (err: Option<Error>, out: Outcome<V>)
      requires Valid() && CacheValid() && txn != null
      modifies this, txn
      ensures txn == old(txn) && path == old(path) && Valid()
      ensures Effect(txn.root, err, out) == GetEffect(old(txn.root), path, txn.writable, k, kv.unmarshal)
    {
      err := Bucket();
      if err.Some? {
        return err, NoOutput;
      }
      var bytes := txn.Get(path, k);
      if bytes.None? {
        return Some(KeyNotFound), NoOutput;
      }
      var v := kv.unmarshal(bytes.value);
      if v.Err? {
        return Some(Wrapped(UnmarshalFailed, v.error)), NoOutput;
      }
      return None, Value(v.value);
    }

    method RunExists(k: Bytes) returns (err: Option<Error>, out: Outcome<V>)
      requires Valid() && CacheValid() && txn != null
      modifies this, txn
      ensures txn == old(txn) && path == old(path) && Valid()
      ensures Effect(txn.root, err, out) == ExistsEffect<V>(old(txn.root), path, k)
    {
      var found := BucketExists();
      if !found {
        return None, Presence(false);
      }
      err := Bucket();
      if err.Some? {
        assert false;
      }
      var present := k == [] || txn.Get(path, k).Some?;
      return None, Presence(present);
    }

    method RunDelete(k: Bytes) returns (err: Option<Error>)
      requires Valid() && CacheValid() && txn != null && txn.writable
      modifies this, txn
      ensures txn == old(txn) && path == old(path) && Valid()
      ensures Effect(txn.root, err, NoOutput) == DeleteEffect<V>(old(txn.root), path, k)
    {
      err := Bucket();
      if err.Some? {
        if Is(err.value, KeyNotFound) {
          return None;
        }
        return;
      }
      err := txn.Delete(path, k);
    }

    method RunDrop() returns (err: Option<Error>)
      requires Valid() && txn != null && txn.writable
      modifies txn
      ensures Valid()
      ensures Effect(txn.root, err, NoOutput) == DropEffect<V>(old(txn.root), path)
    {
      err := txn.DropPrefix(path);
    }

    /**
     * DropExceptLast's closure: walks the bucket from its last key back,
     * skips the first `last` entries, deletes every later leaf on the spot
     * and sets the names of later nested buckets aside, then deletes those.
     */
    method RunDropExceptLast(last: int) returns (err: Option<Error>)
      requires Valid() && CacheValid() && txn != null && txn.writable
      modifies this, txn
      ensures txn == old(txn) && path == old(path) && Valid()
      ensures Effect(txn.root, err, NoOutput) == DropExceptLastEffect<V>(old(txn.root), path, last)
    {
      err := Bucket();
      if err.Some? {
        return;
      }
      ghost var root0 := txn.root;
      var es := txn.Entries(path);
      ghost var cut := |es| - Keep(last, |es|);
      BucketAtWF(root0, path);
      var buckets, lastError := DropWalk(last, es, root0, cut);
      DropBuckets(buckets, es, root0, cut);
      return lastError;
    }

    /** The backward cursor walk of DropExceptLast. */
    method DropWalk(last: int, es: Bucket, ghost root0: Bucket, ghost cut: int)
      returns (buckets: seq<Bytes>, lastError: Option<Error>)
      requires Valid() && txn != null && txn.writable && txn.root == root0
      requires BucketAt(root0, path) == Some(es) && WF(es) && cut == |es| - Keep(last, |es|)
      modifies txn
      ensures Valid()
      ensures txn.root == SetBucketAt(root0, path, Without(es, LeafKeysIn(es, 0, cut)))
      ensures buckets == NestedKeysDown(es, 0, cut) && lastError == None
    {
      lastError := None;
      buckets := [];
      SetBucketAtSame(root0, path);
      WithoutNothing(es);
      assert LeafKeysIn(es, |es|, cut) == {};
      var left := last;
      var i := |es|;
      while i > 0
        invariant 0 <= i <= |es| && Valid()
        invariant left == if last <= 0 then last else if last - (|es| - i) > 0 then last - (|es| - i) else 0
        invariant txn.root == SetBucketAt(root0, path, Without(es, LeafKeysIn(es, i, cut)))
        invariant buckets == NestedKeysDown(es, i, cut)
        invariant lastError == None
      {
        if left > 0 {
          KeepStep(es, i - 1, cut);
          left := left - 1;
        } else if es[i - 1].item.Nested? {
          SkipNestedStep(es, i - 1, cut);
          buckets := buckets + [es[i - 1].key];
        } else {
          DropLeafIn(root0, path, es, i - 1, cut);
          var e := txn.Delete(path, es[i - 1].key);
          if e.Some? {
            lastError := e;
          }
        }
        i := i - 1;
      }
    }

    /** DropExceptLast's second pass: deletes the buckets set aside, ignoring errors. */
    method DropBuckets(buckets: seq<Bytes>, ghost es: Bucket, ghost root0: Bucket, ghost cut: int)
      requires Valid() && txn != null && txn.writable
      requires BucketAt(root0, path) == Some(es) && Sorted(es) && 0 <= cut <= |es|
      requires buckets == NestedKeysDown(es, 0, cut)
      requires txn.root == SetBucketAt(root0, path, Without(es, LeafKeysIn(es, 0, cut)))
      modifies txn
      ensures Valid() && txn.root == SetBucketAt(root0, path, es[cut..])
    {
      ghost var dropped := LeafKeysIn(es, 0, cut);
      var t := 0;
      assert dropped + Elements(buckets[..t]) == dropped by {
        assert Elements(buckets[..t]) == {};
      }
      while t < |buckets|
        invariant 0 <= t <= |buckets| && Valid()
        invariant txn.root == SetBucketAt(root0, path, Without(es, dropped + Elements(buckets[..t])))
      {
        ghost var s := dropped + Elements(buckets[..t]);
        NestedKeysDownMember(es, 0, cut, buckets[t]);
        DropBucketIn(root0, path, es, s, buckets[t], cut);
        assert dropped + Elements(buckets[..t + 1]) == s + {buckets[t]} by {
          assert buckets[..t + 1] == buckets[..t] + [buckets[t]];
        }
        var _ := txn.DeleteBucket(path, buckets[t]);
        t := t + 1;
      }
      assert buckets[..t] == buckets;
      AllBelowCut(es, cut);
      WithoutFront(es, cut);
    }

    /** Length's closure: one cursor pass counting every entry. */
    method RunLength() returns (err: Option<Error>, out: Outcome<V>)
      requires Valid() && CacheValid() && txn != null
      modifies this, txn
      ensures txn == old(txn) && path == old(path) && Valid()
      ensures Effect(txn.root, err, out) == LengthEffect(old(txn.root), path, txn.writable)
    {
      err := Bucket();
      if err.Some? {
        if Is(err.value, KeyNotFound) {
          return None, Count(0);
        }
        return err, Count(0);
      }
      var length := CountEntries(txn.Entries(path));
      return None, Count(length);
    }

    /**
     * Each's closure: a first pass counts the leaves, a second decodes each
     * leaf and calls visit with its key and that count.
     */
    method RunEach(visit: (Bytes, nat, V) -> Option<Error>) returns (err: Option<Error>, out: Outcome<V>)
      requires Valid() && CacheValid() && txn != null
      modifies this, txn
      ensures txn == old(txn) && path == old(path) && Valid()
      ensures Effect(txn.root, err, out) == EachEffect(old(txn.root), path, txn.writable, visit, kv.unmarshal)
    {
      err := Bucket();
      if err.Some? {
        if Is(err.value, KeyNotFound) {
          return None, Calls([]);
        }
        return err, Calls([]);
      }
      var es := txn.Entries(path);
      var length := CountLeaves(es);
      var calls;
      err, calls := VisitLeaves(es, length, visit);
      out := Calls(calls);
    }

    /** EachKey's closure: counts every entry, then visits every key. */
    method RunEachKey(visit: (Bytes, nat) -> Option<Error>) returns (err: Option<Error>, out: Outcome<V>)
      requires Valid() && CacheValid() && txn != null
      modifies this, txn
      ensures txn == old(txn) && path == old(path) && Valid()
      ensures Effect(txn.root, err, out) == EachKeyEffect(old(txn.root), path, txn.writable, visit)
    {
      err := Bucket();
      if err.Some? {
        if Is(err.value, KeyNotFound) {
          return None, Calls([]);
        }
        return err, Calls([]);
      }
      var es := txn.Entries(path);
      var length := CountEntries(es);
      var calls;
      err, calls := VisitKeys(es, length, visit);
      out := Calls(calls);
    }

    /** A cursor pass counting every entry. */
    static method CountEntries(es: Bucket) returns (length: nat)
      ensures length == |es|
    {
      length := 0;
      var i := 0;
      while i < |es|
        invariant 0 <= i <= |es| && length == i
      {
        length := length + 1;
        i := i + 1;
      }
    }

    /** A cursor pass counting the leaves: nested buckets read as no value. */
    static method CountLeaves(es: Bucket) returns (length: nat)
      ensures length == |LeafKeys(es)|
    {
      length := 0;
      var i := 0;
      while i < |es|
        invariant 0 <= i <= |es| && length == |LeafKeys(es[..i])|
      {
        LeafKeysSnoc(es[..i], es[i]);
        assert es[..i + 1] == es[..i] + [es[i]];
        if es[i].item.Leaf? {
          length := length + 1;
        }
        i := i + 1;
      }
      assert es[..i] == es;
    }

    /** Each's second pass: decodes each leaf and calls visit until it says stop. */
    method VisitLeaves(es: Bucket, length: nat, visit: (Bytes, nat, V) -> Option<Error>)
      returns (err: Option<Error>, calls: seq<Call>)
      ensures (err, calls) == EachCalls(es, length, visit, kv.unmarshal)
    {
      calls := [];
      var i := 0;
      assert es[i..] == es;
      assert [] + EachCalls(es, length, visit, kv.unmarshal).1 == EachCalls(es, length, visit, kv.unmarshal).1;
      while i < |es|
        invariant 0 <= i <= |es|
        invariant EachCalls(es, length, visit, kv.unmarshal)
               == Join(calls, EachCalls(es[i..], length, visit, kv.unmarshal))
      {
        assert es[i..][1..] == es[i + 1..];
        if es[i].item.Nested? {
          i := i + 1;
          continue;
        }
        var v := kv.unmarshal(es[i].item.value);
        if v.Err? {
          assert calls + [] == calls;
          return Some(Wrapped(UnmarshalFailed, v.error)), calls;
        }
        var res := visit(es[i].key, length, v.value);
        JoinJoin(calls, [Call(es[i].key, length, res)], EachCalls(es[i + 1..], length, visit, kv.unmarshal));
        calls := calls + [Call(es[i].key, length, res)];
        if res.Some? {
          if res.value == EachBreak {
            return None, calls;
          }
          return res, calls;
        }
        i := i + 1;
      }
      assert es[i..] == [] && calls + [] == calls;
      return None, calls;
    }

    /** EachKey's second pass: calls visit on every key until it says stop. */
    static method VisitKeys(es: Bucket, length: nat, visit: (Bytes, nat) -> Option<Error>)
      returns (err: Option<Error>, calls: seq<Call>)
      ensures (err, calls) == EachKeyCalls(es, length, visit)
    {
      calls := [];
      var i := 0;
      assert es[i..] == es;
      assert [] + EachKeyCalls(es, length, visit).1 == EachKeyCalls(es, length, visit).1;
      while i < |es|
        invariant 0 <= i <= |es|
        invariant EachKeyCalls(es, length, visit) == Join(calls, EachKeyCalls(es[i..], length, visit))
      {
        assert es[i..][1..] == es[i + 1..];
        var res := visit(es[i].key, length);
        JoinJoin(calls, [Call(es[i].key, length, res)], EachKeyCalls(es[i + 1..], length, visit));
        calls := calls + [Call(es[i].key, length, res)];
        if res.Some? {
          if res.value == EachBreak {
            return None, calls;
          }
          return res, calls;
        }
        i := i + 1;
      }
      assert es[i..] == [] && calls + [] == calls;
      return None, calls;
    }

    /** A caller's closure; a read-only transaction keeps none of its changes. */
    method RunUser(run: Bucket -> (Bucket, Option<Error>)) returns (err: Option<Error>)
      requires Valid() && txn != null && forall t :: WF(t) ==> WF(run(t).0)
      modifies txn
      ensures Valid()
      ensures Effect(txn.root, err, NoOutput) == UserEffect<V>(old(txn.root), txn.writable, run)
    {
      var r := run(txn.root);
      if txn.writable {
        txn.Replace(r.0);
      }
      err := r.1;
    }

    /** Runs the closure f in the held transaction. */
    method RunBody(f: Callback<V>) returns (err: Option<Error>, out: Outcome<V>)
      requires Valid() && CacheValid() && txn != null && Callable(f)
      requires f.Writes() ==> txn.writable
      modifies this, txn
      ensures txn == old(txn) && path == old(path) && Valid()
      ensures Effect(txn.root, err, out) == Body(f, old(txn.root), path, txn.writable, kv.unmarshal)
    {
      out := NoOutput;
      match f
      case SetBody(k, bytes) => err := RunSet(k, bytes);
      case SetIfNoneBody(k, bytes) => err := RunSetIfNone(k, bytes);
      case GetBody(k) => err, out := RunGet(k);
      case ExistsBody(k) => err, out := RunExists(k);
      case DeleteBody(k) => err := RunDelete(k);
      case DropBody => err := RunDrop();
      case DropExceptLastBody(last) => err := RunDropExceptLast(last);
      case LengthBody => err, out := RunLength();
      case EachBody(visit) => err, out := RunEach(visit);
      case EachKeyBody(visit) => err, out := RunEachKey(visit);
      case UserBody(run) => err := RunUser(run);
    }

    // -------------------------------------------------------------------
    // Transactions.
    // -------------------------------------------------------------------

    /**
     * Node.doTx: a held transaction is reused as it is; otherwise one is
     * begun, the path of a writable node resolved first, and the
     * transaction committed only when writable and f succeeded.
     */
    method DoTx(f: Callback<V>, writable: bool) returns (err: Option<Error>, out: Outcome<V>)
      requires Valid() && CacheValid() && Callable(f)
      requires f.Writes() ==> writable && (txn != null ==> txn.writable)
      modifies this, kv.db, txn
      ensures path == old(path) && kv.db.Valid()
      ensures old(txn) != null ==> txn == old(txn) && Valid() && unchanged(kv.db)
      ensures old(txn) != null ==>
        Effect(txn.root, err, out) == Body(f, old(txn.root), path, txn.writable, kv.unmarshal)
      ensures old(txn) == null ==> kv.db.open == old(kv.db.open) && kv.db.ioError == old(kv.db.ioError)
      ensures old(txn) == null ==>
        Effect(kv.db.root, err, out) == Fresh(f, old(kv.db.root), kv.db.open, kv.db.ioError, path, writable, kv.unmarshal)
      ensures old(txn) == null ==> txn == null || (fresh(txn) && txn.closed)
    {
      if txn != null {
        err, out := RunBody(f);
        return;
      }
      var t, e := kv.db.Begin(writable);
      if e.Some? {
        return Some(Wrapped(BeginFailed, e.value)), NoOutput;
      }
      txn := t;
      buck := None;
      if |path| > 0 && writable {
        var e1 := Bucket();
        if e1.Some? {
          var _ := t.Rollback();
          return Some(Wrapped(FetchFailed, e1.value)), NoOutput;
        }
      }
      err, out := RunBody(f);
      if err.Some? {
        var _ := t.Rollback();
        return;
      }
      if writable {
        var e2 := t.Commit();
        if e2.Some? {
          var _ := t.Rollback();
          return Some(Wrapped(CommitFailed, e2.value)), out;
        }
      }
      var _ := t.Rollback();
      err := None;
    }

    /** Node.TxUpdate: a held read-only transaction is refused before f runs. */
    method TxUpdate(f: Callback<V>) returns (err: Option<Error>, out: Outcome<V>)
      requires Valid() && CacheValid() && Callable(f)
      modifies kv.db, txn
      ensures Valid()
      ensures (Snapshot(), err, out) == TxUpdateOutcome(f, old(Snapshot()), path, kv.unmarshal)
    {
      if txn != null && !txn.writable {
        return Some(TxNotWritable), NoOutput;
      }
      var n := new Node.Copy(this);
      err, out := n.DoTx(f, true);
    }

    /** Node.TxView: runs f without committing. */
    method TxView(f: Callback<V>) returns (err: Option<Error>, out: Outcome<V>)
      requires Valid() && CacheValid() && Callable(f) && !f.Writes()
      modifies kv.db, txn
      ensures Valid()
      ensures (Snapshot(), err, out) == TxViewOutcome(f, old(Snapshot()), path, kv.unmarshal)
    {
      var n := new Node.Copy(this);
      err, out := n.DoTx(f, false);
    }

    // -------------------------------------------------------------------
    // Paths.
    // -------------------------------------------------------------------

    /** Node.FromPath: a node for another path, its bucket resolved at once if a transaction is held. */
    method FromPath(p: Path) returns (m: Node<V>)
      requires Valid() && CacheValid()
      modifies txn
      ensures fresh(m) && m.kv == kv && m.txn == txn && m.path == p
      ensures m.Valid() && m.CacheValid() && Valid() && CacheValid()
      ensures txn == null ==> m.buck == None
      ensures txn != null ==> txn.root == BucketOf(old(txn.root), p, txn.writable).0
      ensures txn != null ==> (m.buck.Some? <==> BucketOf(old(txn.root), p, txn.writable).1 == None)
    {
      m := new Node.Copy(this);
      m.path := p;
      m.buck := None;
      if txn != null && buck.Some? {
        CreatePathKeeps(txn.root, p, path);
      }
      var _ := m.Bucket();
    }

    /** Node.Node: a child node whose path is this one's followed by names. */
    method Node(names: seq<Bytes>) returns (m: Node<V>)
      requires Valid() && CacheValid() && |names| > 0
      modifies txn
      ensures fresh(m) && m.kv == kv && m.txn == txn && m.path == path + names
      ensures m.Valid() && m.CacheValid() && Valid() && CacheValid()
      ensures txn == null ==> m.buck == None
      ensures txn != null ==> txn.root == BucketOf(old(txn.root), path + names, txn.writable).0
      ensures txn != null ==> (m.buck.Some? <==> BucketOf(old(txn.root), path + names, txn.writable).1 == None)
    {
      var p := path;
      var i := 0;
      while i < |names|
        invariant 0 <= i <= |names| && p == path + names[..i]
      {
        p := p + [names[i]];
        i := i + 1;
      }
      assert names[..i] == names;
      m := FromPath(p);
    }

    // -------------------------------------------------------------------
    // The public operations.
    // -------------------------------------------------------------------

    method Set(k: Bytes, v: V) returns (err: Option<Error>)
      requires Valid() && CacheValid()
      modifies kv.db, txn
      ensures Valid()
      ensures (Snapshot(), err) == SetOutcome(old(Snapshot()), path, kv.marshal, kv.unmarshal, k, v)
    {
      var bytes := kv.marshal(v);
      if bytes.Err? {
        return Some(Wrapped(MarshalFailed, bytes.error));
      }
      var key := MustKey(k);
      var out;
      err, out := TxUpdate(SetBody(key, bytes.value));
    }

    method SetIfNone(k: Bytes, v: V) returns (err: Option<Error>)
      requires Valid() && CacheValid()
      modifies kv.db, txn
      ensures Valid()
      ensures (Snapshot(), err) == SetIfNoneOutcome(old(Snapshot()), path, kv.marshal, kv.unmarshal, k, v)
    {
      var bytes := kv.marshal(v);
      if bytes.Err? {
        return Some(Wrapped(MarshalFailedIfNone, bytes.error));
      }
      var key := MustKey(k);
      var out;
      err, out := TxUpdate(SetIfNoneBody(key, bytes.value));
    }

    /** Node.Get: the decoded value, which Go writes through its pointer argument. */
    method Get(k: Bytes) returns (err: Option<Error>, out: Outcome<V>)
      requires Valid() && CacheValid()
      modifies kv.db, txn
      ensures Valid()
      ensures (Snapshot(), err, out) == GetOutcome(old(Snapshot()), path, kv.unmarshal, k)
    {
      var key := MustKey(k);
      err, out := TxView(GetBody(key));
    }

    method Exists(k: Bytes) returns (present: bool)
      requires Valid() && CacheValid()
      modifies kv.db, txn
      ensures Valid()
      ensures (Snapshot(), present) == ExistsOutcome(old(Snapshot()), path, kv.unmarshal, k)
    {
      var err, out := TxView(ExistsBody(k));
      present := err == None && out.Presence? && out.present;
    }

    method Delete(k: Bytes) returns (err: Option<Error>)
      requires Valid() && CacheValid()
      modifies kv.db, txn
      ensures Valid()
      ensures (Snapshot(), err) == DeleteOutcome(old(Snapshot()), path, kv.unmarshal, k)
    {
      var key := MustKey(k);
      var out;
      err, out := TxUpdate(DeleteBody(key));
    }

    method Drop() returns (err: Option<Error>)
      requires Valid() && CacheValid()
      modifies kv.db, txn
      ensures Valid()
      ensures (Snapshot(), err) == DropOutcome(old(Snapshot()), path, kv.unmarshal)
    {
      var out;
      err, out := TxUpdate(DropBody);
    }

    method DropExceptLast(last: int) returns (err: Option<Error>)
      requires Valid() && CacheValid()
      modifies kv.db, txn
      ensures Valid()
      ensures (Snapshot(), err) == DropExceptLastOutcome(old(Snapshot()), path, kv.unmarshal, last)
    {
      var out;
      err, out := TxUpdate(DropExceptLastBody(last));
    }

    method Length() returns (length: nat, err: Option<Error>)
      requires Valid() && CacheValid()
      modifies kv.db, txn
      ensures Valid()
      ensures (Snapshot(), length, err) == LengthOutcome(old(Snapshot()), path, kv.unmarshal)
    {
      var out;
      err, out := TxView(LengthBody);
      length := if out.Count? then out.count else 0;
    }

    /** Node.Each: the calls made to visit, in order. */
    method Each(visit: (Bytes, nat, V) -> Option<Error>) returns (err: Option<Error>, calls: seq<Call>)
      requires Valid() && CacheValid()
      modifies kv.db, txn
      ensures Valid()
      ensures (Snapshot(), err, calls) == EachOutcome(old(Snapshot()), path, kv.unmarshal, visit)
    {
      var out;
      err, out := TxView(EachBody(visit));
      calls := if out.Calls? then out.calls else [];
    }

    method EachKey(visit: (Bytes, nat) -> Option<Error>) returns (err: Option<Error>, calls: seq<Call>)
      requires Valid() && CacheValid()
      modifies kv.db, txn
      ensures Valid()
      ensures (Snapshot(), err, calls) == EachKeyOutcome(old(Snapshot()), path, kv.unmarshal, visit)
    {
      var out;
      err, out := TxView(EachKeyBody(visit));
      calls := if out.Calls? then out.calls else [];
    }
  }
}
