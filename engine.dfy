/**
 * The transactional surface of the key-value engine (bbolt) that the
 * database layer relies on: a database handle that begins transactions, and
 * transactions that work on a private copy of the bucket tree, reach buckets
 * by path, and either commit that copy back or are rolled back.
 */
module Engine {
  import opened Bytes
  import opened Errors
  import opened Store

  /** The result of a bucket operation applied to the bucket at path `at`. */
  function Apply(root: Bucket, at: Path, r: Result<Bucket>): (Bucket, Option<Error>)
  {
    match r
    case Err(e) => (root, Some(e))
    case Ok(nb) => (SetBucketAt(root, at, nb), None)
  }

  /** Bucket.Put on the bucket at `at`; a read-only transaction refuses it. */
  function PutIn(root: Bucket, writable: bool, at: Path, k: Bytes, v: Bytes): (Bucket, Option<Error>)
    requires BucketAt(root, at).Some?
  {
    if !writable then (root, Some(TxNotWritable))
    else Apply(root, at, Store.Put(BucketAt(root, at).value, k, v))
  }

  /** Bucket.Delete (or Cursor.Delete) on the bucket at `at`. */
  function DeleteIn(root: Bucket, writable: bool, at: Path, k: Bytes): (Bucket, Option<Error>)
    requires BucketAt(root, at).Some?
  {
    if !writable then (root, Some(TxNotWritable))
    else Apply(root, at, Store.Delete(BucketAt(root, at).value, k))
  }

  /** Bucket.DeleteBucket on the bucket at `at`. */
  function DeleteBucketIn(root: Bucket, writable: bool, at: Path, k: Bytes): (Bucket, Option<Error>)
    requires BucketAt(root, at).Some?
  {
    if !writable then (root, Some(TxNotWritable))
    else Apply(root, at, Store.DeleteBucket(BucketAt(root, at).value, k))
  }

  /**
   * Removal of the bucket a path names, with everything below it: the parent
   * deletes it by name. The empty path names the root, whose buckets all go.
   */
  function DropPath(root: Bucket, writable: bool, p: Path): (r: (Bucket, Option<Error>))
    ensures r.1 == None && p != [] ==> BucketAt(r.0, p).None?
    ensures r.1 == None && p == [] ==> r.0 == []
    ensures r.1 != None ==> r.0 == root
  {
    if !writable then (root, Some(TxNotWritable))
    else if p == [] then ([], None)
    else
      var parent := p[..|p| - 1];
      var name := p[|p| - 1];
      match BucketAt(root, parent)
      case None => (root, Some(BucketNotFound))
      case Some(b) =>
        match Store.DeleteBucket(b, name)
        case Err(e) => (root, Some(e))
        case Ok(nb) =>
          BucketAtSet(root, parent, nb);
          BucketAtLast(SetBucketAt(root, parent, nb), p);
          (SetBucketAt(root, parent, nb), None)
  }

  /** A path's bucket is its parent's child of the last name. */
  lemma {:induction false} BucketAtLast(root: Bucket, p: Path)
    requires p != []
    ensures BucketAt(root, p) ==
      match BucketAt(root, p[..|p| - 1])
      case None => None
      case Some(b) => Child(b, p[|p| - 1])
    decreases |p|
  {
    if |p| > 1 {
      match Child(root, p[0])
      case None =>
      case Some(es) =>
        assert p[1..][..|p[1..]| - 1] == p[..|p| - 1][1..];
        BucketAtLast(es, p[1..]);
    }
  }

  lemma ApplyWF(root: Bucket, at: Path, r: Result<Bucket>)
    requires WF(root) && (r.Ok? ==> WF(r.value))
    ensures WF(Apply(root, at, r).0)
  {
    if r.Ok? {
      SetBucketAtWF(root, at, r.value);
    }
  }

  lemma PutInWF(root: Bucket, writable: bool, at: Path, k: Bytes, v: Bytes)
    requires WF(root) && BucketAt(root, at).Some?
    ensures WF(PutIn(root, writable, at, k, v).0)
  {
    var b := BucketAt(root, at).value;
    BucketAtWF(root, at);
    if k != [] {
      InsertWF(b, k, Leaf(v));
    }
    ApplyWF(root, at, Store.Put(b, k, v));
  }

  lemma DeleteInWF(root: Bucket, writable: bool, at: Path, k: Bytes)
    requires WF(root) && BucketAt(root, at).Some?
    ensures WF(DeleteIn(root, writable, at, k).0)
    ensures WF(DeleteBucketIn(root, writable, at, k).0)
  {
    var b := BucketAt(root, at).value;
    BucketAtWF(root, at);
    WithoutWF(b, {k});
    ApplyWF(root, at, Store.Delete(b, k));
    ApplyWF(root, at, Store.DeleteBucket(b, k));
  }

  lemma DropPathWF(root: Bucket, writable: bool, p: Path)
    requires WF(root)
    ensures WF(DropPath(root, writable, p).0)
  {
    if writable && p != [] {
      var parent := p[..|p| - 1];
      if BucketAt(root, parent).Some? {
        var b := BucketAt(root, parent).value;
        BucketAtWF(root, parent);
        WithoutWF(b, {p[|p| - 1]});
        ApplyWF(root, parent, Store.DeleteBucket(b, p[|p| - 1]));
      }
    }
  }

  /** A database handle: the committed tree, and whether it can still be used. */
  class DB {
    var root: Bucket
    var open: bool
    /** Stands for a failing write of a commit to the underlying file. */
    var ioError: bool

    ghost predicate Valid()
      reads this
    {
      WF(root)
    }

    constructor (root: Bucket, open: bool, ioError: bool)
      requires WF(root)
      ensures Valid()
      ensures this.root == root && this.open == open && this.ioError == ioError
    {
      this.root := root;
      this.open := open;
      this.ioError := ioError;
    }

    /** DB.Begin: a transaction over a private copy of the committed tree. */
    method Begin(writable: bool) returns (t: Tx?, err: Option<Error>)
      requires Valid()
      ensures err.None? <==> open
      ensures err.Some? ==> t == null && err == Some(DatabaseNotOpen)
      ensures err.None? ==> t != null && fresh(t) && t.db == this && t.writable == writable
      ensures err.None? ==> t.root == root && !t.closed && t.Valid()
    {
      if !open {
        return null, Some(DatabaseNotOpen);
      }
      t := new Tx(this, writable, root);
      err := None;
    }
  }

  /** A transaction: a working copy of the tree, published only by Commit. */
  class Tx {
    const db: DB
    const writable: bool
    var root: Bucket
    var closed: bool

    ghost predicate Valid()
      reads this
    {
      !closed && WF(root)
    }

    constructor (db: DB, writable: bool, root: Bucket)
      requires WF(root)
      ensures Valid()
      ensures this.db == db && this.writable == writable && this.root == root
    {
      this.db := db;
      this.writable := writable;
      this.root := root;
      this.closed := false;
    }

    /**
     * Tx.Commit: only a live writable transaction publishes its tree; a
     * failing write rolls the transaction back and publishes nothing.
     */
    method Commit() returns (err: Option<Error>)
      modifies this, db
      ensures root == old(root) && db.open == old(db.open) && db.ioError == old(db.ioError)
      ensures old(closed) ==> err == Some(TxClosed) && closed && db.root == old(db.root)
      ensures !old(closed) && !writable ==>
        err == Some(TxNotWritable) && !closed && db.root == old(db.root)
      ensures !old(closed) && writable && db.ioError ==>
        err == Some(WriteFailed) && closed && db.root == old(db.root)
      ensures !old(closed) && writable && !db.ioError ==> err == None && closed && db.root == root
    {
      if closed {
        return Some(TxClosed);
      }
      if !writable {
        return Some(TxNotWritable);
      }
      if db.ioError {
        closed := true;
        return Some(WriteFailed);
      }
      db.root := root;
      closed := true;
      err := None;
    }

    /** Tx.Rollback: discards the working copy; a second call reports a closed transaction. */
    method Rollback() returns (err: Option<Error>)
      modifies this
      ensures closed && root == old(root)
      ensures err == if old(closed) then Some(TxClosed) else None
    {
      err := if closed then Some(TxClosed) else None;
      closed := true;
    }

    /** NodePath.BucketExists: a lookup that never creates anything. */
    function BucketExists(p: Path): bool
      reads this
    {
      BucketAt(root, p).Some?
    }

    /** The entries of the bucket at `at`, in the order a cursor visits them. */
    function Entries(at: Path): Bucket
      reads this
      requires BucketAt(root, at).Some?
    {
      BucketAt(root, at).value
    }

    /** Bucket.Get on the bucket at `at`. */
    function Get(at: Path, k: Bytes): Option<Bytes>
      reads this
      requires BucketAt(root, at).Some?
    {
      Store.Get(Entries(at), k)
    }

    /** NodePath.Bucket: resolves a path, creating it in a writable transaction. */
    method Bucket(p: Path) returns (err: Option<Error>)
      requires Valid()
      modifies this
      ensures Valid()
      ensures (root, err) == Resolve(old(root), p, writable)
    {
      CreatePathWF(root, p);
      var r := Resolve(root, p, writable);
      root, err := r.0, r.1;
    }

    method Put(at: Path, k: Bytes, v: Bytes) returns (err: Option<Error>)
      requires Valid() && BucketAt(root, at).Some?
      modifies this
      ensures Valid()
      ensures (root, err) == PutIn(old(root), writable, at, k, v)
    {
      PutInWF(root, writable, at, k, v);
      var r := PutIn(root, writable, at, k, v);
      root, err := r.0, r.1;
    }

    method Delete(at: Path, k: Bytes) returns (err: Option<Error>)
      requires Valid() && BucketAt(root, at).Some?
      modifies this
      ensures Valid()
      ensures (root, err) == DeleteIn(old(root), writable, at, k)
    {
      DeleteInWF(root, writable, at, k);
      var r := DeleteIn(root, writable, at, k);
      root, err := r.0, r.1;
    }

    method DeleteBucket(at: Path, k: Bytes) returns (err: Option<Error>)
      requires Valid() && BucketAt(root, at).Some?
      modifies this
      ensures Valid()
      ensures (root, err) == DeleteBucketIn(old(root), writable, at, k)
    {
      DeleteInWF(root, writable, at, k);
      var r := DeleteBucketIn(root, writable, at, k);
      root, err := r.0, r.1;
    }

    /** dropBucketPrefix: removes the bucket a path names, with its contents. */
    method DropPrefix(p: Path) returns (err: Option<Error>)
      requires Valid()
      modifies this
      ensures Valid()
      ensures (root, err) == DropPath(old(root), writable, p)
    {
      DropPathWF(root, writable, p);
      var r := DropPath(root, writable, p);
      root, err := r.0, r.1;
    }

    /** Replaces the working copy with the tree a caller's callback produced. */
    method Replace(r: Bucket)
      requires Valid() && WF(r)
      modifies this
      ensures Valid() && root == r
    {
      root := r;
    }
  }
}
