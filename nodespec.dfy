/**
 * What the database node's operations do, as functions of the state they
 * start from: the committed tree, whether the database can begin
 * transactions, whether committing fails, and the transaction (if any) the
 * node already holds. The closures the node hands to its transaction wrapper
 * are named by a `Callback` value; a caller's own closure is a function from
 * the tree to a new tree and an error.
 */
module NodeSpec {
  import opened Bytes
  import opened Errors
  import opened Store
  import opened Engine
  import opened Keys

  const BeginFailed := "failed to begin RO transaction"
  const FetchFailed := "failed to fetch bucket for existing path"
  const CommitFailed := "failed to commit to database"
  const MarshalFailed := "failed to marshal"
  /** SetIfNone spells its marshal failure with a capital letter. */
  const MarshalFailedIfNone := "Failed to marshal"
  const UnmarshalFailed := "failed to unmarshal"

  /** One call of an iteration callback: the key, the count passed, what it returned. */
  datatype Call = Call(key: Bytes, length: nat, result: Option<Error>)

  datatype Callback<!V> =
    | SetBody(key: Bytes, bytes: Bytes)
    | SetIfNoneBody(key: Bytes, bytes: Bytes)
    | GetBody(key: Bytes)
    | ExistsBody(key: Bytes)
    | DeleteBody(key: Bytes)
    | DropBody
    | DropExceptLastBody(last: int)
    | LengthBody
    | EachBody(visit: (Bytes, nat, V) -> Option<Error>)
    | EachKeyBody(visitKey: (Bytes, nat) -> Option<Error>)
    | UserBody(run: Bucket -> (Bucket, Option<Error>))
  {
    /** The closures that only the writable wrapper runs. */
    predicate Writes()
    {
      SetBody? || SetIfNoneBody? || DeleteBody? || DropBody? || DropExceptLastBody?
    }
  }

  /** A caller's closure keeps the tree well formed. */
  ghost predicate Callable<V>(f: Callback<V>)
  {
    f.UserBody? ==> forall t :: WF(t) ==> WF(f.run(t).0)
  }

  /** What a closure hands back besides its error. */
  datatype Outcome<V> =
    | NoOutput
    | Value(value: V)
    | Presence(present: bool)
    | Count(count: nat)
    | Calls(calls: seq<Call>)

  /** A closure's run inside a transaction: the transaction's new tree, the error, the output. */
  datatype Effect<V> = Effect(root: Bucket, err: Option<Error>, out: Outcome<V>)

  // ---------------------------------------------------------------------
  // Bucket resolution.
  // ---------------------------------------------------------------------

  lemma ResolveFinds(root: Bucket, p: Path, writable: bool)
    ensures Resolve(root, p, writable).1 == None ==> BucketAt(Resolve(root, p, writable).0, p).Some?
  {
    if writable && CreatePath(root, p).1 == None {
      CreatePathFinds(root, p);
    }
  }

  /** Resolving a path whose bucket exists changes nothing and succeeds. */
  lemma ResolveExisting(root: Bucket, p: Path, writable: bool)
    requires WF(root) && BucketAt(root, p).Some?
    ensures Resolve(root, p, writable) == (root, None)
  {
    if writable {
      CreatePathExisting(root, p);
    }
  }

  lemma ResolveWF(root: Bucket, p: Path, writable: bool)
    requires WF(root)
    ensures WF(Resolve(root, p, writable).0)
  {
    CreatePathWF(root, p);
  }

  /** Node.bucket on a node with no cached bucket: a missing bucket is reported as a missing key. */
  function BucketOf(root: Bucket, p: Path, writable: bool): (r: (Bucket, Option<Error>))
    ensures r.1 == None ==> BucketAt(r.0, p).Some?
    ensures r.1 != None ==> !writable ==> r == (root, Some(KeyNotFound))
  {
    ResolveFinds(root, p, writable);
    var (r0, e) := Resolve(root, p, writable);
    (r0, if e.Some? && Is(e.value, BucketNotFound) then Some(KeyNotFound) else e)
  }

  /** Errors.Is against a missing key: resolution errors are never wrapped. */
  predicate Missing(e: Option<Error>)
  {
    e.Some? && Is(e.value, KeyNotFound)
  }

  // ---------------------------------------------------------------------
  // The closures, one by one.
  // ---------------------------------------------------------------------

  function SetEffect<V>(root: Bucket, p: Path, k: Bytes, bytes: Bytes): Effect<V>
  {
    var (r1, e) := BucketOf(root, p, true);
    if e.Some? then Effect(r1, e, NoOutput)
    else
      var (r2, e2) := PutIn(r1, true, p, k, bytes);
      Effect(r2, e2, NoOutput)
  }

  function SetIfNoneEffect<V>(root: Bucket, p: Path, k: Bytes, bytes: Bytes): Effect<V>
  {
    var (r1, e) := BucketOf(root, p, true);
    if e.Some? then Effect(r1, e, NoOutput)
    else if Store.Get(BucketAt(r1, p).value, k).Some? then Effect(r1, None, NoOutput)
    else
      var (r2, e2) := PutIn(r1, true, p, k, bytes);
      Effect(r2, e2, NoOutput)
  }

  /** The stored bytes of a key, decoded. */
  function Decode<V>(found: Option<Bytes>, unmarshal: Bytes -> Result<V>): (Option<Error>, Outcome<V>)
  {
    match found
    case None => (Some(KeyNotFound), NoOutput)
    case Some(bytes) =>
      match unmarshal(bytes)
      case Err(ue) => (Some(Wrapped(UnmarshalFailed, ue)), NoOutput)
      case Ok(v) => (None, Value(v))
  }

  function GetEffect<V>(root: Bucket, p: Path, writable: bool, k: Bytes, unmarshal: Bytes -> Result<V>): Effect<V>
  {
    var (r1, e) := BucketOf(root, p, writable);
    if e.Some? then Effect(r1, e, NoOutput)
    else
      var (err, out) := Decode(Store.Get(BucketAt(r1, p).value, k), unmarshal);
      Effect(r1, err, out)
  }

  /** Exists' closure: looks the bucket up first, and then the key exactly as given. */
  function ExistsEffect<V>(root: Bucket, p: Path, k: Bytes): Effect<V>
  {
    match BucketAt(root, p)
    case None => Effect(root, None, Presence(false))
    case Some(b) => Effect(root, None, Presence(k == [] || Store.Get(b, k).Some?))
  }

  function DeleteEffect<V>(root: Bucket, p: Path, k: Bytes): Effect<V>
  {
    var (r1, e) := BucketOf(root, p, true);
    if e.Some? then Effect(r1, if Missing(e) then None else e, NoOutput)
    else
      var (r2, e2) := DeleteIn(r1, true, p, k);
      Effect(r2, e2, NoOutput)
  }

  function DropEffect<V>(root: Bucket, p: Path): Effect<V>
  {
    var (r, e) := DropPath(root, true, p);
    Effect(r, e, NoOutput)
  }

  /** How many of n entries DropExceptLast keeps. */
  function Keep(last: int, n: nat): (k: nat)
    ensures k <= n
    ensures last <= 0 ==> k == 0
    ensures 0 <= last <= n ==> k == last
    ensures last >= n ==> k == n
  {
    if last <= 0 then 0 else if last >= n then n else last
  }

  function DropExceptLastEffect<V>(root: Bucket, p: Path, last: int): Effect<V>
  {
    var (r1, e) := BucketOf(root, p, true);
    if e.Some? then Effect(r1, e, NoOutput)
    else
      var b := BucketAt(r1, p).value;
      Effect(SetBucketAt(r1, p, b[|b| - Keep(last, |b|)..]), None, NoOutput)
  }

  function LengthEffect<V>(root: Bucket, p: Path, writable: bool): Effect<V>
  {
    var (r1, e) := BucketOf(root, p, writable);
    if e.Some? then Effect(r1, if Missing(e) then None else e, Count(0))
    else Effect(r1, None, Count(|BucketAt(r1, p).value|))
  }

  /** The keys of the leaf entries, in order. */
  function LeafKeys(es: Bucket): (ks: seq<Bytes>)
    ensures |ks| <= |es|
  {
    if es == [] then []
    else if es[0].item.Leaf? then [es[0].key] + LeafKeys(es[1..])
    else LeafKeys(es[1..])
  }

  lemma {:induction false} LeafKeysSnoc(es: Bucket, e: Entry)
    ensures LeafKeys(es + [e]) == LeafKeys(es) + (if e.item.Leaf? then [e.key] else [])
  {
    if es != [] {
      assert (es + [e])[1..] == es[1..] + [e];
      LeafKeysSnoc(es[1..], e);
    }
  }

  /** The calls made so far, followed by the rest of an iteration. */
  function Join(done: seq<Call>, rest: (Option<Error>, seq<Call>)): (Option<Error>, seq<Call>)
  {
    (rest.0, done + rest.1)
  }

  lemma JoinJoin(a: seq<Call>, b: seq<Call>, rest: (Option<Error>, seq<Call>))
    ensures Join(a + b, rest) == Join(a, Join(b, rest))
  {
    assert (a + b) + rest.1 == a + (b + rest.1);
  }

  /** A callback's error ends the loop; EachBreak ends it without an error. */
  function Stop(r: Option<Error>): (e: Option<Error>)
    ensures e == None <==> r == None || r == Some(EachBreak)
    ensures e != None ==> e == r
  {
    if r == Some(EachBreak) then None else r
  }

  /** Each's second pass over the entries: leaves only, decoded, each given the count n. */
  function EachCalls<V>(es: Bucket, n: nat, visit: (Bytes, nat, V) -> Option<Error>,
                        unmarshal: Bytes -> Result<V>): (Option<Error>, seq<Call>)
    decreases |es|
  {
    if es == [] then (None, [])
    else match es[0].item
      case Nested(_) => EachCalls(es[1..], n, visit, unmarshal)
      case Leaf(bytes) =>
        match unmarshal(bytes)
        case Err(ue) => (Some(Wrapped(UnmarshalFailed, ue)), [])
        case Ok(v) =>
          var res := visit(es[0].key, n, v);
          if res == None then Join([Call(es[0].key, n, None)], EachCalls(es[1..], n, visit, unmarshal))
          else (Stop(res), [Call(es[0].key, n, res)])
  }

  /**
   * Each visits leaves in cursor order, each with the same count; it goes on
   * while visit returns nil, and ends on the first error, on EachBreak (no
   * error), on a value that does not decode, or after the last leaf.
   */
  lemma {:induction false} EachCallsShape<V>(es: Bucket, n: nat, visit: (Bytes, nat, V) -> Option<Error>,
                                             unmarshal: Bytes -> Result<V>)
    ensures var (err, calls) := EachCalls(es, n, visit, unmarshal);
      && |calls| <= |LeafKeys(es)|
      && (forall i :: 0 <= i < |calls| ==> calls[i].key == LeafKeys(es)[i] && calls[i].length == n)
      && (forall i :: 0 <= i < |calls| - 1 ==> calls[i].result == None)
      && (calls != [] && calls[|calls| - 1].result != None ==> err == Stop(calls[|calls| - 1].result))
      && ((calls == [] || calls[|calls| - 1].result == None) ==>
            (err == None ==> |calls| == |LeafKeys(es)|) &&
            (err != None ==> err.value.Wrapped? && err.value.context == UnmarshalFailed))
    decreases |es|
  {
    if es != [] {
      EachCallsShape(es[1..], n, visit, unmarshal);
    }
  }

  /** EachKey's second pass: every entry, each given the count n. */
  function EachKeyCalls(es: Bucket, n: nat, visit: (Bytes, nat) -> Option<Error>): (Option<Error>, seq<Call>)
    decreases |es|
  {
    if es == [] then (None, [])
    else
      var res := visit(es[0].key, n);
      if res == None then Join([Call(es[0].key, n, None)], EachKeyCalls(es[1..], n, visit))
      else (Stop(res), [Call(es[0].key, n, res)])
  }

  /** EachKey visits every key in cursor order with the entry count, stopping as Each does. */
  lemma {:induction false} EachKeyCallsShape(es: Bucket, n: nat, visit: (Bytes, nat) -> Option<Error>)
    ensures var (err, calls) := EachKeyCalls(es, n, visit);
      && |calls| <= |es|
      && (forall i :: 0 <= i < |calls| ==> calls[i].key == es[i].key && calls[i].length == n)
      && (forall i :: 0 <= i < |calls| - 1 ==> calls[i].result == None)
      && (calls != [] && calls[|calls| - 1].result != None ==> err == Stop(calls[|calls| - 1].result))
      && ((calls == [] || calls[|calls| - 1].result == None) ==> err == None && |calls| == |es|)
    decreases |es|
  {
    if es != [] {
      EachKeyCallsShape(es[1..], n, visit);
    }
  }

  function EachEffect<V>(root: Bucket, p: Path, writable: bool, visit: (Bytes, nat, V) -> Option<Error>,
                         unmarshal: Bytes -> Result<V>): Effect<V>
  {
    var (r1, e) := BucketOf(root, p, writable);
    if e.Some? then Effect(r1, if Missing(e) then None else e, Calls([]))
    else
      var b := BucketAt(r1, p).value;
      var (err, calls) := EachCalls(b, |LeafKeys(b)|, visit, unmarshal);
      Effect(r1, err, Calls(calls))
  }

  function EachKeyEffect<V>(root: Bucket, p: Path, writable: bool, visit: (Bytes, nat) -> Option<Error>): Effect<V>
  {
    var (r1, e) := BucketOf(root, p, writable);
    if e.Some? then Effect(r1, if Missing(e) then None else e, Calls([]))
    else
      var b := BucketAt(r1, p).value;
      var (err, calls) := EachKeyCalls(b, |b|, visit);
      Effect(r1, err, Calls(calls))
  }

  /** A caller's closure; a read-only transaction keeps none of its changes. */
  function UserEffect<V>(root: Bucket, writable: bool, run: Bucket -> (Bucket, Option<Error>)): Effect<V>
  {
    var (r, e) := run(root);
    Effect(if writable then r else root, e, NoOutput)
  }

  /** The closure f run in a live transaction over `root`, for the node at path p. */
  function Body<V>(f: Callback<V>, root: Bucket, p: Path, writable: bool, unmarshal: Bytes -> Result<V>): Effect<V>
  {
    match f
    case SetBody(k, bytes) => SetEffect(root, p, k, bytes)
    case SetIfNoneBody(k, bytes) => SetIfNoneEffect(root, p, k, bytes)
    case GetBody(k) => GetEffect(root, p, writable, k, unmarshal)
    case ExistsBody(k) => ExistsEffect(root, p, k)
    case DeleteBody(k) => DeleteEffect(root, p, k)
    case DropBody => DropEffect(root, p)
    case DropExceptLastBody(last) => DropExceptLastEffect(root, p, last)
    case LengthBody => LengthEffect(root, p, writable)
    case EachBody(visit) => EachEffect(root, p, writable, visit, unmarshal)
    case EachKeyBody(visit) => EachKeyEffect(root, p, writable, visit)
    case UserBody(run) => UserEffect(root, writable, run)
  }

  // ---------------------------------------------------------------------
  // The transaction wrapper.
  // ---------------------------------------------------------------------

  /**
   * doTx with a transaction of its own: begin, pre-resolve the path of a
   * writable node, run f, commit only a writable transaction whose f
   * succeeded. The returned root is the committed tree afterwards.
   */
  function Fresh<V>(f: Callback<V>, db: Bucket, open: bool, ioError: bool, p: Path, writable: bool,
                    unmarshal: Bytes -> Result<V>): (r: Effect<V>)
    ensures r.err != None ==> r.root == db
    ensures !writable ==> r.root == db
  {
    if !open then Effect(db, Some(Wrapped(BeginFailed, DatabaseNotOpen)), NoOutput)
    else
      var (r1, e1) := if |p| > 0 && writable then BucketOf(db, p, true) else (db, None);
      if e1.Some? then Effect(db, Some(Wrapped(FetchFailed, e1.value)), NoOutput)
      else
        var eff := Body(f, r1, p, writable, unmarshal);
        if eff.err.Some? then Effect(db, eff.err, eff.out)
        else if !writable then Effect(db, None, eff.out)
        else if ioError then Effect(db, Some(Wrapped(CommitFailed, WriteFailed)), eff.out)
        else Effect(eff.root, None, eff.out)
  }

  /** A transaction a node holds: whether it is writable, and its working tree. */
  datatype TxState = TxState(writable: bool, root: Bucket)

  /** Everything a node's operation reads or changes. */
  datatype State = State(db: Bucket, open: bool, ioError: bool, tx: Option<TxState>)

  ghost predicate StateWF(s: State)
  {
    WF(s.db) && (s.tx.Some? ==> WF(s.tx.value.root))
  }

  /** The tree an operation sees: the held transaction's, or the committed one. */
  function Tree(s: State): Bucket
  {
    if s.tx.Some? then s.tx.value.root else s.db
  }

  /** A transaction is at hand or can be begun. */
  predicate Live(s: State)
  {
    s.tx.Some? || s.open
  }

  function DoTxOutcome<V>(f: Callback<V>, s: State, p: Path, writable: bool,
                          unmarshal: Bytes -> Result<V>): (State, Option<Error>, Outcome<V>)
  {
    match s.tx
    case Some(t) =>
      var eff := Body(f, t.root, p, t.writable, unmarshal);
      (s.(tx := Some(t.(root := eff.root))), eff.err, eff.out)
    case None =>
      var eff := Fresh(f, s.db, s.open, s.ioError, p, writable, unmarshal);
      (s.(db := eff.root), eff.err, eff.out)
  }

  /** TxUpdate: a held read-only transaction is refused before f runs. */
  function TxUpdateOutcome<V>(f: Callback<V>, s: State, p: Path,
                              unmarshal: Bytes -> Result<V>): (r: (State, Option<Error>, Outcome<V>))
    ensures s.tx.Some? && !s.tx.value.writable ==> r == (s, Some(TxNotWritable), NoOutput)
    ensures s.tx.Some? ==> r.0.db == s.db
  {
    if s.tx.Some? && !s.tx.value.writable then (s, Some(TxNotWritable), NoOutput)
    else DoTxOutcome(f, s, p, true, unmarshal)
  }

  /** TxView: never commits anything. */
  function TxViewOutcome<V>(f: Callback<V>, s: State, p: Path,
                            unmarshal: Bytes -> Result<V>): (r: (State, Option<Error>, Outcome<V>))
    ensures r.0.db == s.db
  {
    DoTxOutcome(f, s, p, false, unmarshal)
  }

  // ---------------------------------------------------------------------
  // The public operations.
  // ---------------------------------------------------------------------

  function SetOutcome<V>(s: State, p: Path, marshal: V -> Result<Bytes>, unmarshal: Bytes -> Result<V>,
                         k: Bytes, v: V): (r: (State, Option<Error>))
    ensures marshal(v).Err? ==> r == (s, Some(Wrapped(MarshalFailed, marshal(v).error)))
  {
    match marshal(v)
    case Err(e) => (s, Some(Wrapped(MarshalFailed, e)))
    case Ok(bytes) =>
      var (s', e, _) := TxUpdateOutcome(SetBody(MustKey(k), bytes), s, p, unmarshal);
      (s', e)
  }

  function SetIfNoneOutcome<V>(s: State, p: Path, marshal: V -> Result<Bytes>, unmarshal: Bytes -> Result<V>,
                               k: Bytes, v: V): (r: (State, Option<Error>))
    ensures marshal(v).Err? ==> r == (s, Some(Wrapped(MarshalFailedIfNone, marshal(v).error)))
  {
    match marshal(v)
    case Err(e) => (s, Some(Wrapped(MarshalFailedIfNone, e)))
    case Ok(bytes) =>
      var (s', e, _) := TxUpdateOutcome(SetIfNoneBody(MustKey(k), bytes), s, p, unmarshal);
      (s', e)
  }

  function GetOutcome<V>(s: State, p: Path, unmarshal: Bytes -> Result<V>, k: Bytes): (State, Option<Error>, Outcome<V>)
  {
    TxViewOutcome(GetBody(MustKey(k)), s, p, unmarshal)
  }

  /** Exists: any error reads as absence. */
  function ExistsOutcome<V>(s: State, p: Path, unmarshal: Bytes -> Result<V>, k: Bytes): (State, bool)
  {
    var (s', e, out) := TxViewOutcome(ExistsBody(k), s, p, unmarshal);
    (s', e == None && out.Presence? && out.present)
  }

  function DeleteOutcome<V>(s: State, p: Path, unmarshal: Bytes -> Result<V>, k: Bytes): (State, Option<Error>)
  {
    var (s', e, _) := TxUpdateOutcome(DeleteBody(MustKey(k)), s, p, unmarshal);
    (s', e)
  }

  function DropOutcome<V>(s: State, p: Path, unmarshal: Bytes -> Result<V>): (State, Option<Error>)
  {
    var (s', e, _) := TxUpdateOutcome(DropBody, s, p, unmarshal);
    (s', e)
  }

  function DropExceptLastOutcome<V>(s: State, p: Path, unmarshal: Bytes -> Result<V>, last: int): (State, Option<Error>)
  {
    var (s', e, _) := TxUpdateOutcome(DropExceptLastBody(last), s, p, unmarshal);
    (s', e)
  }

  /** Length: the count is whatever the closure reached, even on an error. */
  function LengthOutcome<V>(s: State, p: Path, unmarshal: Bytes -> Result<V>): (State, nat, Option<Error>)
  {
    var (s', e, out) := TxViewOutcome(LengthBody, s, p, unmarshal);
    (s', if out.Count? then out.count else 0, e)
  }

  function EachOutcome<V>(s: State, p: Path, unmarshal: Bytes -> Result<V>,
                          visit: (Bytes, nat, V) -> Option<Error>): (State, Option<Error>, seq<Call>)
  {
    var (s', e, out) := TxViewOutcome(EachBody(visit), s, p, unmarshal);
    (s', e, if out.Calls? then out.calls else [])
  }

  function EachKeyOutcome<V>(s: State, p: Path, unmarshal: Bytes -> Result<V>,
                             visit: (Bytes, nat) -> Option<Error>): (State, Option<Error>, seq<Call>)
  {
    var (s', e, out) := TxViewOutcome(EachKeyBody(visit), s, p, unmarshal);
    (s', e, if out.Calls? then out.calls else [])
  }
}
