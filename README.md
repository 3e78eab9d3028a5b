# gotktrix database node and sort helpers, modelled in Dafny

This project models four parts of gotktrix, a Matrix chat client written in Go:

- **The database node** (`internal/gotktrix/internal/db/node.go`). A `Node` is a handle on one path of nested buckets in a bbolt key-value database. It stores values under sanitised keys, reads and decodes them, and deletes them. It can drop a whole bucket or all of it but the last few entries, count entries, and iterate over leaves or keys. Every operation runs inside a transaction. That is either the one the node already holds, or a fresh one that the node begins, commits (when writable and successful) and rolls back.
- **Case-insensitive string comparison** (`internal/sortutil/sortutil.go`): `popRune`, `compareRuneFold`, `StrcmpFold` and `StrlessFold`.
- **Section ordering** of the room list (`lessTag` and `SortSections` in `internal/app/roomlist/section/section.go`).
- **Preview trimming** (`trimString` in `internal/app/roomlist/room/room.go`).

Layout, module by module:

| file | module | contents |
|---|---|---|
| `bytes.dfy` | `Bytes` | bytes, byte strings, and the lexicographic order bbolt keeps keys in |
| `errors.dfy` | `Errors` | `Option`, `Result`, the error values, and `errors.Is` |
| `store.dfy` | `Store` | bbolt's buckets as sorted lists of entries (leaf or nested bucket); `Put`, `Delete`, `DeleteBucket`; paths of bucket names; path creation and lookup |
| `engine.dfy` | `Engine` | classes `DB` and `Tx`: begin, commit, rollback, and bucket operations on the transaction's working tree; the subtree removal used by `Drop` |
| `keys.dfy` | `Keys` | `mustKey` |
| `nodespec.dfy` | `NodeSpec` | what each node operation does, as a function of the state it starts from (committed tree, whether the database is open, whether writes fail, the held transaction) |
| `evict.dfy` | `Evict` | bookkeeping for `DropExceptLast`'s backward cursor walk |
| `node.dfy` | `Db` | classes `KV` and `Node`: the operations as methods with loops, each proved equal to its `NodeSpec` function |
| `nodeprops.dfy` | `NodeProps` | properties that relate operations: what `Get` sees after `Set`, what `SetIfNone` keeps, idempotence of `Delete`, what `Exists` reports, what `DropExceptLast` keeps, iteration order |
| `sortutil.dfy` | `SortUtil` | `popRune`, `compareRuneFold`, `StrcmpFold`, `StrlessFold` |
| `section.dfy` | `Section` | `lessTag` and `SortSections` |
| `room.dfy` | `Room` | `trimString` |

How the Go constructs are modelled:

- A Go value receiver works on a copy of the node. This is the constructor `Node.Copy`.
- The closures that `Set`, `Get` and the other operations pass to `TxUpdate` and `TxView` are named by the `Callback` datatype. Each one is run by a method `RunSet`, `RunGet`, and so on.
- A closure supplied by a caller is a function from the tree to a new tree and an error (`UserBody`).
- The value codec is the pair of functions `marshal`/`unmarshal` held by `KV`.
- `Get` returns the decoded value instead of writing it through a pointer.
- `Each` and `EachKey` return the calls they made to the callback: the key, the count passed, and the callback's result.

Where the code differs from its own documentation, the model follows the code:

- **Exists uses the raw key.** `Exists` looks up the key as given. `Set`, `Get` and `Delete` look up `mustKey(k)`. The comment on `Exists` (node.go:210) says it "returns true if the given key exists", yet a key of two or more null bytes that `Set` has stored reads as absent; see Findings.
- **Length's count is read after the closure.** `Length` returns `length, n.TxView(...)`. The model takes the count after the closure has run. That is gc's evaluation order for this statement; the language leaves it unspecified.

## Model

| member | source | states |
|---|---|---|
| Keys.MustKey | internal/gotktrix/internal/db/node.go:13-32 | the on-disk key is never empty; it equals the two-null sentinel exactly when the key is empty; otherwise it starts with the key and is at most one byte longer |
| Keys.MustKeyCases | internal/gotktrix/internal/db/node.go:15-32 | the three cases: empty becomes the sentinel, two or more nulls and nothing else gain one null, anything else is kept |
| Keys.MustKeyInjective | internal/gotktrix/internal/db/node.go:13-32 | distinct keys never share an on-disk key, so the sentinel cannot collide with a stored key |
| Keys.CountNullsAll | internal/gotktrix/internal/db/node.go:20-21 | `strings.Count(key, "\x00") == len(key)` holds exactly when every byte is null |
| Store.Put | internal/gotktrix/internal/db/node.go:187 | bbolt `Put` on success makes the key read back the value and leaves every other key as it was; it fails only on an empty or oversized key or value, or a nested bucket in the way |
| Store.Delete | internal/gotktrix/internal/db/node.go:265 | bbolt `Delete` succeeds unless the key names a nested bucket; afterwards the key is gone and every other key is as it was |
| Store.DeleteBucket | internal/gotktrix/internal/db/node.go:308 | bbolt `DeleteBucket` succeeds exactly on a nested bucket; afterwards it is gone and every other key is as it was |
| Store.CreatePathFinds | internal/gotktrix/internal/db/node.go:103 | resolving a path in a writable transaction yields a bucket at that path, empty if it was missing |
| Store.CreatePathExisting | internal/gotktrix/internal/db/node.go:103 | resolving a path whose bucket exists changes nothing |
| Store.CreatePathWF | internal/gotktrix/internal/db/node.go:103 | path creation keeps every bucket sorted with non-empty keys |
| Store.CreatePathKeeps | internal/gotktrix/internal/db/node.go:130-139 | creating one path never removes another path's bucket, so a node's cached handle survives `FromPath` on a sibling |
| Engine.DropPath | internal/gotktrix/internal/db/node.go:270-274 | a successful drop leaves no bucket at the path (the empty path empties the tree); a failed drop changes nothing |
| Engine.DB.Begin | internal/gotktrix/internal/db/node.go:64-67 | a transaction is begun exactly when the database is open, on a copy of the committed tree |
| Engine.Tx.Commit | internal/gotktrix/internal/db/node.go:84-89 | only a live writable transaction publishes its tree; a failing write publishes nothing and closes it; a read-only one is refused |
| Engine.Tx.Rollback | internal/gotktrix/internal/db/node.go:68 | discards the working copy; a second rollback reports a closed transaction |
| Engine.Tx.Bucket | internal/gotktrix/internal/db/node.go:103 | the working tree and error are those of resolving the path, created only when writable |
| NodeSpec.BucketOf | internal/gotktrix/internal/db/node.go:94-113 | success leaves a bucket at the path; in a read-only transaction every failure is `ErrKeyNotFound` and changes nothing |
| Db.Node.Bucket | internal/gotktrix/internal/db/node.go:94-113 | a cached handle is returned without a lookup; with no transaction the error is `ErrTxClosed`; otherwise the path is resolved, a missing bucket reported as `ErrKeyNotFound`, and the handle cached exactly on success |
| Db.Node.BucketExists | internal/gotktrix/internal/db/node.go:115-126 | true exactly when the bucket exists in the transaction's tree, caching the handle when it does |
| NodeSpec.Fresh | internal/gotktrix/internal/db/node.go:59-92 | with a transaction of its own, any failure and any read-only run leave the committed tree unchanged |
| NodeSpec.TxUpdateOutcome | internal/gotktrix/internal/db/node.go:44-50 | a held read-only transaction is refused with `ErrTxNotWritable` before the closure runs; a held transaction never touches the committed tree |
| NodeSpec.TxViewOutcome | internal/gotktrix/internal/db/node.go:55-57 | a view never changes the committed tree |
| Db.Node.DoTx | internal/gotktrix/internal/db/node.go:59-92 | a held transaction runs the closure in place; otherwise one is begun, a writable node's path resolved first, the transaction committed only when writable and the closure succeeded, and always closed afterwards |
| Db.Node.TxUpdate | internal/gotktrix/internal/db/node.go:44-50 | the node's new state, error and output are those of `TxUpdateOutcome` |
| Db.Node.TxView | internal/gotktrix/internal/db/node.go:55-57 | the node's new state, error and output are those of `TxViewOutcome` |
| Db.Node.FromPath | internal/gotktrix/internal/db/node.go:130-139 | a new node on the given path sharing the transaction, its bucket resolved at once when a transaction is held, the handle cached exactly when that succeeds |
| Db.Node.Node | internal/gotktrix/internal/db/node.go:143-164 | the child's path is the node's path followed by the names, with the same transaction and an eager resolution as in `FromPath` |
| Db.Node.RunSet | internal/gotktrix/internal/db/node.go:200-207 | the closure of `Set`, equal to its specification `SetEffect` |
| Db.Node.RunSetIfNone | internal/gotktrix/internal/db/node.go:177-188 | the closure of `SetIfNone`, equal to `SetIfNoneEffect` |
| Db.Node.RunGet | internal/gotktrix/internal/db/node.go:234-250 | the closure of `Get`, equal to `GetEffect` |
| Db.Node.RunExists | internal/gotktrix/internal/db/node.go:212-225 | the closure of `Exists`, equal to `ExistsEffect` |
| Db.Node.RunDelete | internal/gotktrix/internal/db/node.go:256-266 | the closure of `Delete`, equal to `DeleteEffect` |
| Db.Node.RunDrop | internal/gotktrix/internal/db/node.go:271-273 | the closure of `Drop`, equal to `DropEffect` |
| Db.Node.RunDropExceptLast | internal/gotktrix/internal/db/node.go:280-312 | the backward cursor walk and the bucket deletions leave exactly the last `Keep(last, n)` entries |
| Db.Node.DropWalk | internal/gotktrix/internal/db/node.go:289-305 | the backward walk skips the last entries, deletes every leaf below them, and sets aside the names of the nested buckets below them |
| Db.Node.DropBuckets | internal/gotktrix/internal/db/node.go:307-309 | deleting the set-aside names removes exactly those nested buckets |
| Db.Node.RunLength | internal/gotktrix/internal/db/node.go:321-338 | the closure of `Length`, equal to `LengthEffect` |
| Db.Node.CountEntries | internal/gotktrix/internal/db/node.go:331-335 | the cursor scan counts every entry |
| Db.Node.CountLeaves | internal/gotktrix/internal/db/node.go:379-386 | the first scan of `Each` counts the leaf entries |
| Db.Node.VisitLeaves | internal/gotktrix/internal/db/node.go:388-403 | the second scan of `Each` makes exactly the calls of `EachCalls` and ends with its error |
| Db.Node.RunEach | internal/gotktrix/internal/db/node.go:369-406 | the closure of `Each`, equal to `EachEffect` |
| Db.Node.VisitKeys | internal/gotktrix/internal/db/node.go:428-435 | the second scan of `EachKey` makes exactly the calls of `EachKeyCalls` |
| Db.Node.RunEachKey | internal/gotktrix/internal/db/node.go:411-438 | the closure of `EachKey`, equal to `EachKeyEffect` |
| Db.Node.RunUser | internal/gotktrix/internal/db/node.go:80 | a caller's closure changes the working tree only in a writable transaction |
| Db.Node.RunBody | internal/gotktrix/internal/db/node.go:80 | running a closure in the held transaction matches `Body` |
| Db.Node.Set | internal/gotktrix/internal/db/node.go:192-208 | new state and error are `SetOutcome`'s: a marshal failure is wrapped and changes nothing; otherwise the bytes go under `mustKey(k)` in a writable transaction |
| Db.Node.SetIfNone | internal/gotktrix/internal/db/node.go:169-189 | new state and error are `SetIfNoneOutcome`'s |
| Db.Node.Get | internal/gotktrix/internal/db/node.go:231-251 | new state, error and value are `GetOutcome`'s |
| Db.Node.Exists | internal/gotktrix/internal/db/node.go:211-228 | new state and answer are `ExistsOutcome`'s |
| Db.Node.Delete | internal/gotktrix/internal/db/node.go:253-267 | new state and error are `DeleteOutcome`'s |
| Db.Node.Drop | internal/gotktrix/internal/db/node.go:270-274 | new state and error are `DropOutcome`'s |
| Db.Node.DropExceptLast | internal/gotktrix/internal/db/node.go:279-313 | new state and error are `DropExceptLastOutcome`'s |
| Db.Node.Length | internal/gotktrix/internal/db/node.go:317-339 | new state, count and error are `LengthOutcome`'s |
| Db.Node.Each | internal/gotktrix/internal/db/node.go:368-407 | new state, error and the callback's calls are `EachOutcome`'s |
| Db.Node.EachKey | internal/gotktrix/internal/db/node.go:410-439 | new state, error and the callback's calls are `EachKeyOutcome`'s |
| NodeSpec.SetOutcome | internal/gotktrix/internal/db/node.go:193-196 | a marshal failure returns "failed to marshal" around the codec's error and changes nothing |
| NodeSpec.SetIfNoneOutcome | internal/gotktrix/internal/db/node.go:170-173 | a marshal failure returns "Failed to marshal" around the codec's error and changes nothing |
| NodeSpec.Keep | internal/gotktrix/internal/db/node.go:291-295 | the walk keeps `last` entries, none when `last` is not positive, all when it exceeds the count |
| NodeSpec.Stop | internal/gotktrix/internal/db/node.go:397-402 | a callback's error ends the iteration and is returned, except `EachBreak`, which ends it with no error |
| NodeSpec.EachCallsShape | internal/gotktrix/internal/db/node.go:381-403 | `Each` calls the callback on the leaf keys in cursor order, each time with the leaf count; every call but the last returned nil; a non-nil last result decides the error; otherwise all leaves were visited or a value failed to decode |
| NodeSpec.EachKeyCallsShape | internal/gotktrix/internal/db/node.go:423-435 | `EachKey` calls the callback on every key in cursor order with the entry count, stopping at the first non-nil result |
| Evict.DropLeafIn | internal/gotktrix/internal/db/node.go:302-304 | deleting the leaf under the cursor removes one more key below the kept ones and cannot fail |
| Evict.DropBucketIn | internal/gotktrix/internal/db/node.go:307-309 | deleting a set-aside bucket removes that name and nothing else |
| Evict.AllBelowCut | internal/gotktrix/internal/db/node.go:291-309 | the leaves deleted by the walk and the buckets deleted afterwards are together exactly the keys below the kept entries |
| NodeProps.SetThenGet | internal/gotktrix/internal/db/node.go:192-251 | after a successful `Set(k, v)`, `Get(k)` decodes exactly the bytes `v` was marshalled to and changes nothing |
| NodeProps.GetMissing | internal/gotktrix/internal/db/node.go:231-251 | where `Get` creates nothing, a missing bucket, a missing key or a nested bucket under the key gives `ErrKeyNotFound` and changes nothing |
| NodeProps.SetIfNoneKeepsExisting | internal/gotktrix/internal/db/node.go:183-185 | with the key already present, `SetIfNone` changes nothing |
| NodeProps.SetIfNoneAbsentIsSet | internal/gotktrix/internal/db/node.go:169-208 | with the key absent, `SetIfNone` has the same outcome as `Set` |
| NodeProps.DeleteRemovesOnlyKey | internal/gotktrix/internal/db/node.go:253-267 | a successful `Delete(k)` leaves the bucket without `mustKey(k)` and every other key as it was |
| NodeProps.DeleteTwice | internal/gotktrix/internal/db/node.go:253-267 | `Delete` is idempotent: once it has succeeded, a second one succeeds and changes nothing |
| NodeProps.DeleteMissingBucket | internal/gotktrix/internal/db/node.go:253-267 | `Delete` on a node whose bucket is missing returns nil; the writable resolution leaves an empty bucket at the path |
| NodeProps.ExistsReports | internal/gotktrix/internal/db/node.go:211-228 | `Exists` never fails and changes nothing; it is true exactly when a transaction can be had, the bucket exists, and the key is empty or names a value, looked up as given |
| NodeProps.SetThenExistsMisses | internal/gotktrix/internal/db/node.go:211-228 | after `Set` of the key "\x00\x00", `Exists` of the same key is false, while the corrected `Exists` is true |
| NodeProps.SetThenExistsFixed | internal/gotktrix/internal/db/node.go:211-228 | with the key sanitised as `Set` sanitises it, `Exists` is true for every key a successful `Set` has stored |
| NodeProps.DropExceptLastKeepsGreatest | internal/gotktrix/internal/db/node.go:276-313 | after a successful `DropExceptLast(last)` the bucket holds exactly its last `Keep(last, n)` entries, and every removed key is smaller than every kept key |
| NodeProps.DropRemovesBucket | internal/gotktrix/internal/db/node.go:269-274 | after a successful `Drop` no bucket is left at the node's path |
| NodeProps.LengthCounts | internal/gotktrix/internal/db/node.go:315-339 | `Length` counts every direct entry, leaves and nested buckets alike, and changes nothing |
| NodeProps.IterateMissing | internal/gotktrix/internal/db/node.go:368-439 | on a missing bucket `Each` and `EachKey` make no calls and report no error |
| NodeProps.LeafKeysAscending | internal/gotktrix/internal/db/node.go:388-392 | leaf keys come out in strictly ascending order |
| NodeProps.EachVisitsLeaves | internal/gotktrix/internal/db/node.go:368-407 | `Each` changes nothing and visits leaf keys in strictly ascending order with the leaf count, stopping as `EachCallsShape` says |
| NodeProps.EachKeyVisitsAll | internal/gotktrix/internal/db/node.go:410-439 | `EachKey` changes nothing and visits every key in strictly ascending order with the entry count |
| SortUtil.Pop | internal/sortutil/sortutil.go:8-16 | the first rune and the rest together rebuild the string; the empty string gives `RuneError` and is left as is |
| SortUtil.PopRune | internal/sortutil/sortutil.go:8-16 | the procedure that advances the string returns exactly what `Pop` specifies |
| SortUtil.CompareRuneFold | internal/sortutil/sortutil.go:56-75 | the result is -1, 0 or 1, and 0 exactly for equal runes |
| SortUtil.CompareRuneFoldOrdersPairs | internal/sortutil/sortutil.go:56-75 | the comparison orders runes by their lower-case form and then by code point |
| SortUtil.CompareRuneFoldAntisymmetric | internal/sortutil/sortutil.go:56-75 | swapping the runes negates the result |
| SortUtil.StrcmpFold | internal/sortutil/sortutil.go:25-54 | the loop returns what the rune-by-rune comparison `Strcmp` defines, always -1, 0 or 1 |
| SortUtil.StrlessFold | internal/sortutil/sortutil.go:18-21 | true exactly when `StrcmpFold` gives -1 |
| SortUtil.StrcmpRange | internal/sortutil/sortutil.go:25-54 | the comparison only ever yields -1, 0 or 1 |
| SortUtil.BangOnLeftSortsLast | internal/sortutil/sortutil.go:42-44 | a string whose next rune is '!' sorts after the other |
| SortUtil.BangOnRightSortsLast | internal/sortutil/sortutil.go:46-48 | a '!' met only on the right puts the right string last |
| SortUtil.StrcmpReflexive | internal/sortutil/sortutil.go:25-54 | a string without '!' compares equal to itself |
| SortUtil.StrcmpAntisymmetric | internal/sortutil/sortutil.go:25-54 | between strings without '!' or invalid bytes, swapping the arguments negates the result |
| SortUtil.StrcmpOneRuneLongerTies | internal/sortutil/sortutil.go:30-40 | as written, a string and the same string with one more rune compare equal in both directions |
| SortUtil.StrcmpTieExample | internal/sortutil/sortutil.go:30-40 | "a" against "" and "ab" against "a" both compare 0 |
| SortUtil.StrcmpFixedPrefixFirst | internal/sortutil/sortutil.go:31-38 | with the end-of-string test made before the pop, a proper prefix sorts first and the longer string last |
| Section.SameNamespaceByName | internal/app/roomlist/section/section.go:33-36 | sections of one namespace go by case-insensitive name order |
| Section.UserTagsFirst | internal/app/roomlist/section/section.go:38-44 | a user tag goes before any tag of another, non-user namespace and never after it |
| Section.KnownTagsByOrder | internal/app/roomlist/section/section.go:46-51 | two known Matrix tags go by their fixed section order |
| Section.KnownBeforeUnknown | internal/app/roomlist/section/section.go:53-60 | a known Matrix tag goes before an unknown one and never after it |
| Section.UnknownTagsByNamespace | internal/app/roomlist/section/section.go:62-63 | two unknown tags go by the byte order of their namespaces |
| Section.LessTagAsymmetric | internal/app/roomlist/section/section.go:29-64 | when namespace equality is symmetric, user tags share a namespace and the name order is asymmetric, no two sections are each before the other |
| Section.SortSections | internal/app/roomlist/section/section.go:21-26 | the sections afterwards are a permutation of those before, in order whenever `lessTag` is a strict weak order |
| Room.TrimString | internal/app/roomlist/room/room.go:206-211 | a longer string is cut to its first `maxLen` bytes, a shorter one kept; the result is a prefix of length `min(len, maxLen)` |
| Room.TrimIdempotent | internal/app/roomlist/room/room.go:206-211 | trimming twice to the same length is the same as trimming once |

## Left out

- The bbolt engine is modelled only by its effect on a tree of sorted buckets. Pages, the on-disk file, the freelist, and locking between concurrent transactions are not modelled. A failing disk write is the flag `ioError`.
- Concurrency: the model runs one operation at a time.
- `log.Println` on a failed commit (node.go:86) is not modelled; it has no effect on results.
- The `prefix` parameter of `Length`, `Each` and `EachKey` is never read by the code, so the model omits it.
- `NodePath.Bucket`, `NodePath.BucketExists`, `dropBucketPrefix` and the `KV` type are not part of this model. They are modelled by their evident behaviour:
  - `Bucket` creates the path in a writable transaction and reports `ErrBucketNotFound` in a read-only one.
  - `BucketExists` looks the path up without creating anything.
  - `dropBucketPrefix` deletes the path's last bucket from its parent. A missing parent gives `ErrBucketNotFound`, and the empty path empties the root.
- Under the create-on-write `NodePath.Bucket` above, a writable `Set`, `SetIfNone`, `Delete` or `DropExceptLast` on a missing path creates the path. The `ErrKeyNotFound` branches of `Delete`, `Length`, `Each` and `EachKey` (node.go:259, 324, 372, 414) can therefore fire only in a read-only transaction.
- The empty path names the root bucket of the tree. In bbolt the root cannot hold values; the model allows them there.
- Db.Node.Bucket: a cached bucket handle is assumed to name a bucket that still exists (`CacheValid`). Handles made stale by another node of the same transaction dropping their bucket are not modelled.
- A caller's own closure passed to `TxUpdate`/`TxView` is a function on the tree. Its changes are discarded in a read-only transaction, as bbolt refuses them there.
- NodeSpec.EachCallsShape: the decode failure's message omits the key that `errors.Wrapf` formats into it; only "failed to unmarshal" and the codec's error are kept.
- `Each`'s callback receives the decoded value, which Go writes through the shared pointer `v`. That pointer's aliasing is not modelled.
- `Cursor.Delete` during the backward walk of `DropExceptLast` is assumed to leave the cursor on the previous entry, so every entry is visited once.
- A leaf with an empty value is treated as present. bbolt reports an empty value as a non-nil empty slice.
- Db.Node.Node: the path capacity arithmetic (`*3/2`) and the panic on no names are not modelled. No names is a precondition.
- SortUtil.PopRune and SortUtil.StrcmpFold work on decoded runes. UTF-8 decoding is not modelled: an invalid byte is a `RuneError` element of the sequence. `unicode.ToLower` is the parameter `lower`.
- Section.SortSections: `sort.Slice` is modelled by an insertion sort that meets the same outcome (permutation, ordered for a strict weak order). `TagEqNamespace`, `HasNamespace`, `MatrixSectionOrder`, `TagNamespace` and `sortutil.LessFold` are fields of a `Naming` value. The GTK widgets of the section and room files are not modelled.
- Room.TrimString: a negative `maxLen` panics in Go and is a precondition. Byte slicing can cut a multi-byte UTF-8 character; the model cuts bytes exactly as Go does.

## Findings

| source | as written | input that shows it | evidently intended | confidence | as-written member | corrected member |
|---|---|---|---|---|---|---|
| internal/sortutil/sortutil.go:30-40 | on `RuneError` the length test looks at the strings left AFTER the pop, so it cannot tell a shorter string from a longer one by one rune | `StrcmpFold("a", "")` and `StrcmpFold("ab", "a")` both return 0 | a proper prefix sorts first ("len(i) < len(j)", as the comments say) | not executed | SortUtil.StrcmpOneRuneLongerTies | SortUtil.StrcmpFixedPrefixFirst |
| internal/gotktrix/internal/db/node.go:211-228 | `Exists` looks the key up as given, while `Set` stores it under `mustKey(k)` | after `Set("\x00\x00", v)`, which stores under "\x00\x00\x00", `Exists("\x00\x00")` is false | a non-empty key is sanitised as `Set` sanitises it, so a stored key always exists | not executed | NodeProps.SetThenExistsMisses | NodeProps.SetThenExistsFixed |
