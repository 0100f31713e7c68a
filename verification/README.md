# OVN core, modelled and proved

The Rust crate `crates/ovn-core` is the core of an embedded document database. This project
states what eleven of its algorithms do, in Dafny, and proves what they promise. Run
`dafny verify dfyconfig.toml` to check all of it.

Where the code keeps state in fields or moves a position through a loop, the model has a
class or a method with the same loops, proved equal to a function; what the code promises is
then proved about the function, for all inputs and over all runs. Where a promise does not
hold for all inputs, there is the exact condition under which it holds and a concrete input
that shows it failing.

* **Document encoding** (`Varint`, `ObeValue`, `ObeCodec`, `ObeInjective`, `ObeStream`,
  `ObeLayout`, `ObePaths`): the OVN Binary Encoding with its LEB128 varints (section 7.6 of
  DWARF 5), length prefixes, 17 type tags and nesting limits. Text is a byte string with a UTF-8
  predicate, floats are bit patterns, maps are lists sorted by key. Encoding and decoding undo
  each other exactly within the limits that the decoder checks; the encoder does not check them.
  The decoder is total on an unbounded stack: arrays directly in arrays have no nesting limit.
* **Learned index** (`LearnedIndex`): the greedy fit of line segments with an error bound, over
  `real` instead of 64-bit floats, with the infinite initial slopes as a separate case. The
  number that stands for a key is rounded to 53 bits, as in the code. A lookup always agrees
  with a full search. It stays within the error bound for every stored key unless more than 65
  consecutive keys have one rounded number; the exact condition is proved. Keys that differ only
  in their eighth byte are such keys: of 256 of them 191 miss. Keys of one length of at most
  six bytes are not.
* **Clock** (`Hlc`): the hybrid logical clock, as methods of one thread and as any number of
  threads inside their load/compute/compare-and-swap loops. A `recv` that increments a counter
  at its maximum moves the clock back; that is exactly when it fails. However far ahead remote
  clocks are, the state passes the latest of a minute after the largest wall clock, its start
  and the arguments of `advance_to` by at most one for each id.
* **Transactions** (`Mvcc`, `MvccRuns`, `MvccValidation`): snapshots, optimistic validation and
  garbage collection as a transition system whose steps are the manager's methods. A write takes
  an id (`crates/ovn-core/src/engine/crud.rs:56`) and later installs its version
  (`crates/ovn-core/src/engine/crud.rs:94`), and nothing holds the two together. Snapshot reads
  are repeatable exactly when no older write is between the two, and validation at commit is
  exact if and only if no write was between the two when the transaction began: with one, a
  stale read commits. Garbage collection hides no conflict if and only if at most one was.
* **Savepoints** (`Savepoints`): the undo log of one transaction over a store. A rollback does
  not restore a key that was already logged when the savepoint was made and was rewritten since,
  and not the second collection in which one document id was written. The log is sound exactly
  for transactions that write no id in two collections.
* **Queries** (`Json`, `ValueLaws`, `Filter`, `FilterLaws`, `Utf8Text`, `SqlLexer`, `Sql`,
  `SqlMeaning`, `SqlPipeline`, `SqlShapes`, `SqlText`): a WHERE condition from its text to
  tokens, to a JSON filter, to a filter tree, to its answer on a document. AND merges two JSON
  objects, so a conjunct is lost when a later one writes the same key; two parenthesised ORs
  under one AND also share a key. Without repeated keys the meaning is preserved, and for no
  other shape of condition is it always. What a filter's equality and order are is stated apart
  from the code that computes them: sameness of values without numbers, the real numbers that
  integers and 64-bit floats stand for, byte order of strings. Unicode's character classes and
  upper-casing and the parsing of floats are function parameters.
* **Index keys** (`SecondaryIndex`, `CompoundIndex`, `CompoundStored`): byte order is value
  order (totalOrder of section 5.10 of IEEE 754-2019 for floats), and compound keys can be read
  back. The four-byte length prefix wraps at 4 GiB, which no document that encodes within 16 MiB
  reaches.
* **Radix trie** (`Art`, `ArtTier`): an insert never splits a compressed prefix, so it may be
  dropped, and a key that begins with another key displaces it. Both cases are characterised
  exactly; for keys of one length lookups, leaves and count agree.
* **Aggregation** (`Aggregation`, `Accumulators`): `$unwind`, `$group` with `$min`, `$max`,
  `$first`, `$last`, `$push`, `$addToSet` and `$count`, and `$bucket`. A NaN can hide numbers
  from `$min` and `$max`; exactly when is proved. The JSON text that serves as a group key is a
  function parameter.
* **Log chain** (`HmacChain`): the keyed HMAC (section 2 of RFC 2104) is a function from byte
  strings to 32 bytes, assumed not to collide on the messages that are actually hashed.
* **Blobs** (`Blob`): chunked storage over pages that start as zeros. The length is not stored,
  so zeros at the end of a blob are lost.

`Bytes`, `TextMap` and `Rounding` hold byte strings with their order, fixed-width integers, the
sorted map, and the rounding of integers to 53 bits.

## Model

| member | source | states |
|---|---|---|
| ObeCodec.RoundTrip | crates/ovn-core/src/format/obe.rs:491-590 | For every document the encoder accepts and every suffix, decoding the encoding followed by the suffix gives the document back, using exactly the encoding's bytes, if and only if the document is within the decoder's limits (names of at most 255 bytes, arrays of at most 100000 elements, no field deeper than 128) |
| ObeCodec.DecodedWithinLimits | crates/ovn-core/src/format/obe.rs:693-891 | On every byte string the decoder yields an error or a well-formed document within the limits, and never reads past the end |
| ObeCodec.DecodeIsStable | crates/ovn-core/src/format/obe.rs:529-590 | Whatever was decoded, from canonical bytes or not, decodes to itself again after re-encoding, unless the re-encoding exceeds 16 MiB |
| ObeInjective.EncodingIsPrefixFree | crates/ovn-core/src/format/obe.rs:491-527 | Of two documents that the encoder accepts, within the decoder's limits or not, the encoding of one is never the beginning of the other's unless the documents are the same |
| ObeCodec.NameTooLongToDecode | crates/ovn-core/src/format/obe.rs:602-614 | The encoder does not check the limits: a 256-byte field name is written and then not read back |
| ObeCodec.NestedArraysDecode | crates/ovn-core/src/format/obe.rs:682-704 | The nesting limit does not hold for arrays directly in arrays: a document with any number of them is encoded, up to 16 MiB, and decoded again |
| ObeCodec.DecodeEncodedField | crates/ovn-core/src/format/obe.rs:693-738 | A field decoder consumes exactly the bytes its encoder wrote, whatever follows |
| ObeCodec.DecodeEncodedValue | crates/ovn-core/src/format/obe.rs:740-891 | A value decoder consumes exactly the bytes its encoder wrote, at every nesting depth |
| ObeCodec.DecodeEncodedFields | crates/ovn-core/src/format/obe.rs:791-800 | Reading back a map's fields one by one rebuilds the map |
| ObeCodec.DecodeEncodedElems | crates/ovn-core/src/format/obe.rs:801-821 | Reading back an array's elements one by one rebuilds the array |
| ObeCodec.DecodedFieldWithin | crates/ovn-core/src/format/obe.rs:693-738 | A decoded field has a UTF-8 name of at most 255 bytes and a value within the limits at its depth |
| ObeCodec.DecodedValueWithin | crates/ovn-core/src/format/obe.rs:740-891 | A decoded value is well-formed and within the limits at its depth |
| ObeStream.WriteDocument | crates/ovn-core/src/format/obe.rs:491-527 | The encoder that pushes onto a buffer and fills in the length last writes exactly the bytes of the encoding function, or refuses the same documents |
| ObeStream.WriteField | crates/ovn-core/src/format/obe.rs:602-614 | Pushes exactly the field's encoding onto what the buffer holds |
| ObeStream.WriteValue | crates/ovn-core/src/format/obe.rs:616-680 | Pushes exactly the value's encoding onto what the buffer holds |
| ObeStream.ReadField | crates/ovn-core/src/format/obe.rs:693-738 | The reader with a moving position gives the decoding function's result and error |
| ObeStream.ReadValue | crates/ovn-core/src/format/obe.rs:740-891 | Likewise for values, loops over map entries and array elements included |
| ObeStream.ReadDocument | crates/ovn-core/src/format/obe.rs:529-590 | Likewise for whole documents |
| Varint.EncodeVarint | crates/ovn-core/src/format/obe.rs:85-99 | The loop pushes the LEB128 bytes of the value and returns how many |
| Varint.ReadVarint | crates/ovn-core/src/format/obe.rs:102-120 | The loop over `result` and `shift` gives the decoding function's value, length or error |
| Varint.DecodeVarintBytes | crates/ovn-core/src/format/obe.rs:85-120 | Decoding undoes encoding for every 64-bit value and every suffix |
| Varint.DecodeVarintBelow | crates/ovn-core/src/format/obe.rs:102-120 | Whatever bytes come in, a decoded varint fits 64 bits: the shifts lose bits but do not carry |
| ObeLayout.DocumentLayout | crates/ovn-core/src/format/obe.rs:7-16 | An encoded document is laid out as documented: total length in four bytes and transaction id in eight, lowest digit first, id, tombstone flag, and a varint with the number of fields |
| ObeLayout.FieldLayout | crates/ovn-core/src/format/obe.rs:18-24 | A field is the length of its name, the name, the type tag and the value, byte for byte |
| ObeLayout.UnknownTagRefused | crates/ovn-core/src/format/obe.rs:33-81 | A field or an element whose tag byte is not 1 to 17 is refused with that byte, whatever follows |
| ObeLayout.VarintTagRead | crates/ovn-core/src/format/obe.rs:740-891 | The tag of varints, which the encoder never writes, is read as a 64-bit integer |
| ObeLayout.VarintDigits | crates/ovn-core/src/format/obe.rs:85-99 | Byte `i` of a varint holds the digit of the number worth `128^i`, and its high bit says whether bytes follow |
| ObePaths.PathThrough | crates/ovn-core/src/format/obe.rs:452-472 | A path `p.q` reads in what `p` reads: a document's fields again, an array's element, and nothing else |
| ObePaths.IndexRead | crates/ovn-core/src/format/obe.rs:452-472 | A path segment is an array index exactly if it is decimal digits with at most a plus sign before them, and the decimal form of every index reads back as it |
| LearnedIndex.FitSegments | crates/ovn-core/src/index/learned.rs:206-274 | On any data the greedy cone fitting yields segments that tile it from position 0 in strictly increasing starts; on sorted data each segment has a slope within epsilon of all its points, and each but the last is maximal: no slope at all would also take the next point |
| LearnedIndex.ModelSizeBound | crates/ovn-core/src/index/learned.rs:206-274 | A model of n sorted keys has at most (n - 1) / (EPSILON + 1) + 1 segments |
| LearnedIndex.StoredKeyHits | crates/ovn-core/src/index/learned.rs:102-134 | A lookup of a stored key stays inside the window if and only if the key does not share the rounded numeric image of its segment's first key more than EPSILON positions later |
| LearnedIndex.EpsilonGuarantee | crates/ovn-core/src/index/learned.rs:39-44 | If no EPSILON + 2 keys in a row share a rounded numeric image, in particular if images strictly increase, every stored key is inside its window |
| LearnedIndex.SharedImagesMiss | crates/ovn-core/src/index/learned.rs:277-283 | Every key that shares the rounded image of the first key of the data more than EPSILON positions later misses; equal first eight bytes are one case |
| LearnedIndex.OneByteKeysMiss | crates/ovn-core/src/index/learned.rs:277-283 | The 256 keys that agree in seven bytes and differ in the eighth are one number after rounding: the first 65 hit and the other 191 miss |
| LearnedIndex.ShortKeysHit | crates/ovn-core/src/index/learned.rs:278-283 | Of keys of one length of at most six bytes no lookup of a stored one falls back: their numbers are far enough apart to survive rounding |
| LearnedIndex.CoveringSegment | crates/ovn-core/src/index/learned.rs:196-203 | The segment found for a stored key is the one that covers its position |
| LearnedIndex.ModelIsSorted | crates/ovn-core/src/index/learned.rs:206-274 | Fitted segments are sorted by first key, as the search for a segment needs |
| LearnedIndex.FindSegment | crates/ovn-core/src/index/learned.rs:196-203 | The partition point is the last segment whose first key is not above the key, or the first segment |
| LearnedIndex.SearchWindow | crates/ovn-core/src/index/learned.rs:190-194 | Binary search in a window of sorted data finds the key's position, or shows the window does not have it |
| LearnedIndex.HitMeans | crates/ovn-core/src/index/learned.rs:112-134 | A lookup hits exactly if the key is at most 64 positions from where the segment predicts it, a prediction outside the data meaning its first or last entry |
| LearnedIndex.RoundMeans | crates/ovn-core/src/index/learned.rs:39-44 | A prediction is rounded to the nearest position, halves away from zero |
| LearnedIndex.LearnedIndex.Get | crates/ovn-core/src/index/learned.rs:102-134 | For sorted data and any segments at all, stale or wrong, the answer is that of a full search; if the segments are sorted one of them covers the key, and the miss count stays exactly when the covering segment's window holds the key |
| LearnedIndex.BuildAndGet | crates/ovn-core/src/index/learned.rs:91-134 | Built from sorted entries, a lookup of a stored key gives its value, and counts no miss if and only if the key does not share the image of its covering segment's first key more than EPSILON positions later |
| LearnedIndex.LearnedIndex.BuildFromSorted | crates/ovn-core/src/index/learned.rs:91-97 | Stores the entries, sorted or not, segments that tile them (a model of them if they are sorted), and zero counters |
| LearnedIndex.ImageMonotone | crates/ovn-core/src/index/learned.rs:278-283 | The numeric images of sorted keys, after rounding to 53 bits, do not decrease |
| Rounding.RoundFromMonotone | crates/ovn-core/src/index/learned.rs:283 | Rounding an integer to 53 significant bits, ties to even, keeps order |
| Rounding.RoundFromNear | crates/ovn-core/src/index/learned.rs:283 | Rounding moves an integer by at most its `2^-53`th part, and not at all up to `2^53` |
| LearnedIndex.MeetExact | crates/ovn-core/src/index/learned.rs:226-262 | Tightening the slope cone by one point leaves exactly the slopes that also fit that point |
| Hlc.ClockSafety | crates/ovn-core/src/mvcc/hlc.rs:110-210 | For every interleaving of threads in the load/compute/CAS loops of `now`, `recv` and `advance_to`, with any wall clocks below 2^48 ms (backward ones too) and as long as no `recv` increments an exhausted counter, every reachable state has all issued ids distinct and increasing in CAS order, none above the clock, and each accepted `recv` id above its remote one |
| Hlc.ClockMonotone | crates/ovn-core/src/mvcc/hlc.rs:110-210 | Along every such run the clock never decreases and issued ids are only added |
| Hlc.StepKeeps | crates/ovn-core/src/mvcc/hlc.rs:110-210 | One such thread step keeps the invariant, and a step that issues an id strictly advances the clock |
| Hlc.FitsExactly | crates/ovn-core/src/mvcc/hlc.rs:110-188 | With wall clocks below 2^48 ms, the steps excluded from those runs are exactly the ones that issue an id not above the clock or not above the remote id |
| Hlc.FailureMeansProgress | crates/ovn-core/src/mvcc/hlc.rs:134-146 | A failed compare-and-swap means the clock has moved up since the thread loaded it |
| Hlc.AdvanceReaches | crates/ovn-core/src/mvcc/hlc.rs:196-210 | When `advance_to` ends, the clock has reached the minimum |
| Hlc.NowIsLeast | crates/ovn-core/src/mvcc/hlc.rs:113-131 | Until the very last id, `now` yields the least id above both the state and the wall clock, and it moves up exactly until then |
| Hlc.RecvIsLeast | crates/ovn-core/src/mvcc/hlc.rs:155-176 | `recv` yields an id above state and remote if and only if the 16-bit counter it increments is not at its maximum, and then the least one not below the wall clock |
| Hlc.RecvOverflowMovesBack | crates/ovn-core/src/mvcc/hlc.rs:163-174 | With an exhausted counter `recv` moves the clock back |
| Hlc.DriftBounded | crates/ovn-core/src/mvcc/hlc.rs:6 | Over every such run with wall clocks of at most W ms the clock is never above the largest of its start, the `advance_to` arguments and the last id of a minute after W, plus one for each id issued |
| Hlc.MergesExactly | crates/ovn-core/src/mvcc/hlc.rs:155-188 | A `recv` merges the remote id if and only if that is at most a minute ahead of its wall clock, and then moves the clock one above remote and state, or to the wall clock |
| Hlc.RunGoesOn | crates/ovn-core/src/mvcc/hlc.rs:110-210 | Any clock begins a run and any step that fits carries one on |
| Hlc.PackOrder | crates/ovn-core/src/mvcc/hlc.rs:34-49 | Packing is a bijection that turns the order of (milliseconds, counter) into the order of ids |
| Hlc.HlcClock.Now | crates/ovn-core/src/mvcc/hlc.rs:110-146 | On one thread: returns the new state, strictly above the old one |
| Hlc.HlcClock.Recv | crates/ovn-core/src/mvcc/hlc.rs:151-188 | On one thread: a remote id at most a minute ahead of the wall clock is merged, one above both it and the state; any other is ignored and the id is what `now` issues; whatever was issued is the new state, above the old one |
| Hlc.HlcClock.AdvanceTo | crates/ovn-core/src/mvcc/hlc.rs:196-210 | On one thread: the state becomes the maximum of itself and the argument |
| MvccRuns.RepeatableExactly | crates/ovn-core/src/mvcc/mod.rs:261-276 | From any reachable state, an active transaction's reads of every key are the same on every future run if and only if no write with an older id is still between taking its id and installing its version |
| MvccRuns.ViewStable | crates/ovn-core/src/mvcc/mod.rs:110-112 | Over every run of begin, commit, abort, write and gc steps during which the transaction stays active, what it reads of a key does not change, when no older write is in flight |
| MvccRuns.StepView | crates/ovn-core/src/mvcc/mod.rs:253-326 | One step changes what an active transaction reads exactly when it installs a version with an older id on that key: from then on it reads that version, or nothing if that is a tombstone |
| MvccRuns.OlderInstallShows | crates/ovn-core/src/engine/crud.rs:56-94 | A write in flight whose id is older than a snapshot does become visible to it |
| MvccRuns.QuiescentBegin | crates/ovn-core/src/mvcc/mod.rs:189-202 | A transaction that begins when no write is in flight has repeatable reads |
| MvccRuns.GcInvisible | crates/ovn-core/src/mvcc/mod.rs:279-301 | Garbage collection changes no active transaction's read of any key |
| MvccRuns.KeptPrefix | crates/ovn-core/src/mvcc/mod.rs:285-296 | What gc keeps of a chain contains the first version that any snapshot at or above the horizon sees |
| MvccRuns.StepKeeps | crates/ovn-core/src/mvcc/mod.rs:189-326 | Every step keeps the invariant: horizon not above any active id, snapshots older than later ids, version ids known and never in an active set |
| MvccRuns.InvInit | crates/ovn-core/src/mvcc/mod.rs:179-186 | A new manager satisfies the invariant |
| MvccRuns.RunKeeps | crates/ovn-core/src/mvcc/mod.rs:189-326 | Every run keeps the invariant |
| MvccValidation.ValidationExact | crates/ovn-core/src/mvcc/mod.rs:205-244 | For a transaction begun with at most one write in flight, and any steps after that, gc included: `commit` succeeds if and only if no key of its read set was written since under a later id, and a gc right before it does not change the verdict |
| MvccValidation.ValidatesExactly | crates/ovn-core/src/mvcc/mod.rs:205-244 | From any reachable state: over all runs after a begin, `commit` succeeds exactly if no key of the read set was written since, if and only if no write was in flight at the begin |
| MvccValidation.StaleReadCommits | crates/ovn-core/src/engine/crud.rs:56-94 | With a write in flight at the begin, a read that the write then overtakes commits unnoticed |
| MvccValidation.GcHidesConflict | crates/ovn-core/src/mvcc/mod.rs:279-301 | With two writes in flight at the begin, whatever other transactions are active, there is a run in which a newer write of a read key makes the commit fail before gc and gc makes it succeed |
| MvccValidation.GcNeutralExactly | crates/ovn-core/src/mvcc/mod.rs:279-301 | Over all runs after a begin, a gc never changes the verdict of the commit, if and only if at most one write was in flight at the begin |
| MvccValidation.DetectsNewerExactly | crates/ovn-core/src/mvcc/mod.rs:205-244 | Over all runs after a begin, gc included, `commit` succeeds exactly if no key of the read set was written since under a later id, if and only if at most one write was in flight at the begin |
| MvccValidation.CommitSeesNewest | crates/ovn-core/src/mvcc/mod.rs:205-244 | If `commit` succeeds, the newest version of every key it read is the one its snapshot sees |
| MvccValidation.ConflictIsNewer | crates/ovn-core/src/mvcc/mod.rs:216-235 | The conflict check finds exactly the read keys that have a version newer than the snapshot |
| MvccValidation.RunNewer | crates/ovn-core/src/mvcc/mod.rs:279-301 | Over a run that starts with at most one older write in flight and none of its versions in front of a newer one, a key has a version newer than an active transaction exactly when it had one before or one was installed |
| Mvcc.MvccManager.BeginTransaction | crates/ovn-core/src/mvcc/mod.rs:189-202 | Stores a transaction with a snapshot of the active ids and updates the horizon |
| Mvcc.MvccManager.Commit | crates/ovn-core/src/mvcc/mod.rs:205-244 | Succeeds exactly if the transaction is there and every version of every key it read is at or below its snapshot's id or in the snapshot; else names a read key that has another, and the first one in its chain; removes the transaction with the horizon updated |
| Mvcc.MvccManager.Abort | crates/ovn-core/src/mvcc/mod.rs:247-250 | Removes the transaction and updates the horizon |
| Mvcc.MvccManager.AddVersion | crates/ovn-core/src/mvcc/mod.rs:253-258 | Puts the version at the front of the key's chain |
| Mvcc.MvccManager.Read | crates/ovn-core/src/mvcc/mod.rs:261-276 | The walk along a chain gives a version exactly if it is the first one that is at or below the snapshot's id and not in the snapshot, and is no tombstone |
| Mvcc.ReadExactly | crates/ovn-core/src/mvcc/mod.rs:261-276 | The read that the results about runs speak of yields a version, never a tombstone, exactly if it is the first visible one of the chain, and nothing exactly if none is visible or the first is a tombstone |
| Mvcc.MvccManager.Gc | crates/ovn-core/src/mvcc/mod.rs:279-301 | Truncates every chain after the first version, other than the newest, that is below the horizon, and returns the number of versions dropped |
| Mvcc.MvccManager.UpdateHorizon | crates/ovn-core/src/mvcc/mod.rs:318-326 | Sets the horizon to the least active id, or to the current id if none is active |
| Savepoints.ReachableInv | crates/ovn-core/src/engine/txn_ops.rs:47-122 | In every state that savepoints, rollbacks, releases and writes of each id in one collection reach: unlogged keys have their value from the start of the transaction, logged originals are those values, and snapshots are nested |
| Savepoints.ReachableInvExactly | crates/ovn-core/src/engine/txn_ops.rs:47-122 | Every run that writes within a given set of places keeps that invariant if and only if no id occurs there with two collections |
| Savepoints.RollbackRestores | crates/ovn-core/src/engine/txn_ops.rs:186-246 | In every state with that invariant: a rollback gives a key its value from the time of the savepoint if and only if the key was not logged by then or has not changed since |
| Savepoints.RollbackRestoresAll | crates/ovn-core/src/engine/txn_ops.rs:186-246 | In every state with that invariant: the whole store is as at the savepoint if and only if no key written before the savepoint has another value now |
| Savepoints.RewriteSurvives | crates/ovn-core/src/engine/txn_ops.rs:78-109 | Rewriting a key that was written before the savepoint is not undone |
| Savepoints.SecondCollectionSurvives | crates/ovn-core/src/engine/txn_ops.rs:47-56 | The log is keyed by document id alone: for any start, collections and values, a second collection's write of the same id is not undone |
| Savepoints.WriteKeeps | crates/ovn-core/src/engine/txn_ops.rs:47-56 | A write of an id that is not logged for another collection keeps the invariant |
| Savepoints.WriteKeepsExactly | crates/ovn-core/src/engine/txn_ops.rs:47-56 | A write keeps the invariant if and only if its id is not logged for another collection or it does not change the value |
| Savepoints.RollbackKeeps | crates/ovn-core/src/engine/txn_ops.rs:78-109 | A rollback keeps the invariant |
| Savepoints.ReleaseKeeps | crates/ovn-core/src/engine/txn_ops.rs:111-122 | A release keeps the invariant |
| Savepoints.SavepointState.RecordWrite | crates/ovn-core/src/engine/txn_ops.rs:47-56 | Logs the original value of a key the first time only |
| Savepoints.SavepointState.CreateSavepoint | crates/ovn-core/src/engine/txn_ops.rs:58-76 | Appends a snapshot of the log unless 16 are open or the name is taken |
| Savepoints.SavepointState.RollbackToSavepoint | crates/ovn-core/src/engine/txn_ops.rs:78-109 | Gives the entries logged since the last savepoint of that name, restores its log and drops it and all later ones |
| Savepoints.SavepointState.ReleaseSavepoint | crates/ovn-core/src/engine/txn_ops.rs:111-122 | Removes that savepoint alone |
| Savepoints.Undo | crates/ovn-core/src/engine/txn_ops.rs:203-243 | The loop over the undo entries restores exactly the logged places, in any order |
| Filter.BuildFilter | crates/ovn-core/src/query/filter.rs:78-156 | The loop over a filter object's entries builds the filter of the parsing function, or its error |
| Filter.BuildEntry | crates/ovn-core/src/query/filter.rs:98-144 | Likewise for one entry, with the loops over `$and`, `$or` and `$nor` |
| Filter.FieldsSuffice | crates/ovn-core/src/query/filter.rs:463-476 | The extracted fields are all a filter without `$text` and `$expr` looks at: documents that agree on them get the same answer |
| ValueLaws.EqualsItself | crates/ovn-core/src/query/filter.rs:410-429 | A value equals itself in a filter if and only if it is built from null, booleans, strings and finite numbers; a timestamp, an id or binary data equals nothing |
| ValueLaws.EqSymmetric | crates/ovn-core/src/query/filter.rs:410-429 | Equality is symmetric, although two documents are compared by looking up the keys of the first only |
| ValueLaws.CompareReverses | crates/ovn-core/src/query/filter.rs:432-442 | The order of two values reads the same from both sides |
| ValueLaws.CompareTransitive | crates/ovn-core/src/query/filter.rs:432-442 | Less-than is transitive, across integer and float types too |
| ValueLaws.EqualIsSame | crates/ovn-core/src/query/filter.rs:410-429 | A value without numbers in it is equal in a filter to that value alone |
| ValueLaws.NumbersEqual | crates/ovn-core/src/query/filter.rs:410-429 | Two numbers are equal exactly if they differ by less than `2^-52`, whatever their types |
| ValueLaws.NoNumberEqual | crates/ovn-core/src/query/filter.rs:410-429 | NaN and the infinities equal nothing, themselves included |
| ValueLaws.OnlySameKind | crates/ovn-core/src/query/filter.rs:410-429 | Values of different kinds are never equal |
| ValueLaws.ArraysEqual | crates/ovn-core/src/query/filter.rs:419-421 | Arrays are equal exactly if they are equally long and equal in each place |
| ValueLaws.DocumentsEqual | crates/ovn-core/src/query/filter.rs:422-427 | Documents are equal exactly if they have the same keys with equal values |
| ValueLaws.NumbersCompare | crates/ovn-core/src/query/filter.rs:432-442 | Numbers of any types compare as the real numbers they stand for |
| ValueLaws.StringsCompare | crates/ovn-core/src/query/filter.rs:432-442 | Strings compare byte by byte: the first difference decides, or else the shorter is less |
| ValueLaws.OthersCompare | crates/ovn-core/src/query/filter.rs:432-442 | Timestamps and booleans compare by value; values of different kinds, nulls, arrays and documents do not compare |
| ValueLaws.FloatOne | crates/ovn-core/src/query/filter.rs:410-442 | Bit patterns with exponent 1023 stand for the numbers from 1 to 2 in steps of `2^-52` |
| ValueLaws.FloatScales | crates/ovn-core/src/query/filter.rs:410-442 | One more in the exponent doubles the number, and the sign bit negates it |
| ValueLaws.FloatEnds | crates/ovn-core/src/query/filter.rs:410-442 | Exponent 0 gives the subnormal numbers, and 2047 the infinities and NaN |
| ValueLaws.FloatParts | crates/ovn-core/src/query/filter.rs:410-442 | A bit pattern is a sign bit, eleven bits of exponent and 52 of fraction |
| ValueLaws.FromInteger | crates/ovn-core/src/format/obe.rs:248-259 | A JSON integer becomes a 32-bit integer if it fits and a 64-bit one else |
| ValueLaws.FromObject | crates/ovn-core/src/format/obe.rs:264-270 | A JSON object becomes a sorted document in which the last of several entries with one key counts |
| ValueLaws.FromArray | crates/ovn-core/src/format/obe.rs:261-263 | A JSON array becomes the array of its elements |
| FilterLaws.OrderNegation | crates/ovn-core/src/query/filter.rs:267-285 | `$gte` is the opposite of `$lt` exactly where the two values compare at all |
| FilterLaws.Negations | crates/ovn-core/src/query/filter.rs:263-297 | `$ne` and `$nin` are the opposites of `$eq` and `$in`, on missing fields too |
| FilterLaws.InMeans | crates/ovn-core/src/query/filter.rs:284-297 | `$in` accepts exactly the documents whose field equals one of the values, and `$nin` all others |
| FilterLaws.AllMeans | crates/ovn-core/src/query/filter.rs:298-308 | `$all` asks for an array with an element equal to each of the values |
| FilterLaws.ElemMatchMeans | crates/ovn-core/src/query/filter.rs:323-330 | `$elemMatch` asks for an array with an element equal to the value |
| FilterLaws.SizeMeans | crates/ovn-core/src/query/filter.rs:309-315 | `$size` asks for an array of that length |
| FilterLaws.RegexMeans | crates/ovn-core/src/query/filter.rs:316-322 | `$regex` asks for a string with the text, taken literally, somewhere in it |
| FilterLaws.ExistsMeans | crates/ovn-core/src/query/filter.rs:178-181 | `$exists` asks whether the field is there; any value but `false` asks that it is |
| FilterLaws.TypeMeans | crates/ovn-core/src/query/filter.rs:182-185 | `$type` asks for a value of the named type |
| FilterLaws.IntegerTypes | crates/ovn-core/src/query/filter.rs:445-460 | `int` and `int32` name the 32-bit integers, `long` and `int64` the 64-bit ones |
| FilterLaws.SimpleTypes | crates/ovn-core/src/query/filter.rs:445-460 | `null` names null, `bool` and `boolean` the booleans |
| FilterLaws.DoubleTypes | crates/ovn-core/src/query/filter.rs:445-460 | `double` and `float64` name the floats |
| FilterLaws.TextTypes | crates/ovn-core/src/query/filter.rs:445-460 | `string` names the strings and `array` the arrays |
| FilterLaws.DocumentTypes | crates/ovn-core/src/query/filter.rs:445-460 | `object` and `document` name the documents |
| FilterLaws.OpsMean | crates/ovn-core/src/query/filter.rs:159-213 | Several operators on one field ask for all of them |
| FilterLaws.GeoNames | crates/ovn-core/src/query/filter.rs:56-75 | `$near` and `$geoNear` are one operator, `$geoWithin` another |
| FilterLaws.GeoMeans | crates/ovn-core/src/query/filter.rs:331-395 | The geographic operators get the value at the field, and their answer is left open |
| FilterLaws.TextMeans | crates/ovn-core/src/query/filter.rs:126-139 | `$text` looks for its words, given as a string or as its `$search` |
| FilterLaws.NotMeans | crates/ovn-core/src/query/filter.rs:114-117 | `$not` accepts exactly what its filter does not |
| FilterLaws.AndMeans | crates/ovn-core/src/query/filter.rs:98-105 | `$and` accepts exactly what all of its filters accept |
| FilterLaws.OrMeans | crates/ovn-core/src/query/filter.rs:106-113 | `$or` accepts exactly what one of its filters accepts |
| FilterLaws.NorMeans | crates/ovn-core/src/query/filter.rs:118-125 | `$nor` accepts exactly what none of its filters accepts |
| FilterLaws.ExprAgrees | crates/ovn-core/src/query/filter.rs:479-528 | `$expr` reads a missing field as null, yet comparing a field with a literal gives the same answer as the plain comparison on every document |
| FilterLaws.ExprOfFields | crates/ovn-core/src/query/filter.rs:479-528 | With two references `$expr` compares two fields, missing ones as null |
| FilterLaws.ExprMeans | crates/ovn-core/src/query/filter.rs:479-528 | Several comparisons under `$expr` must all hold, and one with an operator that it does not know never does |
| FilterLaws.ExprAccepts | crates/ovn-core/src/query/filter.rs:140-142 | A `$expr` entry accepts what its expression holds of |
| FilterLaws.EmptyAccepts | crates/ovn-core/src/query/filter.rs:78-93 | `null` and `{}` accept every document |
| SqlText.AnyTextMeaning | crates/ovn-core/src/query/sql_parser.rs:58-168 | For any text at all, wherever a condition parses among its tokens, those tokens are a condition, and the filter accepts exactly the documents on which its surviving conjuncts hold: the condition itself, if no AND repeats a key |
| SqlText.WrittenMeaning | crates/ovn-core/src/query/sql_parser.rs:58-168 | A condition written out with blanks between its tokens is parsed to the end of the text and means what it says, if no AND repeats a key |
| SqlText.StringText | crates/ovn-core/src/query/sql_parser.rs:58-168 | The text `field = 'words'`, in any quotes and blanks, accepts exactly the documents whose value at the path is the string whose UTF-8 characters are those words |
| SqlText.TokenizePlain | crates/ovn-core/src/query/sql_parser.rs:120-163 | Whatever the text, no identifier starts with `$`, so no field name is taken for an operator |
| SqlLexer.TokenizeWritten | crates/ovn-core/src/query/sql_parser.rs:58-168 | Tokens written out with blanks between them are read back as they were: what spells a string or a name is said by decoding its bytes, and what spells a keyword by its letters |
| SqlLexer.RunTokenizer | crates/ovn-core/src/query/sql_parser.rs:58-168 | The loop over the characters, with its inner loops, pushes the tokens of the specification, each of which the text spells (`StepSpells`) |
| SqlLexer.IntegerSpelled | crates/ovn-core/src/query/sql_parser.rs:99-119 | The decimal form of every 64-bit integer spells its literal |
| SqlLexer.NumberMeans | crates/ovn-core/src/query/sql_parser.rs:99-119 | Digits with or without a minus sign are the integer they write, if it has 64 bits, and else no literal |
| SqlLexer.FloatMeans | crates/ovn-core/src/query/sql_parser.rs:112-115 | With a point they are the float that they parse to, null if that is not finite, or no literal |
| SqlLexer.Characters | crates/ovn-core/src/query/sql_parser.rs:66-127 | The characters that begin and continue each kind of token |
| SqlLexer.StringSpelled | crates/ovn-core/src/query/sql_parser.rs:86-98 | Between quotes of a kind they do not contain, characters spell the string whose bytes decode to them |
| SqlLexer.StepSpells | crates/ovn-core/src/query/sql_parser.rs:58-168 | Whatever the text, a token read at its front is spelled by the characters it takes, or is a string that the text leaves open |
| SqlLexer.WordTokenExact | crates/ovn-core/src/query/sql_parser.rs:120-163 | A word is a keyword exactly if its upper case is that keyword, and else the identifier whose bytes decode to it |
| SqlLexer.ConditionWords | crates/ovn-core/src/query/sql_parser.rs:120-163 | AND, OR, IS and NULL are those letters |
| Utf8Text.EncodingExact | crates/ovn-core/src/query/sql_parser.rs:161 | The UTF-8 encoding of a text is the only valid byte string that decodes to it |
| Utf8Text.EncodingInjective | crates/ovn-core/src/query/sql_parser.rs:161 | Texts with one encoding are the same |
| Utf8Text.EncodingOfAscii | crates/ovn-core/src/query/sql_parser.rs:161 | ASCII text is encoded by its own codes |
| SqlPipeline.MeaningPreserved | crates/ovn-core/src/query/sql_parser.rs:510-582 | For every condition in which no AND repeats a key, the tokens of the condition parse to a filter that accepts exactly the documents on which the condition is true |
| SqlPipeline.OrFilter | crates/ovn-core/src/query/sql_parser.rs:525-545 | For every condition, repeated keys or not, the filter accepts exactly the documents on which the conjuncts that are not overwritten hold |
| SqlPipeline.NothingMissed | crates/ovn-core/src/query/sql_parser.rs:525-545 | With repeated keys the filter may accept too much but never rejects a document on which the condition is true |
| SqlPipeline.NothingLost | crates/ovn-core/src/query/sql_parser.rs:525-545 | The compiled filter has all comparisons of the condition if and only if no AND repeats a key |
| SqlPipeline.MeaningExactly | crates/ovn-core/src/query/sql_parser.rs:510-582 | For every tree of ANDs, ORs and fields: whatever operators and literals are put at its leaves, the filter accepts exactly the documents on which the condition is true, if and only if no AND repeats a key |
| SqlPipeline.FirstComparisonLost | crates/ovn-core/src/query/sql_parser.rs:530-541 | Of two comparisons of one field joined by AND only the second is applied |
| SqlPipeline.RangeAcceptsTooMuch | crates/ovn-core/src/query/sql_parser.rs:530-541 | `a > 1 AND a < 5` accepts a document with `a = 0` |
| SqlPipeline.CompareMeaning | crates/ovn-core/src/query/filter.rs:159-213 | Each SQL comparison means the same once it is an MQL operator |
| SqlPipeline.MissingMeaning | crates/ovn-core/src/query/filter.rs:206-212 | IS NULL holds for a missing field and for null alone |
| SqlPipeline.StringEquals | crates/ovn-core/src/query/sql_parser.rs:510-582 | `field = 'text'` accepts exactly the documents whose value at the path is that string, and `<>` exactly all others |
| SqlPipeline.NumberOrders | crates/ovn-core/src/query/sql_parser.rs:510-582 | `<`, `<=`, `>` and `>=` against an integer mean the order of the real numbers |
| SqlPipeline.NoOrder | crates/ovn-core/src/query/sql_parser.rs:510-582 | They accept no document in which the path has no number |
| SqlPipeline.ObjectFilter | crates/ovn-core/src/query/filter.rs:78-156 | A filter object accepts a document exactly when all its entries do |
| Sql.ParserIsGrammar | crates/ovn-core/src/query/sql_parser.rs:514-582 | The parser succeeds exactly on what the grammar derives, with AND tighter than OR and parentheses respected, and yields that condition's filter |
| Sql.ParsePrintedOr | crates/ovn-core/src/query/sql_parser.rs:514-523 | A printed condition that no OR or AND continues parses to its own filter |
| Sql.ParsedOrIsPrinted | crates/ovn-core/src/query/sql_parser.rs:514-523 | Whatever tokens are accepted are a printed condition |
| Sql.SqlParser.ParseOrCondition | crates/ovn-core/src/query/sql_parser.rs:514-523 | The parser that advances its position gives the parsing function's filter and position, or the error at the position it stops at |
| Sql.SqlParser.ParseAndCondition | crates/ovn-core/src/query/sql_parser.rs:525-545 | Likewise, with the loops that copy two objects into one map |
| Sql.SqlParser.ParseAtomicCondition | crates/ovn-core/src/query/sql_parser.rs:547-582 | Likewise, for comparisons, IS NULL and parentheses |
| SqlMeaning.SumMerge | crates/ovn-core/src/query/sql_parser.rs:530-541 | In a merged object an entry of the left survives unless the right has its key |
| SqlMeaning.OrLeftAll | crates/ovn-core/src/query/sql_parser.rs:525-545 | All comparisons survive merging exactly when keys are distinct |
| SecondaryIndex.KeyOrder | crates/ovn-core/src/index/secondary.rs:148-191 | The byte order of index keys of scalar values is the order by type, then signed order for integers, byte order for strings and ids, numeric order for timestamps, totalOrder for floats |
| SecondaryIndex.KeyIdentity | crates/ovn-core/src/index/secondary.rs:148-200 | Two values share an index key exactly when they are the same scalar, or neither is a scalar and their JSON texts agree |
| SecondaryIndex.FloatOrder | crates/ovn-core/src/index/secondary.rs:166-176 | The key order of finite floats is their numeric order, with -0 just below +0 |
| CompoundIndex.KeysIdentify | crates/ovn-core/src/index/secondary.rs:107-145 | For encodings below 4 GiB two documents get the same key exactly when they agree on which indexed fields they have and on the encoding of each |
| CompoundStored.ScalarKeysIdentify | crates/ovn-core/src/index/secondary.rs:107-145 | For documents that the engine stores (it encodes them first), the first with scalars in its indexed fields, keys agree exactly when the indexed values do |
| CompoundStored.StoredIsShort | crates/ovn-core/src/engine/crud.rs:60-106 | Whatever scalar a path reaches in a document that encodes within 16 MiB has a key below 4 GiB |
| CompoundStored.LongValuesCollide | crates/ovn-core/src/index/secondary.rs:121-122 | From 4 GiB on the length prefix wraps and two different documents share a key; the first of them does not encode, so the engine refuses it before indexing |
| CompoundIndex.BitmapReadsPresence | crates/ovn-core/src/index/secondary.rs:131-138 | Field `i` of a document is there exactly if bit `i` of the last eight bytes of its key is set, up to 64 fields |
| CompoundIndex.BuildIndexKey | crates/ovn-core/src/index/secondary.rs:107-145 | The loops over key bytes and bitmap build the key of the specification |
| ArtTier.PutRefinesMap | crates/ovn-core/src/index/art.rs:81-142 | An insert is a map update if and only if no prefix or key end blocks it and the leaf it meets has a key that parts from its own |
| ArtTier.BlockedChangesNothing | crates/ovn-core/src/index/art.rs:123-132 | An insert that meets a mismatching compressed prefix reports no new key and changes no lookup |
| ArtTier.ApartPut | crates/ovn-core/src/index/art.rs:81-142 | Over keys none of which begins with another, an insert sets its own key alone or changes nothing |
| ArtTier.CountDrift | crates/ovn-core/src/index/art.rs:234-251 | After every run of inserts and drains the count is the number of leaves plus the lossy inserts since the last drain |
| ArtTier.CountIsLeaves | crates/ovn-core/src/index/art.rs:234-251 | The count is right exactly when no insert was lossy |
| ArtTier.ApartCount | crates/ovn-core/src/index/art.rs:234-251 | Over keys none of which begins with another, the count is the number of leaves after every run |
| ArtTier.CountsRightExactly | crates/ovn-core/src/index/art.rs:234-251 | After every run over a set of keys the count is the number of leaves, if and only if none of the keys begins with another |
| ArtTier.EqualLengthsApart | crates/ovn-core/src/index/art.rs:81-142 | Keys of equal length are such keys |
| ArtTier.PrefixKeyForgotten | crates/ovn-core/src/index/art.rs:94-121 | Storing any key and then a longer one that begins with it forgets the first while the count says two |
| ArtTier.PutLeaves | crates/ovn-core/src/index/art.rs:81-142 | The number of leaves rises by one exactly on an insert that reports a new key and loses none |
| ArtTier.GetIsLeaf | crates/ovn-core/src/index/art.rs:49-78 | Lookups find exactly the leaves, so no key has two |
| ArtTier.CollectAll | crates/ovn-core/src/index/art.rs:175-186 | Lists each leaf once, in whatever order children are visited |
| ArtTier.ArtIndex.Insert | crates/ovn-core/src/index/art.rs:234-251 | The new root and whether a key was added, and exactly then one more in the count and the entry's size more in the byte size |
| ArtTier.ArtIndex.ScanAll | crates/ovn-core/src/index/art.rs:291-303 | Lists each entry once |
| ArtTier.ArtIndex.DrainAll | crates/ovn-core/src/index/art.rs:306-312 | Lists each entry once and empties the index |
| Art.InsertGet | crates/ovn-core/src/index/art.rs:81-142 | One insert, seen through the lookup of every key |
| Art.InsertWf | crates/ovn-core/src/index/art.rs:81-142 | Every leaf extends the path to it, before and after |
| Aggregation.UnwindThenPush | crates/ovn-core/src/query/aggregation.rs:500-535 | Over documents with different group keys, unwinding an array field and pushing it back gives a document its array if and only if the array is not empty |
| Aggregation.PushOfUnwind | crates/ovn-core/src/query/aggregation.rs:693-699 | For any documents, pushing back what was unwound gives each key the arrays of its documents one after the other |
| Aggregation.UnwindMembers | crates/ovn-core/src/query/aggregation.rs:600-617 | Unwinding commutes with grouping |
| Aggregation.GroupsAreMembers | crates/ovn-core/src/query/aggregation.rs:606-617 | A group is the documents with its key in their order; there is a group for each key that occurs, in the order of keys |
| Aggregation.GroupsConserve | crates/ovn-core/src/query/aggregation.rs:606-617 | The sizes of the groups add up to the number of documents |
| Aggregation.SharesGroup | crates/ovn-core/src/query/aggregation.rs:600-617 | Where the JSON texts tell them apart, two documents share a group exactly if the key path reads the same in both, absent being null |
| Aggregation.Unwind | crates/ovn-core/src/query/aggregation.rs:500-535 | The nested loops give the rows of all documents in order |
| Aggregation.RowHolds | crates/ovn-core/src/query/aggregation.rs:500-535 | A row has its element at the path, its number under the index name, and the document's other fields, id and flags |
| Aggregation.UnwindRows | crates/ovn-core/src/query/aggregation.rs:500-535 | A document gives row `i` for element `i` of its array; for an empty array, null or no field it stays or goes as asked, and any other value stays |
| Aggregation.ExecuteGroup | crates/ovn-core/src/query/aggregation.rs:600-646 | One output document for each group, with its key and its accumulators |
| Aggregation.OutputsHold | crates/ovn-core/src/query/aggregation.rs:619-646 | Each accumulator's value stands under its name, the last one's for a repeated name |
| Aggregation.GroupHasKey | crates/ovn-core/src/query/aggregation.rs:619-646 | `_id` holds the group's key |
| Accumulators.ComputeAccumulator | crates/ovn-core/src/query/aggregation.rs:665-711 | `$min`, `$max`, `$first`, `$last`, `$push`, `$addToSet` and `$count` of the specification, with their loops |
| Accumulators.MinExact | crates/ovn-core/src/query/aggregation.rs:665-674 | Ranking what is no number as `f64::MAX`, `$min` gives a value with no number ranked below it if and only if the first value is not NaN or all are NaN |
| Accumulators.MaxExact | crates/ovn-core/src/query/aggregation.rs:675-684 | Ranking what is no number as `f64::MIN`, `$max` gives a value with no number ranked above it if and only if, for each number before the last NaN, some number after it is at least as large |
| Accumulators.MinGives | crates/ovn-core/src/query/aggregation.rs:665-674 | What `$min` yields is a value of the group, least among them exactly under that condition, and null for no value |
| Accumulators.MaxGives | crates/ovn-core/src/query/aggregation.rs:675-684 | What `$max` yields is a value of the group, greatest among them if none is NaN, and null for no value |
| Accumulators.MaxGivesAfterNaN | crates/ovn-core/src/query/aggregation.rs:675-684 | What `$max` yields from values with a NaN is greatest exactly if each number before the last NaN is exceeded or met after it |
| Accumulators.EndsGive | crates/ovn-core/src/query/aggregation.rs:685-711 | `$first` and `$last` yield the value at the first and at the last document, or null, and `$count` the number of documents |
| Accumulators.ExtremesOfIntegers | crates/ovn-core/src/query/aggregation.rs:665-684 | Of two integers `$min` gives the smaller and `$max` the larger |
| Accumulators.PushAllAppend | crates/ovn-core/src/query/aggregation.rs:693-699 | One more document adds its value, if it has one, at the end of what `$push` collects |
| Accumulators.NaNHides | crates/ovn-core/src/query/aggregation.rs:665-684 | Of a NaN and a number `$min` gives the NaN if it comes first and `$max` if it comes last |
| Accumulators.SetOnce | crates/ovn-core/src/query/aggregation.rs:700-709 | A value that equals itself is collected exactly once |
| Accumulators.SetRepeats | crates/ovn-core/src/query/aggregation.rs:700-709 | A value with a NaN in it equals nothing, and is collected as often as it came |
| Accumulators.SetGivesOnce | crates/ovn-core/src/query/aggregation.rs:700-709 | The array that `$addToSet` yields has one element equal to each value of the group that equals itself |
| Accumulators.SetGivesOthers | crates/ovn-core/src/query/aggregation.rs:700-709 | It has only values of the group, and each with a NaN in it as often as the group has it |
| Accumulators.AlikeExact | crates/ovn-core/src/query/aggregation.rs:700-709 | The equality meant is sameness for values without floats; floats are equal as numbers, and a NaN to nothing |
| Aggregation.ExecuteBucket | crates/ovn-core/src/query/aggregation.rs:731-794 | One output document, with id and count, for each bucket that is not empty, in order, and one for the default bucket if that is not empty |
| Aggregation.BucketExact | crates/ovn-core/src/query/aggregation.rs:748-760 | With ascending boundaries a value goes to the bucket whose bounds take it, and to no other |
| Aggregation.BucketMeans | crates/ovn-core/src/query/aggregation.rs:745-766 | With boundaries that are numbers in ascending order, a document whose field holds a number goes to the bucket whose bounds take that number, the lower one included |
| Aggregation.NoBucket | crates/ovn-core/src/query/aggregation.rs:745-766 | A document whose field holds no number goes to the default bucket |
| Aggregation.BucketIds | crates/ovn-core/src/query/aggregation.rs:768-780 | The output buckets are those with a document, each under its lower boundary with its size |
| Aggregation.DefaultIds | crates/ovn-core/src/query/aggregation.rs:781-794 | The default bucket comes last, under its configured id or `Other`, if it has a document |
| Aggregation.BucketsConserve | crates/ovn-core/src/query/aggregation.rs:745-766 | Whatever the boundaries, the counts add up to the number of documents |
| Aggregation.OutputConserves | crates/ovn-core/src/query/aggregation.rs:768-794 | The buckets that give an output document hold all documents: their sizes add up to the number of documents |
| Aggregation.BucketDocHolds | crates/ovn-core/src/query/aggregation.rs:768-791 | An output document holds the id of its bucket and, below 2^63, its size |
| HmacChain.ChainDetects | crates/ovn-core/src/security/mod.rs:112-127 | A new verifier accepts records drawn from a log exactly when they are a prefix of the log, if the messages that are hashed do not collide |
| HmacChain.TipInjective | crates/ovn-core/src/security/mod.rs:98-109 | A chain tip determines all that was written before it |
| HmacChain.TipsDistinct | crates/ovn-core/src/security/mod.rs:98-133 | The tips of one log are all different |
| HmacChain.AcceptsTips | crates/ovn-core/src/security/mod.rs:112-127 | A verifier accepts exactly the records whose tags are the tips of what they themselves write |
| HmacChain.WrittenMore | crates/ovn-core/src/security/mod.rs:98-109 | Each record is tagged with the code of the tag before it and its payload, the first with the genesis value before it |
| HmacChain.ChainedHmacVerifier.VerifyAndAdvance | crates/ovn-core/src/security/mod.rs:112-127 | Accepts exactly the record whose tag continues the chain, and only then moves the tip |
| HmacChain.ChainedHmacVerifier.Advance | crates/ovn-core/src/security/mod.rs:130-134 | Moves the tip to the tag it returns, which is the tip of the extended log |
| Blob.RunGet | crates/ovn-core/src/storage/blob.rs:45-121 | After any run of puts and other page allocations, an id gives what was last put under it without the zeros at the end |
| Blob.PutGet | crates/ovn-core/src/storage/blob.rs:45-121 | Getting what was put gives the input without trailing zeros, hence the input itself if and only if it does not end in zero |
| Blob.PutKeepsOthers | crates/ovn-core/src/storage/blob.rs:45-83 | Putting a blob changes no other blob |
| Blob.BlobManager.PutBlob | crates/ovn-core/src/storage/blob.rs:45-83 | The loop fills zeroed pages chunk by chunk and records their numbers |
| Blob.BlobManager.GetBlob | crates/ovn-core/src/storage/blob.rs:86-121 | The loops join the pages and pop the zeros at the end |
| Blob.ChunksJoined | crates/ovn-core/src/storage/blob.rs:52-77 | The pages joined are the input followed by the zeros that fill the last page |

## Left out

- RoundTrip: the machine's addresses bound the length of a buffer; lengths are unbounded naturals here, so a sum of a position and a huge declared length does not wrap as it can in the code.
- DecodedWithinLimits: as in the code, a declared length shorter than the buffer does not stop the field decoder from reading on.
- NestedArraysDecode: the machine's stack is not modelled; encoder and decoder recurse once for each array, so deeply nested arrays can exhaust it.
- DecodeVarintBelow: `result |= bits << shift` is a sum here, which is the same because the bits are disjoint up to the last byte.
- FitSegments: the slopes are exact; with the rounded slopes of the code a segment may end elsewhere.
- StoredKeyHits: the images of keys are rounded as in the code; slopes, products and predictions are exact reals, so their rounding is not modelled, nor are saturating casts and 64-bit overflow of a prediction.
- BuildFromSorted: its comment promises a panic on unsorted entries; the code has no such check. On unsorted entries the segments tile the data and nothing more is claimed.
- ClockSafety: runs in which a physical part reaches 2^48 ms or `recv` increments a counter at its maximum are excluded; below 2^48 ms the excluded steps are exactly those that go wrong (`FitsExactly`, `RecvOverflowMovesBack`). `HlcClock::from_persisted` is left out: it can start below the persisted id.
- Commit: the conflict path updates the horizon with the write guard still held and would block; here the whole call is one step. `write_set` and the `committed` and `aborted` flags, which nothing reads, are left out.
- ValidationExact: the read set is the one on the stored transaction. `begin_transaction` hands out a clone, and no caller in the crate records reads on the stored one.
- ReachableInv: a run writes each id in one collection; `ReachableInvExactly` shows that this is exactly what it takes. `record_savepoint_write` has no caller in the crate, so the writes of a run are what its signature intends; the memtable copy of the store is left out.
- MeaningPreserved: that field names do not start with `$` is what the tokenizer guarantees (`TokenizePlain`). The SELECT, INSERT, UPDATE and DELETE forms around a condition are left out.
- WrittenMeaning: conditions written without blanks around operators are covered by `AnyTextMeaning` alone, which does not say which tokens such a text has.
- AnyTextMeaning: of the character classes it is assumed that a blank is not part of any token and that `$` is not a letter.
- NothingLost: counts comparisons; what repeated keys do to the meaning is stated by `MeaningExactly`.
- FieldsSuffice: full-text search and the geographic operators are function parameters of evaluation; JSON integers above the signed 64-bit range are not modelled, and the difference that `values_equal` compares with the machine epsilon is exact.
- KeysIdentify: one way of failing is given (`LongValuesCollide`), for values that the engine does not store; which pairs of longer values collide is not characterised.
- ScalarKeysIdentify: the JSON text of a value that is no scalar is a function parameter, so it is a hypothesis that the second document's texts are below 4 GiB.
- BuildIndexKey: beyond 64 fields the bitmap's shift wraps, as in a release build.
- InsertGet: trie nodes are values; that the code rewrites boxed nodes in place is not captured.
- PutRefinesMap: `remove` is left out (it does not clear a root leaf), and so are `byte_size` as a sum of entry sizes and the promotion between tiers.
- ComputeAccumulator: `$sum` and `$avg` add rounded floats and are left out.
- ExecuteGroup: the random id of each output document is left out, and the text that a group key is parsed back from is a function parameter.
- ExecuteBucket: with no boundary at all a document that has a number makes the code's index arithmetic underflow, so there is a boundary or no such document; the parsing of the stage's configuration is left out.
- ChainDetects: HMAC-SHA256 cannot be injective on all messages, so only the messages hashed in writing the log and in checking the records are assumed not to collide.
- PutBlob: the random id is a parameter; the page cache, flushing and I/O errors are left out.
- The B+ tree, the write-ahead log, memtable, sorted tables, page, header and slot codecs, replication, Node.js bindings, TypeScript wrappers and the command line: plumbing, or formats at fixed offsets.
- Index-assisted `find`, the promotion and deletion of hot entries, and document version numbers: the equivalences one would state do not hold in the code.
- `$project`, `$limit`, `$skip`, `$addFields` and the other pipeline stages: one-line maps and filters. `$sort`: its comparator is not a total order on mixed values.
