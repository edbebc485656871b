# Farmer plot and Kademlia record store, modelled in Dafny

This project models two parts of the Subspace farmer and networking code.

The **plot** (`crates/spartan-farmer/src/plot.rs`) holds the encoded pieces and, for each salt, a tags database (a "commitment"). A background loop serves requests. In each pass it answers every queued read request and then handles at most one write request. The model covers:

- the piece count, which only grows (`fetch_max`);
- `WriteTags` storing `tags[i] ↦ first_index + i` as 8 little-endian bytes;
- the range search of `FindByRange`: wrapping bounds, two scans when a bound overflows, first candidate returned;
- the commitment-status map (InProgress / Created / Aborted) driven by `create_commitment`, `remove_commitment` and `retain_commitments`;
- how `create_commitment` splits `[0, piece_count)` into batches.

The **record store** (`crates/subspace-networking/src/behavior/custom_record_store.rs`) consists of:

- `CustomRecordStore`, which forwards record operations to a record storage and provider operations to a provider storage;
- the storages: `NoRecordStorage`, `GetOnlyRecordStorage`, `MemoryRecordStorage`, `ParityDbRecordStorage`, and the size-bounding `LimitedSizeRecordStorageWrapper`;
- the conversion between `Record` and the persisted `ParityDbRecord`;
- the set-union merge used for Sector-multihash keys.

Files:

| file | module | content |
|---|---|---|
| `bytes.dfy` | `Bytes` | `u64`, wrapping add/sub, little-endian encoding and its round trips |
| `wrappers.dfy` | `Wrappers` | the `Option` type |
| `tags_db.dfy` | `TagsDb` | one tags database as a sorted sequence; `put`, `WriteTags`, the range search and its loops |
| `batches.dfy` | `Batches` | the batch partition of the plot |
| `plot.dfy` | `Plot` | class `Plot`: background loop, front-end operations, commitment statuses |
| `records.dfy` | `Records` | records, provider records, the Parity DB form, the Sector merge |
| `record_storage.dfy` | `RecordStorage` | the record storages, the key heap and the size-limited wrapper |
| `provider_storage.dfy` | `ProviderStorage` | `Vec::retain`, class `MemoryProviderStorage` |
| `custom_record_store.dfy` | `CustomStore` | class `CustomRecordStore` |

Things outside the model enter as parameters:

- **Tag creation.** `crypto::create_tag` of piece `i` is a function `tagOf: nat -> u64`.
- **Codecs and the value getter.** These are fields of a `Codec` value, or a function held by the storage: SCALE encode/decode of byte-string sets and of records, `Multihash::from_bytes`, the Sector multihash code, and the value getter of `GetOnlyRecordStorage`.
- **Parity DB commit.** Whether the commit succeeds is a `commitOk` flag.
- **Plot file write.** Whether the seek and `write_all` of a `WriteEncodings` succeed is a `fileOk` flag.
- **Interleaved removal.** A `remove_commitment(salt)` that runs during `create_commitment(salt)` is an explicit `AbortPoint`.
- **Awaiting a reply.** A front-end operation starts with an idle background loop (`Idle`: no request queued). Awaiting the reply to a request it sends is then modelled as the request being handled at once by the loop's own handler, which `SendAndServe` shows is what one pass does. Every write request a front-end operation sends is also recorded in `issued`.

## Model

| member | source | states |
|---|---|---|
| Bytes.OverflowingSub | crates/spartan-farmer/src/plot.rs:250-251 | the wrapped difference is `a - b`, plus 2^64 exactly when `a < b`, and the flag is set exactly then |
| Bytes.OverflowingAdd | crates/spartan-farmer/src/plot.rs:252-253 | the wrapped sum is `a + b`, minus 2^64 exactly when it reaches 2^64, and the flag is set exactly then |
| Bytes.LeRoundTrip | crates/spartan-farmer/src/plot.rs:367 | `from_le_bytes(to_le_bytes(x)) == x` for every `u64` |
| Bytes.LeBytesRoundTrip | crates/spartan-farmer/src/plot.rs:270 | every 8-byte value is the encoding of the index it decodes to |
| Bytes.ToLeBytes | crates/spartan-farmer/src/plot.rs:367 | `u64::to_le_bytes`: the eight little-endian bytes of an index, as `WriteTags` stores them; `LeRoundTrip` characterises it with `FromLeBytes` |
| Bytes.FromLeBytes | crates/spartan-farmer/src/plot.rs:270 | `u64::from_le_bytes` of a stored 8-byte value, as the range search decodes it; `LeBytesRoundTrip` shows every 8-byte value is an encoding |
| TagsDb.Lookup | crates/spartan-farmer/src/plot.rs:366-367 | the index stored under a tag, if any, read from the database by key (the `get` its lemmas `LookupInsert` and `LookupApplyTags` characterise) |
| TagsDb.Insert | crates/spartan-farmer/src/plot.rs:367 | `put(tag, index)`: the sorted database with the pair added, replacing an earlier pair of the same tag; its meaning is given by `InsertSorted`, `InsertMembers` and `LookupInsert` |
| TagsDb.ApplyTags | crates/spartan-farmer/src/plot.rs:366-368 | the `WriteTags` loop: `tags[i]` is put with index `first_index + i`, in order; its meaning is given by `ApplyTagsSorted`, `LookupApplyTags` and `WrittenIndexReadsBack` |
| TagsDb.InsertSorted | crates/spartan-farmer/src/plot.rs:367 | `put` keeps the database in strictly increasing key order |
| TagsDb.InsertMembers | crates/spartan-farmer/src/plot.rs:367 | `put` adds only the new pair |
| TagsDb.LookupInsert | crates/spartan-farmer/src/plot.rs:367 | after `put(k, v)`, `k` reads `v` and every other key reads as before |
| TagsDb.ApplyTagsSorted | crates/spartan-farmer/src/plot.rs:366-368 | `WriteTags` keeps the database sorted |
| TagsDb.LookupApplyTags | crates/spartan-farmer/src/plot.rs:366-368 | after `WriteTags`, a written tag maps to `first_index + i` for its last position `i` (a later duplicate overwrites), and any other tag keeps its value |
| TagsDb.WrittenIndexReadsBack | crates/spartan-farmer/src/plot.rs:366-368 | a written tag is present, and `from_le_bytes` of its stored bytes is `first_index + i` |
| TagsDb.ApplyTagsConcat | crates/spartan-farmer/src/plot.rs:575-621 | writing two consecutive batches equals writing their concatenation |
| TagsDb.LastIndexOf | crates/spartan-farmer/src/plot.rs:366 | the result is a position of `k` with no later position of `k` |
| TagsDb.Between | crates/spartan-farmer/src/plot.rs:262-300 | the iterator's collection of every entry whose tag lies in `[lo, hi]`, in key order; its meaning is given by `BetweenMembers`, `BetweenHeadIsSmallest`, `BetweenEmptyIff` and `BetweenConcat` |
| TagsDb.WithinRange | crates/spartan-farmer/src/plot.rs:250-253 | a tag lies within wrapping distance `range / 2` of the target, in either direction: the window the search's bounds describe (`RangeArithmetic`) |
| TagsDb.Candidates | crates/spartan-farmer/src/plot.rs:246-305 | the `solutions` vector: with an overflowing bound the tags up to `upper` and then those from `lower` on, otherwise the tags in `[lower, upper]`; `CandidatesWithinRange` proves it holds exactly the stored entries within range, and `CollectSolutions` that the loops compute it |
| TagsDb.BetweenConcat | crates/spartan-farmer/src/plot.rs:288-303 | filtering a sequence by tag range distributes over concatenation |
| TagsDb.BetweenMembers | crates/spartan-farmer/src/plot.rs:288-303 | a solution is collected from `[lo, hi]` exactly when some entry has a tag in `[lo, hi]` and decodes to it |
| TagsDb.BetweenHeadIsSmallest | crates/spartan-farmer/src/plot.rs:288-303 | on a sorted database the first collected solution has the smallest tag in `[lo, hi]` and comes from an entry |
| TagsDb.BetweenEmptyIff | crates/spartan-farmer/src/plot.rs:288-303 | nothing is collected exactly when no tag lies in `[lo, hi]` |
| TagsDb.AtMostOneOverflow | crates/spartan-farmer/src/plot.rs:250-253 | the two bounds never both overflow |
| TagsDb.RangeArithmetic | crates/spartan-farmer/src/plot.rs:250-287 | a tag is within wrapping distance `range/2` of the target exactly when it lies in `[lower, upper]` (no overflow), or in `≤ upper` or `≥ lower` (overflow) |
| TagsDb.CandidatesWithinRange | crates/spartan-farmer/src/plot.rs:262-303 | the collected candidates are exactly the stored tags within wrapping distance `range/2` of the target |
| TagsDb.FindWithoutOverflow | crates/spartan-farmer/src/plot.rs:288-312 | without overflow the reply is the smallest stored tag in `[lower, upper]`, from a stored entry; it is None exactly when there is none |
| TagsDb.FindWithOverflow | crates/spartan-farmer/src/plot.rs:262-287 | with an overflowing bound the reply is the smallest tag `≤ upper` if any, else the smallest tag `≥ lower`; it is None exactly when neither exists |
| TagsDb.Seek | crates/spartan-farmer/src/plot.rs:277 | `iter.seek(key)` stops at the first position whose tag is at least `key` |
| TagsDb.CollectSolutions | crates/spartan-farmer/src/plot.rs:246-305 | the iterator loops collect exactly the specified candidate sequence |
| TagsDb.CollectUpTo | crates/spartan-farmer/src/plot.rs:289-302 | the loop that stops at the first tag above `upper` collects every entry in `[lower, upper]` after `start` |
| TagsDb.CollectToEnd | crates/spartan-farmer/src/plot.rs:277-287 | the loop to the end collects every entry after `start` |
| TagsDb.AppendOne | crates/spartan-farmer/src/plot.rs:293-298 | pushing an in-range entry extends the collected prefix by its solution |
| TagsDb.AllAboveIsEmpty | crates/spartan-farmer/src/plot.rs:293-300 | on a sorted database whose first tag is above `hi`, nothing lies in range |
| TagsDb.NoneBeyond | crates/spartan-farmer/src/plot.rs:299-300 | breaking at the first tag above `upper` misses no candidate |
| TagsDb.NoneBefore | crates/spartan-farmer/src/plot.rs:277 | seeking past the tags below `lower` misses no candidate |
| TagsDb.FindByRange | crates/spartan-farmer/src/plot.rs:246-312 | the reply of a `FindByRange` request: the first candidate, or None; characterised by `FindWithoutOverflow` and `FindWithOverflow` |
| Batches.StartsInPlot | crates/spartan-farmer/src/plot.rs:575 | every batch start of `(0..piece_count).step_by(BATCH_SIZE)` lies in `[from, piece_count)` |
| Batches.BatchStarts | crates/spartan-farmer/src/plot.rs:575 | `(0..piece_count).step_by(BATCH_SIZE)`: the batch starts in ascending order; `StartsInPlot`, `StartsStep` and `BatchesCover` give its meaning |
| Batches.Range | crates/spartan-farmer/src/plot.rs:366 | the indices `[a, b)` in ascending order |
| Batches.BatchLen | crates/spartan-farmer/src/plot.rs:581 | `pieces_to_process`: the batch runs to `batch_start + BATCH_SIZE` or to the end of the plot, whichever comes first; `BatchesCover` shows the lengths tile the plot |
| Batches.StartsStep | crates/spartan-farmer/src/plot.rs:575 | batches start at 0 (or `from`) and consecutive starts are `BATCH_SIZE` apart |
| Batches.BatchesCover | crates/spartan-farmer/src/plot.rs:575-581 | the batches of size `min(start + BATCH_SIZE, piece_count) - start` tile `[0, piece_count)` exactly, in order, with no gap or overlap |
| Plot.Max | crates/spartan-farmer/src/plot.rs:341-344 | `fetch_max` keeps the larger of the two values |
| Plot.WriteEffect | crates/spartan-farmer/src/plot.rs:323-399 | the effect of each write request on the background state: the piece count never decreases and only a `WriteEncodings` whose seek and write succeed raises it, to `max(old, first + n)`; a `WriteEncodings` touches no database; `WriteTags` applies its tags to the salt's database, finish marks the salt, remove drops its database and mark; `HandleWrite` is proved against it |
| Plot.Replies | crates/spartan-farmer/src/plot.rs:190-313 | one reply per queued read request |
| Plot.ReplyTo | crates/spartan-farmer/src/plot.rs:196-312 | the reply to one read request: a `FindByRange` is answered with the range search of its salt's database, a file read with an opaque reply; `HandleRead` is proved against it |
| Plot.DbIn | crates/spartan-farmer/src/plot.rs:237 | `get_or_create_db(salt)` as read: a salt without a database reads as the empty database |
| Plot.PlotTags | crates/spartan-farmer/src/plot.rs:583-590 | the tags of the pieces `[a, b)`, one per piece |
| Plot.PlotTagsConcat | crates/spartan-farmer/src/plot.rs:575-590 | the tags of `[a, b)` followed by those of `[b, c)` are the tags of `[a, c)` |
| Plot.TagRequests | crates/spartan-farmer/src/plot.rs:575-621 | the `WriteTags` requests of commitment creation, one per batch, each with its batch's first index and tags; `TagRequestsFollowBatches` and `TagRequestsTilePlot` show they assign every piece once, in order |
| Plot.TagBatchStep | crates/spartan-farmer/src/plot.rs:575-621 | tagging `[b, c)` after `[0, b)` gives the same database as tagging `[0, c)` |
| Plot.TagRequestsFollowBatches | crates/spartan-farmer/src/plot.rs:575-621 | the pieces assigned by the `WriteTags` requests follow the batch partition |
| Plot.TagRequestsTilePlot | crates/spartan-farmer/src/plot.rs:575-621 | commitment creation assigns every piece of `[0, piece_count)` exactly once, in order |
| Plot.Plot.Open | crates/spartan-farmer/src/plot.rs:150-173 | the piece count starts at `plot_size / PIECE_SIZE`; the plot is empty exactly when the file is smaller than one piece; every commitment found on disk starts Created |
| Plot.Plot.IsEmpty | crates/spartan-farmer/src/plot.rs:433-435 | `is_empty`: the plot holds no piece; `Open` proves it exactly when the file is shorter than one piece, and a `WriteMany` of a non-empty list whose file write succeeds leaves the plot non-empty |
| Plot.Plot.HandleRead | crates/spartan-farmer/src/plot.rs:231-312 | a `FindByRange` request is answered with the specified range-search result for its salt's database |
| Plot.Plot.HandleWrite | crates/spartan-farmer/src/plot.rs:323-399 | the state becomes `WriteEffect` of the old one: `WriteEncodings` raises the piece count to `max(old, first + n)` only when the file write succeeds, and the reply is an error exactly when it fails; `WriteTags` applies its tags to its salt's database and keeps every database sorted; finish and remove update the commitment set and databases |
| Plot.Plot.Cycle | crates/spartan-farmer/src/plot.rs:179-192 | every queued read is answered against the databases as they were before the pass, then at most the first write is handled, with its reply (an error exactly for a failed file write); the read queue ends empty; `did_nothing` holds exactly when both queues were empty |
| Plot.Plot.Send | crates/spartan-farmer/src/plot.rs:519-536 | a write request is appended to the write queue and recorded as sent |
| Plot.Plot.Ask | crates/spartan-farmer/src/plot.rs:478-495 | a read request is appended to the read queue |
| Plot.Plot.SendAndServe | crates/spartan-farmer/src/plot.rs:179-192 | sending a write to an idle background loop and running one pass records it, applies exactly its handler's effect, returns its reply and leaves both queues empty: the effect `Issue` models |
| Plot.Plot.Issue | crates/spartan-farmer/src/plot.rs:520-545 | with no request queued ahead, a sent write request is recorded, its effect applied and its reply returned |
| Plot.Plot.FindByRange | crates/spartan-farmer/src/plot.rs:471-506 | the reply is the range-search result over the salt's database |
| Plot.Plot.WriteMany | crates/spartan-farmer/src/plot.rs:510-546 | an empty list returns Ok and sends nothing; otherwise one `WriteEncodings` is sent; the result is Ok exactly when the list is empty or the file write succeeds; on success the piece count becomes `max(old, first + n)` and the plot is no longer empty; on failure the piece count is unchanged; it never decreases |
| Plot.Plot.RemoveCommitment | crates/spartan-farmer/src/plot.rs:700-745 | an InProgress or Aborted salt becomes Aborted and nothing is sent; a Created or absent salt loses its entry and a remove request is sent, dropping its database |
| Plot.Plot.RemoveUntracked | crates/spartan-farmer/src/plot.rs:700-745 | removing a salt without a status entry sends exactly one remove request, drops its database and finished mark, and leaves the statuses alone |
| Plot.Plot.RemoveEach | crates/spartan-farmer/src/plot.rs:559-561 | one remove request per dropped salt, each salt exactly once in some order, and the databases and finished marks of exactly those salts are dropped |
| Plot.Plot.RetainCommitments | crates/spartan-farmer/src/plot.rs:549-563 | exactly the entries whose salt is listed remain, with their statuses unchanged; the requests sent are one removal per dropped salt, each dropped salt exactly once |
| Plot.RemovalsMembers | crates/spartan-farmer/src/plot.rs:559-561 | the removals sent for a list of salts are one per listed salt, and every one is a removal of a listed salt |
| Plot.Plot.AbortCheck | crates/spartan-farmer/src/plot.rs:576-580 | the check at the head of a batch stops the loop exactly when an interleaved removal marked the in-progress commitment Aborted; nothing is sent and no database changes |
| Plot.Plot.TagBatch | crates/spartan-farmer/src/plot.rs:581-621 | one batch sends the next `WriteTags` request of the plot's sequence, and the salt's database becomes the one with the tags of every piece up to the batch end applied |
| Plot.Plot.WriteBatches | crates/spartan-farmer/src/plot.rs:575-622 | without an abort every batch is written and the salt's database becomes the old one with every piece's tag applied; an abort before batch `n` stops the loop exactly when `n` is a real batch |
| Plot.Plot.CheckAborted | crates/spartan-farmer/src/plot.rs:624-640 | an Aborted commitment (or one a removal interleaved at this point) loses its entry, and exactly one remove request is sent; otherwise nothing changes |
| Plot.Plot.CreateCommitment | crates/spartan-farmer/src/plot.rs:566-698 | a Created salt gives Ok and nothing changes; otherwise an interleaved removal gives `Err("Commitment creation was aborted")` with the entry and database removed; without one, every piece's tag is written, the commitment is finished and the status is Created |
| Records.ToParityDb | crates/subspace-networking/src/behavior/custom_record_store.rs:331-339 | keeps key and value; a publisher is kept exactly when there is one |
| Records.FromParityDb | crates/subspace-networking/src/behavior/custom_record_store.rs:341-357 | keeps key and value, sets no expiry; a publisher is kept exactly when there is one |
| Records.RecordRoundTrip | crates/subspace-networking/src/behavior/custom_record_store.rs:331-357 | Record → ParityDbRecord → Record keeps key, value and publisher and clears `expires` |
| Records.ParityDbRoundTrip | crates/subspace-networking/src/behavior/custom_record_store.rs:331-357 | ParityDbRecord → Record → ParityDbRecord is the identity |
| Records.Merge | crates/subspace-networking/src/behavior/custom_record_store.rs:248-288 | the result has the new record's key, publisher and expiry; it is the new record unless an old record exists, its key is a Sector multihash and both values decode as sets, in which case its value encodes the union |
| Records.MergeApplies | crates/subspace-networking/src/behavior/custom_record_store.rs:252-275 | the merge combines sets exactly when an old record exists, its key is a Sector multihash and both values decode as sets; `Merge` keeps the new record otherwise |
| Records.MergeKeepsBoth | crates/subspace-networking/src/behavior/custom_record_store.rs:259-281 | with a lossless set codec, the merged value decodes to exactly the union of the old and new sets |
| Records.MergeIdempotent | crates/subspace-networking/src/behavior/custom_record_store.rs:248-288 | merging the same Sector record again over the merged one changes nothing |
| RecordStorage.NoRecordStorageKeepsNothing | crates/subspace-networking/src/behavior/custom_record_store.rs:297-313 | `put` is Ok, `get` is never Some, and no records are listed, whatever was put or removed |
| RecordStorage.NoRecordStorage.Get | crates/subspace-networking/src/behavior/custom_record_store.rs:297-299 | the stub finds nothing (see `NoRecordStorageKeepsNothing`) |
| RecordStorage.NoRecordStorage.Put | crates/subspace-networking/src/behavior/custom_record_store.rs:301-305 | the stub accepts every record and keeps none (see `NoRecordStorageKeepsNothing`) |
| RecordStorage.NoRecordStorage.Remove | crates/subspace-networking/src/behavior/custom_record_store.rs:307-309 | removal changes nothing |
| RecordStorage.NoRecordStorage.Records | crates/subspace-networking/src/behavior/custom_record_store.rs:311-313 | no records are listed |
| RecordStorage.GetOnlyRecordStorage.Get | crates/subspace-networking/src/behavior/custom_record_store.rs:179-189 | None exactly for a non-multihash key or a missing value; otherwise the getter's value under the same key, with no publisher and no expiry |
| RecordStorage.GetOnlyRecordStorage.Put | crates/subspace-networking/src/behavior/custom_record_store.rs:191-194 | always `Err(MaxRecords)` |
| RecordStorage.GetOnlyRecordStorage.Remove | crates/subspace-networking/src/behavior/custom_record_store.rs:196-198 | removal changes nothing (see `GetOnlyStoresNothing`) |
| RecordStorage.GetOnlyRecordStorage.Records | crates/subspace-networking/src/behavior/custom_record_store.rs:200-203 | no records are listed |
| RecordStorage.GetOnlyStoresNothing | crates/subspace-networking/src/behavior/custom_record_store.rs:191-203 | puts are refused, nothing is listed, and removals change no read |
| RecordStorage.MemoryRecordStorage.Get | crates/subspace-networking/src/behavior/custom_record_store.rs:215-217 | Some exactly for a stored key, and then a listed record under that key |
| RecordStorage.MemoryRecordStorage.Put | crates/subspace-networking/src/behavior/custom_record_store.rs:219-229 | always Ok; `get(r.key)` then returns `r`, replacing any earlier record, and every other key reads as before |
| RecordStorage.MemoryRecordStorage.Remove | crates/subspace-networking/src/behavior/custom_record_store.rs:231-235 | `get(k)` then returns None and every other key reads as before |
| RecordStorage.MemoryRecordStorage.Records | crates/subspace-networking/src/behavior/custom_record_store.rs:237-243 | the stored records, one per key |
| RecordStorage.ParityDbRecordStorage.Get | crates/subspace-networking/src/behavior/custom_record_store.rs:402-433 | Some exactly when the key is stored and its bytes decode; the record has no expiry |
| RecordStorage.ParityDbRecordStorage.Stored | crates/subspace-networking/src/behavior/custom_record_store.rs:440-441 | the merged record keeps the new record's key |
| RecordStorage.ParityDbRecordStorage.Put | crates/subspace-networking/src/behavior/custom_record_store.rs:435-448 | Ok even when the commit fails (then nothing changes); on success the encoded merge of the new and stored record is saved under the key and reads back as that merge without expiry; other keys read as before |
| RecordStorage.ParityDbRecordStorage.Remove | crates/subspace-networking/src/behavior/custom_record_store.rs:450-452 | on a successful commit the key reads as absent; other keys read as before |
| RecordStorage.FarthestExists | crates/subspace-networking/src/behavior/custom_record_store.rs:560 | a non-empty key set has a key of largest distance |
| RecordStorage.RecordBinaryHeap.Size | crates/subspace-networking/src/behavior/custom_record_store.rs:535-536 | the heap never holds more than its limit |
| RecordStorage.RecordBinaryHeap.Insert | crates/subspace-networking/src/behavior/custom_record_store.rs:560 | below the limit, or for a present key, nothing is evicted; a new key into a full heap evicts one key of largest distance, which may be the new key (the eviction order is assumed: see "Left out") |
| RecordStorage.RecordBinaryHeap.Remove | crates/subspace-networking/src/behavior/custom_record_store.rs:574 | the key leaves the heap |
| RecordStorage.SeedStep | crates/subspace-networking/src/behavior/custom_record_store.rs:531-533 | each distinct key grows the heap until it is full |
| RecordStorage.SeedHeap | crates/subspace-networking/src/behavior/custom_record_store.rs:528-533 | after seeding, the heap holds `min(#records, limit)` of the stored keys, and all of them when they fit |
| RecordStorage.LimitedSizeRecordStorageWrapper.constructor | crates/subspace-networking/src/behavior/custom_record_store.rs:527-545 | the inner storage is kept as is and the heap is seeded with its keys |
| RecordStorage.LimitedSizeRecordStorageWrapper.Get | crates/subspace-networking/src/behavior/custom_record_store.rs:551-553 | reads come from the inner storage |
| RecordStorage.LimitedSizeRecordStorageWrapper.Put | crates/subspace-networking/src/behavior/custom_record_store.rs:555-569 | the record is put into the inner storage and its key into the heap; below the limit, or for a key already held, nothing is evicted; a new key into a full heap evicts exactly one key of largest distance (possibly the new one), which leaves both the heap and the inner storage; a storage holding exactly the heap's keys keeps doing so, so it never exceeds the limit |
| RecordStorage.LimitedSizeRecordStorageWrapper.Remove | crates/subspace-networking/src/behavior/custom_record_store.rs:571-575 | the key leaves both the inner storage and the heap |
| RecordStorage.LimitedSizeRecordStorageWrapper.Records | crates/subspace-networking/src/behavior/custom_record_store.rs:577-579 | the inner storage's records |
| ProviderStorage.Retain | crates/subspace-networking/src/behavior/custom_record_store.rs:140 | never longer than the input |
| ProviderStorage.RetainCounts | crates/subspace-networking/src/behavior/custom_record_store.rs:140 | exactly the records of the given provider are removed; every other record stays, as often as it was there |
| ProviderStorage.RetainConcat | crates/subspace-networking/src/behavior/custom_record_store.rs:140 | retain works piecewise, so the kept records keep their order |
| ProviderStorage.RetainNothingToRemove | crates/subspace-networking/src/behavior/custom_record_store.rs:140 | a list without records of that provider is unchanged |
| ProviderStorage.GatherMembers | crates/subspace-networking/src/behavior/custom_record_store.rs:126-133 | the concatenated lists hold exactly the records stored under the keys of the order |
| ProviderStorage.MemoryProviderStorage.AddProvider | crates/subspace-networking/src/behavior/custom_record_store.rs:109-120 | the record is appended to its key's list (no dedupe), other keys are untouched, and the result is Ok |
| ProviderStorage.MemoryProviderStorage.Providers | crates/subspace-networking/src/behavior/custom_record_store.rs:122-124 | the list stored under the key, or an empty list for an absent key |
| ProviderStorage.MemoryProviderStorage.Provided | crates/subspace-networking/src/behavior/custom_record_store.rs:126-133 | the stored lists concatenated in an iteration order that lists every key once, so each record appears as often as it is stored; a record is returned exactly when it is stored under some key |
| ProviderStorage.MemoryProviderStorage.RemoveProvider | crates/subspace-networking/src/behavior/custom_record_store.rs:135-141 | the key's list is retained without that provider; other keys, and an absent key, are left alone |
| CustomStore.CustomRecordStore.Get | crates/subspace-networking/src/behavior/custom_record_store.rs:45-47 | the record storage's answer |
| CustomStore.CustomRecordStore.constructor | crates/subspace-networking/src/behavior/custom_record_store.rs:30-37 | the store holds the two given storages and is valid when its record storage is |
| CustomStore.CustomRecordStore.Put | crates/subspace-networking/src/behavior/custom_record_store.rs:49-51 | the record storage's put; the provider storage is unchanged |
| CustomStore.CustomRecordStore.Remove | crates/subspace-networking/src/behavior/custom_record_store.rs:53-55 | the record storage's remove; the provider storage is unchanged |
| CustomStore.CustomRecordStore.Records | crates/subspace-networking/src/behavior/custom_record_store.rs:57-59 | the record storage's records |
| CustomStore.CustomRecordStore.AddProvider | crates/subspace-networking/src/behavior/custom_record_store.rs:61-63 | the provider storage's append; the record storage is unchanged |
| CustomStore.CustomRecordStore.Providers | crates/subspace-networking/src/behavior/custom_record_store.rs:65-67 | the provider storage's list for the key |
| CustomStore.CustomRecordStore.Provided | crates/subspace-networking/src/behavior/custom_record_store.rs:69-71 | the provider storage's records: its lists concatenated in an order listing every key once, with every multiplicity kept |
| CustomStore.CustomRecordStore.RemoveProvider | crates/subspace-networking/src/behavior/custom_record_store.rs:73-75 | the provider storage's removal; the record storage is unchanged |

## Left out

- **File contents.** Plot file reads and writes (`read`, `read_pieces`, `ReadEncoding`, `ReadEncodings`, the bytes of `WriteEncodings`) are file I/O. Only the piece count is modelled, and a file read is answered with an opaque `FileRead` reply.
- **Runtime machinery.**
  - The tokio runtime, the channels and their capacities, the throttle on the `any_requests` channel, the wait used when a pass did nothing, and the shutdown when a channel closes are all left out.
  - `Drop for Inner`, `WeakPlot` and `downgrade` concern concurrency and lifetime, not sequential logic.
- **Root block storage.** `get_last_root_block` and `set_last_root_block` (RocksDB plus serde_json) are storage I/O.
- **The `Commitments` module** is not part of this model.
  - It is modelled as a map from salt to tags database plus the set of finished salts.
  - Its open failures are left out: `get_or_create_db`, finish or remove failing. In the source these make the loop `continue` and drop the reply sender.
  - A RocksDB `put` error in the `WriteTags` handler panics through `.unwrap().unwrap()` (plot.rs:365-374). The model's `put` never fails.
  - The read side's `get_or_create_db` (plot.rs:237) creates an empty database for a salt that has none. The model reads such a salt as empty (`DbIn`) and creates nothing. This is not observable in the model, because every later read of that salt also sees an empty database.
- **Database order.** RocksDB orders keys as bytes. Tags are 8-byte big-endian keys, so byte order is their numeric order, and the model sorts by the numeric tag.
- **`BATCH_SIZE` and `PIECE_SIZE`.** Their definitions in `lib.rs` are not part of this model. The constants here are placeholders, and the batch lemmas hold for any positive batch size.
- **Overflow panics.** In a debug build, `u64` overflow panics; in a release build it wraps.
  - For writes, the model requires `first_index + encodings.len()` and the `first_index..` counter to stay below 2^64 (`ValidWrite`).
  - It computes `batch_start + BATCH_SIZE` (plot.rs:581) in unbounded integers. A plot whose piece count lies within `BATCH_SIZE` of 2^64 overflows there in the source, but the model's commitment creation still tags it.
  - It leaves out the seek offsets `index * PIECE_SIZE` and `first_index * PIECE_SIZE` (plot.rs:202, 218, 331), which overflow for an index of 2^64 / PIECE_SIZE or more. `ValidWrite` does not exclude such indices.
- **Interleavings.** Only an interleaved `remove_commitment` of the same salt is modelled, at one of the points in `AbortPoint`. Other concurrent callers of the status map are left out.
- Plot.Plot.Issue: requires an idle background loop (`Idle`), and so do the front-end operations that call it. Requests that other concurrent callers queued ahead, which the FIFO channels would serve first, are not modelled; `Send`, `Ask` and `Cycle` model the queues themselves.
- Plot.Plot.WriteBatches: after an abort, the tags already written for the salt and the requests already sent are not stated; only the status and the other salts' databases are.
- Plot.Plot.CreateCommitment: on the aborted path only the last request sent (the removal) is stated, not the earlier batches.
- Plot.Plot.CreateCommitment: its I/O error returns are not modelled: a failing `read_pieces` (plot.rs:582), a failing `WriteTags` send or reply (plot.rs:606-621) and a failing finish send or reply (plot.rs:653-675). In the source each returns Err leaving the status InProgress, so a later `remove_commitment` only marks it Aborted; only a `retain_commitments` that omits the salt then removes its database. The model's creation never fails that way.
- **Tag creation and parallelism.** `crypto::create_tag` and its rayon parallelism are the given function `tagOf`.
- **Peer ids.** `PeerId` is held as its bytes, so `PeerId::from_bytes` cannot fail. The source's `expect` there would fire only on bytes that `put` never writes.
- Records.Merge: requires the old record's key to parse as a multihash. The source panics there (`expect`, custom_record_store.rs:255-256), so a put over an existing record whose key is not a multihash is excluded rather than modelled as a panic; `Records.MergeApplies` and `RecordStorage.ParityDbRecordStorage.Stored` carry the same requirement.
- RecordStorage.ParityDbRecordStorage.Put: for the same reason it requires the record already stored under the key, if any, to have a key that parses as a multihash; the put that panics is not modelled.
- **Codecs.** SCALE and multihash parsing are given functions. Their round trips are stated as hypotheses (`SetCodecRoundTrips`, `RecordCodecRoundTrips`) where a lemma needs them.
- **Parity DB iteration.** `ParityDbRecordStorage::records` (`ParityDbRecordIterator` and its stop-on-decode-error behaviour) and read errors from `db.get` are left out; a failed read is treated like an absent key. `ParityDbRecordStorage::new` opens a database on disk.
- **`RecordBinaryHeap`** is not part of this model. Its XOR distance to the local peer id is the given function `distance`. The model assumes that inserting a key already present changes nothing.
- RecordStorage.RecordBinaryHeap.Insert: that a full heap evicts a key of largest distance is an assumed contract of the heap, whose code is not shown; only the bounded size is what the wrapper relies on. `RecordStorage.LimitedSizeRecordStorageWrapper.Put` inherits this assumption.
- **Generic storages.**
  - `LimitedSizeRecordStorageWrapper` and `CustomRecordStore` are generic over their storages. The model fixes one instantiation: `MemoryRecordStorage` (the wrapper's default) and `MemoryProviderStorage`.
  - The stubs `NoRecordStorage` and `GetOnlyRecordStorage` are modelled on their own, as values.
- RecordStorage.LimitedSizeRecordStorageWrapper.Put: the memory storage's `put` never fails, so the wrapper's propagation of an inner `put` error (heap untouched) is not exercised.
- **Logging.** Logging calls (`trace!`, `debug!`, `info!`, `error!`) are left out.
