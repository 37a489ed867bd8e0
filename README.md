# FastMonitoringService core, modelled in Dafny

This project models the parts of the CMSSW fast monitoring service
(`FastMonitoringService`) that have statable behaviour:

- the **`Encoding`** struct, a two-way table between opaque state handles
  (descriptor addresses) and small integer codes. Codes `0 .. reserved-1` are
  handed out in call order by `updateReserved`. Codes from `reserved` upward
  are handed out by `update`. `completeReservedWithDummies` fills the
  remaining reserved slots with placeholder descriptors.
- **`shouldWriteFiles`**, the decision whether a lumisection's output files
  are written.
- the **snapshot / fast-path CSV cadence** of the monitoring thread's loop
  `dowork`.

Layout:

- `wrappers.dfy`: `Option`, standing for a nullable out-pointer.
- `encoding_model.dfy` (module `EncodingModel`): the table as a value
  (`Table`), one function per member of `Encoding`, and the lemmas about
  them: call-order codes, dummy filling, and the encode/decode round trip
  under the setup protocol.
- `cadence_model.dfy` (module `CadenceModel`): the outputs of `n` passes of
  the loop as a log (`Run`), and the lemmas about it: one snapshot per pass,
  exactly which CSV writes happen, and composition of runs.
- `fast_monitoring.dfy` (module `FastMonitoring`): class `Encoding`, whose
  methods update `quickReference`, `decoder` and the counters in place and
  are proved against `EncodingModel`; class `FastMonitoringService` with
  `ShouldWriteFiles` and the loop `DoWork`, proved against `CadenceModel.Run`.

Handles are a type parameter `A` with equality; nothing about addresses is
assumed beyond identity. The placeholder descriptors that the constructor
allocates (`dummiesForReserved_ + i`) are given to the constructor as a
sequence of `reserved` distinct handles. That they differ from every real
handle is an assumption the source does not state. The round-trip lemma does
not need it.

Three consequences of the code that the model makes explicit:

- Reserved handles get the codes `0 .. R-1` (`updateReserved` passes
  `currentReserved_` before raising it, lines 87-103 of
  `FastMonitoringService.h`). Code 0 is therefore both the code of the first
  reserved handle and the answer `encode` gives for an unknown handle
  (`EncodingModel.UnknownSharesCodeWithFirstReserved`).
- A handle does not keep its code for the whole job: `update` on a handle
  that is already registered overwrites its code (lines 109-114,
  `EncodingModel.UpdateEffect`).
- An aborted lumisection is never written, even in empty-lumisection mode
  (line 184, `FastMonitoring.FastMonitoringService.ShouldWriteFiles`).

`fillReserved` appends when `decoder_` is no longer than `i`, and otherwise
writes slot `currentReserved_`, not slot `i` (line 98). From
`updateReserved` the two agree, since there `i == currentReserved_`; the
commented-out call in the constructor (line 79) suggests completion was once
meant to come first, and then `updateReserved` takes the overwrite branch
and replaces the dummy in its own slot
(`EncodingModel.UpdateReservedOverFilledSlot`,
`EncodingModel.ReservedAfterCompletionReplacesDummy`); the replaced dummy
still encodes to that code and now decodes to the new handle. The write
differs from slot `i` only when the completion loop itself reaches the
overwrite branch: after `update` calls
(`EncodingModel.CompleteAfterUpdatesMisplacesDummies`) or on a second
completion, which turns `[d0, d1, d2]` into `[d2, d1, d2]`
(`EncodingModel.SecondCompletionRewritesSlot`). The model keeps the code as
written.

When completion comes right after at most `reserved` `updateReserved`
calls, as the constructor's commented-out call would have it, the table
stays consistent under every later mix of `updateReserved` and `update` on
handles that are not dummies, provided `updateReserved` is called no more
often than reserved slots are left: each `updateReserved` then overwrites a
slot that still holds its own dummy, and every real handle keeps its round
trip (`EncodingModel.PostComplete`, `EncodingModel.CallsKeepPostComplete`,
`EncodingModel.PostCompleteRoundTrip`). Only the replaced dummies lose
theirs.

## Model

| member | source | states |
|---|---|---|
| `FastMonitoring.Encoding.constructor` | EventFilter/Utilities/interface/FastMonitoringService.h:75-80 | a new encoding has `reserved == current == res`, `currentReserved == 0`, and an empty map and decoder |
| `FastMonitoring.Encoding.Encode` | EventFilter/Utilities/interface/FastMonitoringService.h:87-90 | a handle that was never registered encodes to 0; a registered one encodes to its stored code; nothing changes |
| `FastMonitoring.Encoding.Decode` | EventFilter/Utilities/interface/FastMonitoringService.h:91 | the handle stored at `index`, which is the handle registered under that code while the table round-trips |
| `FastMonitoring.Encoding.VecSize` | EventFilter/Utilities/interface/FastMonitoringService.h:115-117 | the decoder length, above the code of every registered handle while the table round-trips |
| `FastMonitoring.Encoding.FillReserved` | EventFilter/Utilities/interface/FastMonitoringService.h:92-99 | the handle now has code `i`, other codes are unchanged; the decoder grows by the handle when it is no longer than `i`, and otherwise slot `currentReserved` is overwritten and the length stays the same |
| `FastMonitoring.Encoding.UpdateReserved` | EventFilter/Utilities/interface/FastMonitoringService.h:100-103 | the handle gets the old `currentReserved` as its code, `currentReserved` grows by one, and the handle is appended while the decoder is aligned with it, or else written over slot `currentReserved` |
| `FastMonitoring.Encoding.CompleteReservedWithDummies` | EventFilter/Utilities/interface/FastMonitoringService.h:104-108 | `currentReserved` is unchanged; when the decoder holds exactly the reserved handles registered so far, every free slot `i` gets dummy `i` with code `i`, earlier slots are kept, and `VecSize() == reserved` |
| `FastMonitoring.Encoding.Update` | EventFilter/Utilities/interface/FastMonitoringService.h:109-114 | the handle now encodes to the old `current`, overwriting any earlier code; `current` grows by one; the decoder grows by exactly that handle; other codes are unchanged |
| `EncodingModel.Fresh` | EventFilter/Utilities/interface/FastMonitoringService.h:75-80 | a new table has no registered handle (so it round-trips), an empty decoder, `currentReserved == 0` and `current == reserved == res` |
| `EncodingModel.Encode` | EventFilter/Utilities/interface/FastMonitoringService.h:87-90 | 0 for an unregistered handle, the stored code otherwise; in a round-tripping table that code indexes the decoder at the handle |
| `EncodingModel.Decode` | EventFilter/Utilities/interface/FastMonitoringService.h:91 | an entry of the decoder; in a round-tripping table, the handle registered under `index` |
| `EncodingModel.VecSize` | EventFilter/Utilities/interface/FastMonitoringService.h:115-117 | in a round-tripping table, larger than every registered handle's code |
| `EncodingModel.FillReservedEffect` | EventFilter/Utilities/interface/FastMonitoringService.h:92-99 | `fillReserved(a, i)`: `a` encodes to `i`, is added to the registered handles, and every other handle keeps its code; the decoder is appended to when no longer than `i`, else slot `currentReserved` becomes `a`; the counters stay |
| `EncodingModel.UpdateReserved` | EventFilter/Utilities/interface/FastMonitoringService.h:100-103 | the handle encodes to the old `currentReserved`, which grows by one, and joins the registered handles; the handle is appended to the decoder when the decoder is no longer than `currentReserved`, and otherwise slot `currentReserved` becomes the handle |
| `EncodingModel.CompleteFromKeeps` | EventFilter/Utilities/interface/FastMonitoringService.h:104-108 | the loop from index `i` keeps the counters and every registered handle, never shortens the decoder, and is the identity once `i >= reserved` |
| `EncodingModel.CompleteFromRegistersDummies` | EventFilter/Utilities/interface/FastMonitoringService.h:104-108 | the loop from index `i` registers every dummy `i .. reserved-1` |
| `EncodingModel.CompleteFromAppends` | EventFilter/Utilities/interface/FastMonitoringService.h:92-108 | from slot `i` with the decoder `i` long, the loop appends dummies `i .. reserved-1` in order |
| `EncodingModel.CompleteFromRegisters` | EventFilter/Utilities/interface/FastMonitoringService.h:92-108 | the handles registered after the loop from `i` are exactly those registered before plus dummies `i .. reserved-1` |
| `EncodingModel.CompleteFromKeepsCode` | EventFilter/Utilities/interface/FastMonitoringService.h:92-108 | a registered handle that is not one of the dummies the loop visits keeps its code |
| `EncodingModel.CompleteFromDummyCode` | EventFilter/Utilities/interface/FastMonitoringService.h:92-108 | with distinct dummies, the loop from `i` gives dummy `k` the code `k` for every `k` from `i` to `reserved-1` |
| `EncodingModel.CompleteReservedWithDummies` | EventFilter/Utilities/interface/FastMonitoringService.h:104-108 | completion keeps the counters and every registered handle, and registers every dummy from `currentReserved` up |
| `EncodingModel.Update` | EventFilter/Utilities/interface/FastMonitoringService.h:109-114 | the handle encodes to the old `current`, `current` grows by one, the decoder grows by exactly the handle, and the handle joins the registered ones |
| `EncodingModel.UnknownSharesCodeWithFirstReserved` | EventFilter/Utilities/interface/FastMonitoringService.h:87-103 | after one `updateReserved`, the registered handle and any unregistered handle both encode to 0 |
| `EncodingModel.UpdateEffect` | EventFilter/Utilities/interface/FastMonitoringService.h:109-114 | `update(a)` leaves `reserved`, `currentReserved` and every other handle's code alone, and a different earlier code of `a` is lost |
| `EncodingModel.ReservedCodesInCallOrder` | EventFilter/Utilities/interface/FastMonitoringService.h:92-103 | successive `updateReserved` calls append the handles to the decoder in call order, raise `currentReserved` by their number, keep other codes, and give distinct handles the codes `currentReserved + k` |
| `EncodingModel.FreshReservedCodes` | EventFilter/Utilities/interface/FastMonitoringService.h:75-103 | on a fresh encoding, the k-th of distinct reserved handles gets code k, and decoder slot k holds it |
| `EncodingModel.CompleteFromFills` | EventFilter/Utilities/interface/FastMonitoringService.h:92-108 | from slot `i` with the decoder aligned, the loop appends dummies `i .. reserved-1`, registers exactly them, keeps every other code, and gives distinct dummy `k` code `k` |
| `EncodingModel.CompleteReservedFills` | EventFilter/Utilities/interface/FastMonitoringService.h:92-117 | when the decoder has exactly `currentReserved` entries, completion gives each free reserved slot `i` its own dummy with code `i`, and `vecsize() == reserved` |
| `EncodingModel.CompleteAfterUpdatesMisplacesDummies` | EventFilter/Utilities/interface/FastMonitoringService.h:92-114 | with 3 reserved slots and two `update` calls made first, completion leaves the decoder as `[d1, y, d2]`, so dummy 0 decodes to dummy 1 |
| `EncodingModel.UpdateReservedOverFilledSlot` | EventFilter/Utilities/interface/FastMonitoringService.h:92-103 | when slot `currentReserved` already exists, `updateReserved` writes the handle there, the handle round-trips, every other handle round-trips unless it held that same code, and such a handle now decodes to the new one |
| `EncodingModel.ReservedAfterCompletionReplacesDummy` | EventFilter/Utilities/interface/FastMonitoringService.h:79-108 | completion then `updateReserved` on two reserved slots leaves the decoder `[h, d1]`; dummy 0 still encodes to 0 and decodes to `h` |
| `EncodingModel.SecondCompletionRewritesSlot` | EventFilter/Utilities/interface/FastMonitoringService.h:92-108 | a second completion on three reserved slots turns the decoder `[d0, d1, d2]` into `[d2, d1, d2]`, so dummy 0 decodes to dummy 2 |
| `EncodingModel.UpdateReservedKeepsRoundTrip` | EventFilter/Utilities/interface/FastMonitoringService.h:91-103 | when the decoder is aligned with `currentReserved`, `updateReserved` keeps decode(encode(a)) == a for every registered handle, and keeps the alignment |
| `EncodingModel.UpdateKeepsRoundTrip` | EventFilter/Utilities/interface/FastMonitoringService.h:109-117 | when the decoder length equals `current`, `update` keeps the round trip and that equality |
| `EncodingModel.UpdateReservedAllKeepsRoundTrip` | EventFilter/Utilities/interface/FastMonitoringService.h:92-103 | any sequence of `updateReserved` calls from an aligned table keeps the round trip |
| `EncodingModel.UpdateAllKeepsRoundTrip` | EventFilter/Utilities/interface/FastMonitoringService.h:109-114 | any sequence of `update` calls from a table whose decoder length equals `current` keeps the round trip |
| `EncodingModel.CompleteFromKeepsRoundTrip` | EventFilter/Utilities/interface/FastMonitoringService.h:104-108 | filling the free reserved slots from an aligned table keeps the round trip and leaves the decoder `reserved` long |
| `EncodingModel.DynamicCodesInCallOrder` | EventFilter/Utilities/interface/FastMonitoringService.h:109-114 | successive `update` calls append the handles in call order, raise `current` by their number, keep other codes, and give distinct handles `current`, `current + 1`, ... |
| `EncodingModel.ProtocolRoundTrip` | EventFilter/Utilities/interface/FastMonitoringService.h:75-117 | fresh encoding, at most `res` reserved handles, completion with dummies, then dynamic handles: decode(encode(a)) == a for every registered handle, `vecsize() == current`, and distinct dynamic handles get `res`, `res + 1`, ... |
| `EncodingModel.TwoReservedThreeDynamic` | EventFilter/Utilities/interface/FastMonitoringService.h:75-114 | two reserved handles and three dynamic ones get codes 0, 1 and 2, 3, 4, with the decoder in that order |
| `EncodingModel.CompletionEstablishesPostComplete` | EventFilter/Utilities/interface/FastMonitoringService.h:75-108 | from a fresh encoding, at most `res` reserved handles and then completion leave every free reserved slot holding its own dummy, a decoder `current` long, and every registered handle that is not a dummy decoding back to itself |
| `EncodingModel.AlignedCompletionEstablishesPostComplete` | EventFilter/Utilities/interface/FastMonitoringService.h:92-108 | completion of a round-tripping table whose decoder holds exactly the reserved handles so far, with `current == reserved`, gives that same post-completion state |
| `EncodingModel.UpdateReservedKeepsPostComplete` | EventFilter/Utilities/interface/FastMonitoringService.h:92-103 | after completion, `updateReserved` of a non-dummy handle while a reserved slot is free overwrites that slot's dummy and keeps every real handle's round trip |
| `EncodingModel.UpdateKeepsPostComplete` | EventFilter/Utilities/interface/FastMonitoringService.h:109-114 | after completion, `update` of a non-dummy handle keeps the post-completion state |
| `EncodingModel.CallsKeepPostComplete` | EventFilter/Utilities/interface/FastMonitoringService.h:92-114 | any mix of `updateReserved` and `update` calls on non-dummy handles, with no more `updateReserved` calls than free reserved slots, keeps the post-completion state |
| `EncodingModel.PostCompleteRoundTrip` | EventFilter/Utilities/interface/FastMonitoringService.h:75-117 | reserved handles, completion, then any such mix of calls: `vecsize() == current` and decode(encode(a)) == a for every registered handle that is not a dummy |
| `FastMonitoring.FastMonitoringService.constructor` | EventFilter/Utilities/interface/FastMonitoringService.h:251-258 | `snapCounter` starts at 0; the configuration fields hold the given values |
| `FastMonitoring.FastMonitoringService.ShouldWriteFiles` | EventFilter/Utilities/interface/FastMonitoringService.h:180-185 | false when the lumisection is aborted; false when it processed no events and empty-lumisection mode is off; true otherwise; a given out-pointer receives the event count, and nothing is stored without one |
| `FastMonitoring.FastMonitoringService.DoWork` | EventFilter/Utilities/interface/FastMonitoringService.h:200-241 | `n` passes raise `snapCounter` by exactly `n` and produce exactly the outputs `CadenceModel.Run` gives from the old counter |
| `FastMonitoring.FastMonitoringService.OnePass` | EventFilter/Utilities/interface/FastMonitoringService.h:211-233 | one pass of the loop body before `snapCounter` advances produces exactly `CadenceModel.Pass` for the current counter |
| `CadenceModel.StreamWrites` | EventFilter/Utilities/interface/FastMonitoringService.h:222-225 | the per-stream loop writes at most one file per stream |
| `CadenceModel.StreamWritesShape` | EventFilter/Utilities/interface/FastMonitoringService.h:222-225 | every per-stream write is a CSV tagged with the pass's counter and a non-empty string |
| `CadenceModel.CsvWrites` | EventFilter/Utilities/interface/FastMonitoringService.h:215-233 | nothing when the cadence is not due; at most one file per stream in per-stream mode, at most one otherwise |
| `CadenceModel.CsvWritesShape` | EventFilter/Utilities/interface/FastMonitoringService.h:215-233 | everything a pass writes after its snapshot is a CSV tagged with the pass's counter and a non-empty string |
| `CadenceModel.Pass` | EventFilter/Utilities/interface/FastMonitoringService.h:213-236 | a pass starts with the snapshot for its counter and the `lastGlobalLumi` read in that pass |
| `CadenceModel.PassSnapshotLumi` | EventFilter/Utilities/interface/FastMonitoringService.h:213 | the only snapshot in a pass is the one for its counter and the `lastGlobalLumi` read in that pass |
| `CadenceModel.Run` | EventFilter/Utilities/interface/FastMonitoringService.h:202-240 | `n` passes produce at least `n` outputs |
| `CadenceModel.PassSnapshot` | EventFilter/Utilities/interface/FastMonitoringService.h:213-236 | each pass takes exactly one snapshot, tagged with the pass's counter |
| `CadenceModel.SnapshotEveryPass` | EventFilter/Utilities/interface/FastMonitoringService.h:213-236 | a run of `n` passes takes `n` snapshots, in order, with counters `start`, `start + 1`, ... |
| `CadenceModel.SnapshotsCarryPassLumi` | EventFilter/Utilities/interface/FastMonitoringService.h:213 | every snapshot of a run carries the value `lastGlobalLumi` has in its own pass |
| `CadenceModel.StreamWritesIff` | EventFilter/Utilities/interface/FastMonitoringService.h:216-225 | the per-stream writes for streams below `k` are exactly the non-empty strings of those streams, each written to that stream's `fastPathList` entry |
| `CadenceModel.CsvWritesIff` | EventFilter/Utilities/interface/FastMonitoringService.h:215-233 | one pass writes a CSV exactly when it is due, the string is non-empty, and the destination is the one the mode picks |
| `CadenceModel.CsvWrittenIff` | EventFilter/Utilities/interface/FastMonitoringService.h:202-240 | a CSV write is in a run exactly when its pass is in the run, `intervals != 0` and divides the counter, the string is non-empty, and in per-stream mode it goes to `fastPathList[i]` with stream `i`'s string, otherwise to `fastPath` with the merged string |
| `CadenceModel.CsvOnlyWhenDue` | EventFilter/Utilities/interface/FastMonitoringService.h:215-233 | every CSV write in a run belongs to a due pass and is non-empty; with `intervals == 0` a run holds snapshots only |
| `CadenceModel.RunComposes` | EventFilter/Utilities/interface/FastMonitoringService.h:202-240 | running `m` passes and then `n` more gives the same outputs as running `m + n` passes |

## Left out

- Threading and locking in `dowork`: the mutex, the `lock_guard`, the early `unlock()` before file output, `sleep`, the stop request and `monInit_`. The loop is modelled as a given number of passes run by one thread.
- `ContainableAtomic` and every `std::atomic` field: their purpose is visibility across threads. Run by one thread, they are plain cells.
- Logging, CSV/JSON serialisation and file writing through the JSON monitor (`doSnapshot`, `getCSVString`, `outputCSV`, `snapStreamAtomic`). `DoWork` takes the CSV strings as a function argument and records snapshots and writes in a ghost log.
- `getEventsProcessedForLumi` and `getAbortFlagForLumi` have no body in this header. `ShouldWriteFiles` takes them as function arguments.
- The lifecycle hooks, the legend makers, `accumulateFileSize`, `startedLookingForFile`/`stoppedLookingForFile`, `reportLockWait`, `setExceptionDetected`, `setMicroState`, `setInputSource`/`setInState`/`setInStateSup`: they are only declared here, or they only store a value. The per-lumisection statistics they update use `double` and `timeval` values.
- `getRunDirName` (line 186) returns the last component of the run directory path without its extension, a `boost::filesystem` path query; paths are not modelled.
- Where the constructor of `FastMonitoringService` takes its configuration values: `FastMonitoringService.cc` is not part of this model. The Dafny constructor takes them as arguments.
- The destructor of `Encoding` only frees the placeholder descriptors. Memory management is not modelled.
- FastMonitoring.Encoding.Update: does not model the 32-bit `int` overflow of `current_` or of the codes. All counters and codes are unbounded naturals.
- `lastGlobalLumi_` (line 265) is written by the lumisection hooks (lines 149-152) on other threads while the loop runs; those hooks are not modelled, so `DoWork` takes the value each pass reads as a function of the pass's counter, and the service class has no such field.
- EncodingModel.FillReservedEffect: requires that the overwritten slot `currentReserved_` exists when `decoder_` is longer than `i` (line 98); the source indexes the vector unchecked there, which is undefined behaviour, so no result is modelled for that case.
- FastMonitoring.Encoding.FillReserved: requires the same slot to exist, for the same reason.
- FastMonitoring.Encoding.Decode and EncodingModel.Decode: require `index < |decoder|`; `decode` (line 91) indexes `decoder_` unchecked, which is undefined behaviour out of range, so no result is modelled there.
- FastMonitoring.FastMonitoringService.DoWork: requires in per-stream mode that `fastPathList` has an entry for every stream; `fastPathList_[i]` (line 224) is otherwise indexed out of range, which is undefined behaviour.
- FastMonitoring.FastMonitoringService.DoWork: does not model the 32-bit wrap-around of `snapCounter_`, which would change the cadence after 2^32 passes.
- The configuration-file script and the two monitoring-task headers in the same repository contain declarations only, with no behaviour to model.
