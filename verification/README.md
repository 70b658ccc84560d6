# Verified models of the loader, the bundler and the stream codecs

Dafny models of five pieces of VS Code and proofs about them. Each model keeps the branches, constants and
state of the code it stands for; classes model objects that change in place, and every such method is tied to a
function of the old state about which the properties are then proved.

- **AMD module manager** (`sequences`, `graph`, `loader_state`, `loader_runs`, `loader_theorems`, `loader_origins`,
  `loader_failures`, `module_manager`). `LoaderState` has the manager's tables, a history that records what the calls
  in progress still owe, and one atomic step per stretch of code; `LoaderRuns` has the runs, `LoaderTheorems`,
  `LoaderOrigins` and `LoaderFailures` what holds in every reachable state. `ModuleManager` is the code: its methods
  re-enter each other through scripts that load synchronously and factories that define and load more, and each is
  proved to move by steps. What a session leaves is tied to the events: each arrival is a module, defined as it
  arrived.
- **Module id normalization** (`normalize`). The string rewriting loops, and the one-pass resolution they equal.
- **Source maps and bundling** (`vlq`, `source_map`, `source_map_stack`, `dynamic_buffer`, `source_map_builder`,
  `bundle_order`, `bundle_listing`, `bundler`, `bundle_table`, `bundle_meaning`, `bundle_cache`). A reference decoder
  for the `mappings` string ("Source Map Revision 3 Proposal", section "Proposed Format"), and the builder that
  splices such strings byte by byte: what it writes decodes to the input maps stacked by line. Then the depth-first
  bundler, and the incremental cache with files that parse, that hold no module, and that throw or are missing;
  `BundleMeaning` says what a bundle has to be from parsing and resolving requests alone.
- **Duplex stream writer** (`stream_state`, `stream_traces`, `streams`). The critical sections as a protocol under any
  interleaving, against the trace of calls alone.
- **Smaller codecs** (`keyring`, `framing`). A credential split over keyring entries; frames out of a byte stream.

Where a property is false of the code in part, the exact condition is proved, for all inputs, and an input in the
failing family is given.

- A number survives the 32-bit variable-length encoding if and only if its absolute value is below 2^30
  (`Vlq.RoundTrip`).
- A stored credential is read back if and only if its last chunk is neither empty nor ends with the marker, or the
  older entries behind happen to complete it (`Keyring.StoreThenRead`, for every older content). In a fresh keyring
  nothing is read back at an exact multiple of the step (`Keyring.FreshStoreThenRead`); over a longer value its end
  is read back too (`Keyring.OverwriteLonger`).
- After any calls, the bundle cache gives what a rebuild gives if and only if its table is current
  (`BundleMeaning.BundleFits`, `BundleTable.BundleExact`): no loaded file throws by now, no file held as no
  module has become anything else and no file held as rejected would load again; or the entry is not loaded and
  still would not be. A push breaks this in three ways (`BundleTable.PushedConsistent`): the file was held as no
  module and is something else now; it was loaded, and its new content throws, which leaves even the old bundle in
  use; or a file held as rejected no longer rejects. On a project of single files, `BundleCache.PlainSession` says for
  every old and new content whether the bundle is right. It is right through any calls that keep the entry loadable
  and turn no file without a module into one (`BundleCache.Session`).
- Whoever waits for a failed module is told the error, in every state of a run, if and only if `_resolve` never fails
  a module that others without an error wait for (`LoaderFailures.StepTells`, `LoaderFailures.RunTells`). When it
  does, they keep no error and never run (`LoaderFailures.StrandedNeverRuns`), and a run does it
  (`LoaderFailures.StrandedWithoutError`).
- Stream delivery is lossless if and only if no byte was dropped on a write error (`StreamWriting.FifoLossless`), and
  errors do drop bytes (`StreamWriting.BreakDropsBuffers`); what got through is a prefix in any case.
- Mappings and text stay line by line if and only if the mappings end within the lines of their content
  (`SourceMapBuilding.SourceMapBuilder.AddSource`) and added lines hold no newline
  (`SourceMapBuilding.SourceMapBuilder.AddLine`).

## Model

| member | source | states |
|---|---|---|
| LoaderState.StepKeeps | src/vs/loader.js:1464-1776 | every atomic step keeps the invariant: counters agree with the lists, waiting edges follow a rank, factories ran in order, only cycle edges were given up |
| LoaderState.RaisedRankFits | src/vs/loader.js:1685-1698 | recording a wait after the path search found no way back keeps the waits-for graph ranked, hence acyclic |
| LoaderRuns.ReachableInv | src/vs/loader.js:1352-1370 | the invariant holds in every state that any sequence of definitions, arrivals, failures and wake-ups reaches |
| LoaderRuns.LeadsGrows | src/vs/loader.js:1352-1360 | nothing defined, complete, failed, run or asked for is ever undone; a definition and its errorback are never replaced |
| LoaderTheorems.WaitingIsAcyclic | src/vs/loader.js:1658-1721 | in every reachable state the recorded waits form no circle, cyclic inputs included |
| LoaderTheorems.StuckBehindBlock | src/vs/loader.js:1722-1776 | with no call in progress, a module that has not failed is incomplete if and only if its chain of waits ends at an undefined or a failed module |
| LoaderTheorems.EverythingRuns | src/vs/loader.js:1352-1370 | once every referenced id is defined and nothing failed, every factory has run, exactly once |
| LoaderTheorems.CleanRunCompletes | src/vs/loader.js:1658-1721 | a run in which no load fails and no factory throws, once at rest with every referenced id defined, has left no error and has run every factory exactly once, cyclic inputs included |
| LoaderTheorems.FactoriesInDependencyOrder | src/vs/loader.js:1139-1168 | a factory runs after each of its regular dependencies, unless that dependency depends in turn on the module |
| LoaderTheorems.CycleFlagExact | src/vs/loader.js:1685-1698 | when everything ran, the cycle flag is set if and only if the declared dependencies are cyclic |
| LoaderTheorems.CounterCountsWaits | src/vs/loader.js:1107 | the counter of a module that has not failed is its unexamined dependencies plus its entries in all inverse lists, with multiplicity, drained lists included |
| LoaderTheorems.FailureSpreadsExactly | src/vs/loader.js:1464-1498 | a load failure marks the failed id and exactly what is recorded as waiting for it, directly or not; whatever it marks besides has not run and depends on the id |
| LoaderOrigins.ReachableTraced | src/vs/loader.js:1658-1721 | in every reachable state each error names a load that was asked for or a factory that ran, the module's own or one it depends on; only what some definition mentions is asked for; exports are passed in where the examined dependencies say so |
| LoaderOrigins.DependenciesAsked | src/vs/loader.js:1685-1715 | at rest, whatever a module that has not failed depends on is defined or was asked for |
| LoaderFailures.StepTells | src/vs/loader.js:1676-1682 | if everyone waiting for a failed module has an error, a step keeps this if and only if it is not `_resolve` failing a module that others without an error wait for |
| LoaderFailures.RunTells | src/vs/loader.js:1464-1498 | along any run from the start, everyone is told in every state if and only if no such step is taken |
| LoaderFailures.StrandedNeverRuns | src/vs/loader.js:1676-1682 | whoever waits for a failed module stays waiting and never runs, in every continuation |
| LoaderFailures.StrandedWithoutError | src/vs/loader.js:1676-1682 | a run from the start, with ids that modules can have and a load that was asked for, leaves a module without an error waiting for a failed one |
| ModuleManagement.ModuleManager.HasDependencyPath | src/vs/loader.js:1505-1541 | the queue search ends and finds a path if and only if there is one, of length at least one, over live dependency lists |
| ModuleManagement.ModuleManager.NotifyDependents | src/vs/loader.js:1471-1497 | the queue walk marks the ids reachable over inverse lists, each once, and calls each errorback once |
| ModuleManagement.ModuleManager.OnLoadError | src/vs/loader.js:1464-1498 | the new state is the old one with exactly the waiters failed; the errorbacks called are those of the waiters whose definition came with one |
| ModuleManagement.ModuleManager.DefineModule | src/vs/loader.js:1352-1370 | a duplicate changes nothing; a new id is a module with just the dependencies and the errorback given, and all calls unwind in a reachable state |
| ModuleManagement.ModuleManager.Resolve | src/vs/loader.js:1658-1721 | on return the module is complete or its counter is not zero, across synchronous re-entry from loading |
| ModuleManagement.ModuleManager.Examine | src/vs/loader.js:1663-1715 | one round of the loop takes the step that the code's tests choose: count the dependency, take its very error, give it up on a cycle, or record the wait and ask for it; all but the last leave exactly the state of that step |
| ModuleManagement.ModuleManager.LoadModule | src/vs/loader.js:1591-1637 | a defined or known id is not asked for again and the manager's tables stay; another becomes known, and if its script runs at once, each id that the script defines is a module on return |
| ModuleManagement.ModuleManager.OnModuleComplete | src/vs/loader.js:1722-1776 | the module is complete on return; the recursion ends because every nested completion leaves fewer incomplete modules, unloaded scripts or unrun factories |
| ModuleManagement.ModuleManager.FinishFactory | src/vs/loader.js:1761-1765 | drops the dependency list, sets the factory's error if it threw and leaves it otherwise, and hands over the inverse list, cleared |
| ModuleManagement.ModuleManager.RunFactory | src/vs/loader.js:1722-1765 | runs what the factory does: each id it defines is a module on return, and a factory that throws leaves its error |
| ModuleManagement.ModuleManager.WakeAll | src/vs/loader.js:1766-1775 | a fetched list is drained entry by entry, with multiplicity, whatever the woken modules do meanwhile |
| ModuleManagement.ModuleManager.Perform | src/vs/loader.js:1352-1370 | after a list of events each arrival is a module, the first if new with just its dependencies and errorback, and each failing load that had been asked for has left an error |
| ModuleManagement.ModuleManager.Session | src/vs/loader.js:1352-1370 | any events in any order end at rest in a reachable state; each arrival is a module, the first one as it arrived, those of scripts asked for and of factories run included, and each module's dependencies and errorback come from an arrival unless its load failed first; with no failing load and no throwing factory nothing has an error; if then whatever is depended on is reported or comes with its own script, every id that arrived is complete and ran |
| ModuleIds.NormalizeModuleId | src/vs/loader.js:1061-1078 | the replacement loops end, and the result is the one-pass resolution of all segments but the last, for every string |
| ModuleIds.MatchUp | src/vs/loader.js:1071-1075 | finds the first match of slash, name, slash, two dots, slash, or proves there is none |
| ModuleIds.ResolveMeaning | src/vs/loader.js:1058-1060 | the result leaves nothing to resolve, keeps the last segment, and leads to the same place as the id from every directory |
| ModuleIds.ResolveTwice | src/vs/loader.js:1061-1078 | normalizing a normalized id changes nothing |
| ModuleIds.UpsLead | src/vs/loader.js:1071-1077 | without empty segments, every `..` left in front of the last segment leads |
| ModuleIds.HeadRemoved | src/vs/loader.js:1076-1077 | one final replacement at the front suffices |
| Vlq.RoundTrip | scripts/playground-server.ts:849-868 | for every integer, decoding its encoding gives it back, whatever follows, if and only if its absolute value is below 2^30 |
| Vlq.RoundTripAll | scripts/playground-server.ts:774-789 | any concatenation of encodings decodes to the same list of numbers |
| Vlq.KnownValues | scripts/playground-server.ts:849-868 | 0, 1, -1 and 15 are written A, C, D and e |
| Vlq.KnownLongValues | scripts/playground-server.ts:849-868 | 16 and -16 are written gB and hB |
| Vlq.Alphabet | scripts/playground-server.ts:816-824 | the digits are written A to Z, a to z, 0 to 9, + and / |
| Vlq.ReadDigits | scripts/playground-server.ts:776-780 | the shift-and-add loop over digits yields their number while it stays below 2^31 |
| SourceMapFormat.DecodeEncode | scripts/playground-server.ts:740-757 | the reference decoder inverts a reference encoder on every table of mappings by line |
| SourceMapFormat.KnownMap | scripts/playground-server.ts:740-790 | `CAEG,gB;IACD` decodes to three segments: fields are relative, a lone column has no source, and a semicolon resets the column only |
| SourceMapStack.CommitInStep | scripts/playground-server.ts:741-757 | what `commit` writes decodes to the input segment, renumbered and moved down, both running positions stay in step, and the output stays standard even where the input is not |
| SourceMapStack.DigitEnds | scripts/playground-server.ts:780-789 | sign and switch on `valpos` follow the decoder of the input |
| SourceMapStack.NameStacked | scripts/playground-server.ts:720-728 | after renumbering, every segment names the same source string at the same place |
| SourceMapStack.SegmentsFit | scripts/playground-server.ts:791-794 | mappings fit their content if all their segments lie on its lines and they have no more semicolons than it has lines |
| DynamicBuffers.DynamicBuffer.EnsureCapacity | scripts/playground-server.ts:835-842 | growing reallocates and keeps what was written |
| DynamicBuffers.DynamicBuffer.AddVLQ | scripts/playground-server.ts:849-868 | appends exactly the encoding of the number, across reallocation |
| DynamicBuffers.DynamicBuffer.AddBuffer | scripts/playground-server.ts:877-881 | appends exactly the bytes, across reallocation |
| SourceMapBuilding.CountNL | scripts/playground-server.ts:888-894 | counts the newlines |
| SourceMapBuilding.NewSource | scripts/playground-server.ts:680-697 | the content ends with a newline unless empty, and the line count is that of the content kept |
| SourceMapBuilding.SourceMapBuilder.RemapSources | scripts/playground-server.ts:720-728 | the list stays free of repetitions and each source of the map is found at its new index |
| SourceMapBuilding.SourceMapBuilder.CopyMappings | scripts/playground-server.ts:758-790 | the loop throws if and only if some character is no digit, and otherwise the output decodes to what was there and the input's segments, remapped; segments of 2, 3 or more than 5 fields and the padding character are read as the code reads them |
| SourceMapBuilding.SourceMapBuilder.PadLines | scripts/playground-server.ts:791-794 | every missing line gets a semicolon; with none missing nothing is written, and the last segment stays open |
| SourceMapBuilding.SourceMapBuilder.AddSource | scripts/playground-server.ts:716-795 | the decoded output is the old one followed by the input's segments, moved below the lines already there, with the same sources, lines and columns; the text is appended; mappings and text stay line by line if and only if the mappings fit the content |
| SourceMapBuilding.SourceMapBuilder.AddLine | scripts/playground-server.ts:710-714 | text, a newline and an empty line of mappings: the meaning stays, and mappings and text stay line by line if and only if the text has no newline |
| BundleOrder.BundleOrdered | scripts/playground-server.ts:501-516 | exactly the modules reachable from the root, each once, each after its dependencies unless they depend on it in turn |
| BundleOrder.BundleOrderedAcyclic | scripts/playground-server.ts:501-516 | on acyclic dependencies every dependency comes first, without exception |
| BundleOrder.VisitsAgree | scripts/playground-server.ts:505-514 | the order depends only on the lists of a closed part of the graph |
| BundleListing.OrderIsDepthFirst | scripts/playground-server.ts:505-514 | the visiting order is a depth-first listing: each module closes a block made of the blocks of its new dependencies in the order of its list; of two dependencies the first comes first, unless it is being visited itself or an earlier one leads to the second |
| Bundler.Bundle.VisitModule | scripts/playground-server.ts:505-514 | the mutating visit adds exactly the modules of the specified order, and the builder holds their texts and stacked maps |
| Bundler.BundleWithDependencies | scripts/playground-server.ts:501-525 | the bundle is the modules' texts and a comment line, in an order that is a depth-first listing of the modules' own dependency lists: what the root reaches, once each, dependencies first, siblings in turn; its map decodes to the modules' maps, each moved below the text before it |
| BundleTable.RejectsStep | scripts/playground-server.ts:565-574 | loading rejects if and only if the file throws or is missing, or loading some requested file rejects |
| BundleTable.BundlesAgree | scripts/playground-server.ts:472-485 | any two loader tables consistent with the same disk give the same bundle |
| BundleTable.KeptConsistent | scripts/playground-server.ts:536-548 | a patched table is what a rebuild would have if and only if no slot is of the wrong kind: loaded though the file throws, no module though it is something else, or rejected though it would load |
| BundleTable.BundleExact | scripts/playground-server.ts:472-498 | a patched table gives the bundle of a rebuild if and only if it is current; a single wrong slot shows, since everything in the table was asked for by the entry |
| BundleMeaning.BundleFits | scripts/playground-server.ts:472-588 | from parsing and resolving alone: the bundle of a patched table is what the disk calls for if and only if the table is current |
| BundleMeaning.ConsistentFits | scripts/playground-server.ts:554-588 | a new loader's bundle is none if the entry is no module or its requests lead to a file that is missing or throws, and otherwise the sources of just the parsed files they lead to, in a depth-first listing of the requests |
| BundleMeaning.RejectsMeans | scripts/playground-server.ts:555-574 | loading rejects if and only if requests lead from the file to one that is missing or throws |
| BundleMeaning.LeavesInTurn | scripts/playground-server.ts:564-574 | if the entry's requests lead to different files without requests, these are bundled in the order of the requests, and the entry last |
| BundleTable.PushedKept | scripts/playground-server.ts:536-548 | any push, stale or not, leaves loaded modules with the content and the dependencies of their files, unless the file throws |
| BundleTable.PushedConsistent | scripts/playground-server.ts:487-498 | a table that agreed with the disk and stays in use after a push agrees with the new disk if and only if none of three things happened: a file held as no module is something else, a loaded one throws, or a rejected one no longer rejects |
| BundleCache.CurrentStays | scripts/playground-server.ts:487-498 | a table stays current while the entry can be loaded and no file without a module becomes one |
| BundleCache.PlainSession | scripts/playground-server.ts:472-498 | bundle a file, push new content, bundle again: the result is a rebuild's if and only if neither a loaded file throws now nor one that was not loaded parses now |
| BundleCache.Session | scripts/playground-server.ts:472-498 | after any pushes, unreported removals and requests, the next bundle is the one that the disk calls for if and only if the table is current, and it is that if the entry stayed loadable and no file newly became a module |
| BundleCache.ModuleLoader.AddModuleAndDependencies | scripts/playground-server.ts:550-588 | the file is in the table, as a module if and only if it parses and its requests lead to no file that is missing or throws, and then with all that they lead to; the table agrees with the disk, and everything new was asked for on its behalf |
| BundleCache.ModuleLoader.UpdateContent | scripts/playground-server.ts:536-548 | patches the source if and only if the content parses with the same requests; otherwise nothing changes, and an exception is told apart |
| BundleCache.CachedBundle.GetBundle | scripts/playground-server.ts:472-485 | on any cache, stale or not, the bundle is the one that the disk calls for, and that of a rebuild, if and only if the table is current; that of a newly made loader is |
| BundleCache.CachedBundle.SetModuleContent | scripts/playground-server.ts:487-498 | on any cache: which calls throw and then change nothing, when bundle and loader are dropped, and what table is left; one that agreed with the disk still does if and only if the push is none of the stale kinds |
| StreamState.StepKeeps | cli/src/rpc.rs:542-631 | every step of every task keeps ownership and delivery |
| StreamTraces.TraceTreats | cli/src/rpc.rs:542-631 | after any sequence of calls and tasks' steps, a stream inserted and not removed has a record that has not ended, accepted just the buffers written to it, and is not about to be closed; a removed one accepted those first, and what is left of it has ended |
| StreamTraces.TraceBreaks | cli/src/rpc.rs:623-627 | a pipe has broken if and only if some write to it has failed |
| StreamWriting.LiveDelivers | cli/src/rpc.rs:564-631 | for a stream inserted and not removed, the bytes delivered, taken and queued are those written to it, if and only if none was dropped, and none is unless a write fails |
| StreamWriting.OnlyRemovedCloses | cli/src/rpc.rs:543-562 | a half is closed or about to be if and only if its record is gone, which only happens to a removed stream; unless a write failed, all that was written before the removal has then been delivered |
| StreamWriting.LoopCanReturn | cli/src/rpc.rs:615-616 | from every reachable state the loop of a stream that has not ended can give the half back to the record |
| StreamWriting.FifoLossless | cli/src/rpc.rs:564-631 | in every reachable state, bytes delivered, then items taken, then the queue, are all buffers accepted if and only if no byte was dropped on an error; every byte accepted is delivered, taken, queued or dropped |
| StreamWriting.ShutdownAfterDelivery | cli/src/rpc.rs:610-631 | a half is shut down at most once, and then everything accepted was delivered if and only if no byte was dropped |
| StreamWriting.BrokenKeepsPrefix | cli/src/rpc.rs:623-627 | errors or not, what got through is a prefix of what was accepted |
| StreamWriting.NothingAfterBreak | cli/src/rpc.rs:623-627 | once a write has failed, nothing more is delivered in any continuation |
| StreamWriting.SingleOwner | cli/src/rpc.rs:543-573 | each half is in the record, in one task, or shut down: exactly one of these |
| StreamWriting.QueueIsServed | cli/src/rpc.rs:602-620 | a half in its record means an empty queue; a non-empty queue means a running loop; a running loop finds its record |
| StreamWriting.LoopCanDeliver | cli/src/rpc.rs:602-628 | from every reachable state a running loop can bring an unbroken pipe to everything accepted so far |
| StreamWriting.EndedCanClose | cli/src/rpc.rs:610-630 | from every reachable state the half of an ended stream can be shut down and its record removed, after full delivery if the pipe had not broken |
| StreamWriting.BreakDropsBuffers | cli/src/rpc.rs:623-627 | a pipe can break so that the half is shut down with accepted buffers dropped |
| StreamWriting.Streams.InsertStream | cli/src/rpc.rs:575-584 | a fresh stream gets a record that holds its half, with nothing queued |
| StreamWriting.Streams.WriteBuffer | cli/src/rpc.rs:564-573 | queues the buffer and hands an idle half to a new loop |
| StreamWriting.Streams.RemoveStream | cli/src/rpc.rs:543-562 | takes the record away and shuts an idle half down, or marks the record ended |
| StreamWriting.Streams.LockInLoop | cli/src/rpc.rs:603-621 | swaps the queue out, returns the half, or ends |
| StreamWriting.Streams.WriteInLoop | cli/src/rpc.rs:623-627 | an item goes through, or part of it, and the other items are dropped and counted |
| StreamWriting.Streams.FinishShutdown | cli/src/rpc.rs:558-561 | an awaited shutdown closes its half, and whoever awaited it ends |
| Keyring.StoreThenRead | cli/src/auth.rs:308-352 | on a keyring with any older content, reading gives back what was stored if and only if the last chunk ends the reading, or is empty and the older entries in its place join to nothing, or ends with the marker and the older entries behind join to a marker |
| Keyring.FreshStoreThenRead | cli/src/auth.rs:308-352 | in a fresh keyring the value is read back, or nothing at a multiple of the step or when the last chunk ends with the marker |
| Keyring.OverwriteLonger | cli/src/auth.rs:330-352 | a value of full chunks stored over a longer one reads back followed by the rest of the longer one |
| Keyring.EntriesFit | cli/src/auth.rs:330-352 | every entry written fits the limit |
| Keyring.ChunksExact | cli/src/auth.rs:334-343 | there are as many full chunks as the length divided by the step, the last chunk has the remainder's length, and it is written unless empty |
| Keyring.KeyringStorage.Store | cli/src/auth.rs:330-352 | succeeds if and only if no entry to be written is broken, and then has written the chunks; the first broken one leaves those before it written and the others as they were |
| Keyring.KeyringStorage.Read | cli/src/auth.rs:308-328 | fails if and only if a broken entry is reached, all before it being there, readable and ending with the marker; otherwise joins the chunks up to the first without the marker, or gives nothing if an entry is missing |
| Framing.IndependentExactly | cli/src/msgpack_rpc.rs:68-97 | frames and errors are independent of how the stream is cut into chunks if and only if the parser's verdicts are stable under more input |
| Framing.ChunksConserve | cli/src/msgpack_rpc.rs:139-162 | the bytes of all frames and then the buffer are the bytes received |
| Framing.MessagesArrive | cli/src/msgpack_rpc.rs:111-117 | messages written one after another and cut anywhere arrive whole, in order and once each, with a started one left in the buffer |
| Framing.MsgPackCodec.Decode | cli/src/msgpack_rpc.rs:139-162 | takes one frame off the buffer, or leaves the buffer as it is |
| Framing.Connection.Run | cli/src/msgpack_rpc.rs:68-97 | dispatches exactly the frames of the chunks up to the first error |

## Left out

Module manager
- Plugin dependencies: their wait on the plugin is not in the cycle check; a module with one is not modelled.
- Module ids are numbers; the id provider, the resolver's path joining and absolute-path tests, and paths on disk.
- Exports and the values passed to factories, build mode, recorders, cached data and the `_findCyclePath` warning.
- A factory that throws while errors are not caught; errorbacks that call back into the manager. A load that fails
  is one that was asked for: other failures in a list of events are ignored.
- ModuleManagement.ModuleManager: module objects are record values in a map, so aliasing between the table and a
  caller's reference is not captured; what runs inside a script or a factory is a given list of events.

Source maps and bundling
- SourceMapBuilding.SourceMapBuilder.AddSource: promised for mappings whose columns, source lines and source columns
  lie in 0 up to 2^30, since larger differences do not survive the encoding, and for numbers not cut off by a
  separator. Source indices outside the map's list are not modelled: the code writes `A` (no difference) for such an
  index and for the next valid one, so later segments can name wrong sources.
- SourceMapBuilding.SourceMapBuilder.CopyMappings: the same mappings as for `AddSource`.
- Bundler.BundleWithDependencies: for modules whose mappings end within the lines of their content; what is appended
  after mappings and text have come out of line is not described.
- Names (the fifth field) are dropped, as in the code. JSON, base64 and `sourceRoot` of the final map.
- BundleCache.ModuleLoader.AddModuleAndDependencies: among the files reached from the entry requests lead strictly
  down, since in a circle of requests the original's promises wait for each other.
- BundleCache.CachedBundle.GetBundle: the same, where it makes a loader. Which error a rejected bundle carries.
- BundleCache.Session: files that appear or change without being reported; removals are included.
- Overlapping calls on the cache: each runs to the end, loads that a rejection leaves behind included, and a bundle is
  the list of sources handed to the builder.
- The HTTP server, file watching, hot reload and the parser of modules (a parameter here).

Streams and codecs
- Stream ids and write halves are fresh; reading from a stream, the 32-bit id counter and request dispatch.
- A cancelled `write_all` and the memory limits of the duplex pipe. A duplex pipe that broke stays broken; the
  library that makes it so is not part of this model.
- Keyring entries: sealing, unsealing, `clear`, and strings with characters of more than one byte.
- Frame extraction: the object parser is a parameter that takes at least one byte and needs at least one; dispatching,
  the other arms of the loop and the end of input.

The file protocol, download cache, state file, pollable listener and line buffer would add only easy members.
