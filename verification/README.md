# A verified model of the HiStreamer core

HiStreamer is a media pipeline engine.  This project models the eight parts of
it whose behaviour is hard to see from the code, and proves what they keep:

| module | part of the system | main results |
|---|---|---|
| `FilterGraph`, on `TopologicalSort` and `Reachability` | filters, ports and the engine pipeline | reordering is a topological sort exactly on acyclic links and leaves the filters alone otherwise; the chain walk ends on every link graph, cycles included, and removes exactly what is reachable |
| `CapabilityCheck`, `Negotiation` | capability negotiation | merging is intersection of admitted configurations, with its algebra; negotiated meta data satisfy both sides |
| `MemoryPool` | shared memory pool | safety of every interleaving: bounds, no block handed out twice, no lost wake-up |
| `MetaParcel` | parcel codec of `Meta` and `Any` | round trip for every map of parcelable values and any trailing data; rollback of a failed write |
| `SyncClock` | media sync clock | exactly when media time never goes back, is continuous at rate changes and stands still while paused; range, priority and preroll barrier |
| `FilterLifecycle` | state, `Prepare` and flush of a filter | downstream filters get ready first; a job is dropped exactly when a flush came between its submission and its check |
| `PcmConvert` | PCM sample conversion | conversions of whole buffers compose; round trips are exact |
| `PluginRegister` | plugin register | names and table agree over every run, hardware codecs first |

Code that changes fields in place is a class with `modifies` clauses, loops are
loops with invariants, and code that only computes is a function.  A method that
changes state is proved against a function of the old state; the lemmas beside
it say what that function means.  Whole runs are sequences of states and steps.
The system clock, the outcome of an allocation, what a filter does in its own
`Prepare` or `Stop`, the table of tags and the library that backs a parcel are
parameters or nondeterministic.

`dafny verify dfyconfig.toml` checks the project.

## What the proofs found

These are places where the code does not do what one would expect of it.  The
model follows the code; each has a lemma with the condition.

- Capability values are compared by a difference narrowed to 32 bits, so two
  channel layouts that differ in bits above 31 only, such as 5.1 and 5.1.2, pass
  for the same (`LayoutsCollide`, `CheckExact`, `FixedCheckExact`, `ListCheckExact`).
- For the same reason an interval 2^31 wide or wider does not admit all its
  members; the one of all 32-bit numbers admits hardly any (`WideIntervalExact`).
- An interval written high end first is a range for every check but the one
  against a list, which takes it as empty (`ReversedIntervalExact`).
- A capability whose mime is `*` can never be merged with meta data, because the
  capability's own mime is taken as the subset (`MergeMetaWithCapability`).
- `Reset` of the memory pool leaves the busy list as it is, so the next `Init`
  can exceed the maximum number of blocks (`ResetKeepsBusy`, `InitAgain`).
- `ToParcel` accepts `int8_t`, `uint8_t` and enumerations without a registered
  default, and the parcel it writes cannot be read back; an enumeration under the
  tag of another comes back as the other (`MetaRoundTripExact`, `EnumMistaken`).
- A scalar written into a full parcel is reported as a success with its cells
  missing (`FullParcelUnnoticed`, `WholeMapExact`).
- A media time of -1 is taken for "none": a rate change at that moment stops the
  clock (`SentinelExact`), and a pause at that moment shows 0, from which the time
  goes back if the clock is resumed before media time 0, as it is by play, pause
  and play before the first anchor (`NeverBackExact`, `PauseResumeExact`).  A rate
  of zero is accepted, and makes the time shown jump to "none" (`RateContinuousExact`).
- Setting a track's start to "none" can forget the starts of other tracks
  (`StartNoneExact`).
- A synchronizer that is not registered can open the preroll barrier while a
  registered one is missing (`BatchExact`), and removing the one still missing can
  keep it shut (`OpensExact`).
- The loader of a plugin package is moved into the first plugin registered, so
  unloading a package with several plugins leaves the others behind
  (`PackageErased`).
- `LinkPorts` on a port that is already linked elsewhere leaves a one-sided link
  behind (`LinkPorts`).

## Model

| member | source | states |
|---|---|---|
| `FilterGraph.OutPort.Connect` | engine/pipeline/core/port.cpp:107-134 | connects exactly when both owners are in one and the same pipeline, and otherwise keeps the old link |
| `FilterGraph.InPort.Connect` | engine/pipeline/core/port.cpp:45-49 | the in port takes the peer without asking |
| `FilterGraph.Filter.GetNextFilters` | engine/pipeline/core/filter_base.cpp:103-120 | one filter per connected out port, the owner of its peer, in port order |
| `FilterGraph.Filter.GetPreFilters` | engine/pipeline/core/filter_base.cpp:122-139 | one filter per connected in port, the owner of its peer, in port order |
| `FilterGraph.Filter.UnlinkPrevFilters` | engine/pipeline/core/filter_base.cpp:92-101 | exactly the links into the filter are cut, on both sides; links stay symmetric |
| `FilterGraph.PipelineCore.LinkPorts` | engine/pipeline/core/pipeline_core.cpp:209-214 | only the wire of the first port changes; the pipeline's link invariant survives if and only if neither port was linked elsewhere |
| `FilterGraph.NextAreTargets` | engine/pipeline/core/filter_base.cpp:103-120 | the next filters of a filter are the targets of its links |
| `FilterGraph.NodesOf` | engine/pipeline/core/pipeline_core.cpp:258-266 | in-degrees count the links into each filter; the stack holds exactly the filters without any |
| `FilterGraph.ConstructGraph` | engine/pipeline/core/pipeline_core.cpp:256-273 | every link of the pipeline is named once by its sender and counted once at its receiver; no next filter falls outside the index map |
| `TopologicalSort.CountDown` | engine/pipeline/core/pipeline_core.cpp:284-285 | a link not yet taken keeps its receiver's in-degree above zero, so the decrement never underflows and in-degrees go on counting the links not taken |
| `TopologicalSort.TakeNode` | engine/pipeline/core/pipeline_core.cpp:282-289 | taking a node takes exactly its links; the stack again holds exactly the untaken nodes of in-degree zero |
| `TopologicalSort.Order` | engine/pipeline/core/pipeline_core.cpp:276-291 | each node comes out at most once, after all the nodes that send a link to it; a node left over has a link that no node taken has sent |
| `FilterGraph.CompleteOrder` | engine/pipeline/core/pipeline_core.cpp:292-295 | a complete order lists the pipeline's filters, each once, every one before the filters it feeds |
| `FilterGraph.IncompleteOrder` | engine/pipeline/core/pipeline_core.cpp:292-295 | an incomplete order means that the links have a cycle |
| `Reachability.ForwardIsAcyclic` | engine/pipeline/core/pipeline_core.cpp:276-297 | links that all go forward in some order have no cycle |
| `Reachability.StuckHasCycle` | engine/pipeline/core/pipeline_core.cpp:276-297 | filters that are each entered from among themselves contain a cycle |
| `FilterGraph.PipelineCore.ReorderFilters` | engine/pipeline/core/pipeline_core.cpp:276-297 | a permutation of the filters; on acyclic links every filter comes before all its next filters; with a cycle nothing changes |
| `FilterGraph.BackwardOrder` | engine/pipeline/core/pipeline_core.cpp:42-47 | walking a forward order from its end, every filter comes after everything it feeds, however early the walk stops |
| `FilterGraph.PipelineCore.Prepare` | engine/pipeline/core/pipeline_core.cpp:36-53 | succeeds if and only if every filter can be prepared; filters are prepared last first up to the first that cannot; on acyclic links the filters prepared so far are closed downstream, and the filter that fails had all its downstream filters prepared |
| `FilterGraph.WalkShrinks` | engine/pipeline/core/pipeline_core.cpp:185-193 | every round of the chain walk takes away a filter's last incoming link, or leaves one queue entry less that no link arrives at: the walk ends on cycles and shared descendants |
| `FilterGraph.WalkStep` | engine/pipeline/core/pipeline_core.cpp:185-193 | what has been visited or queued stays reachable from the start, and what visited filters linked to is visited or queued |
| `FilterGraph.CollectChain` | engine/pipeline/core/pipeline_core.cpp:183-193 | the walk collects exactly the filters reachable from the first one and cuts exactly the links into them |
| `FilterGraph.PipelineCore.RemoveFilterChain` | engine/pipeline/core/pipeline_core.cpp:178-195 | a missing filter is refused and changes nothing; otherwise exactly the reachable filters are collected and left without incoming links |
| `FilterGraph.PipelineCore.RemoveFilter` | engine/pipeline/core/pipeline_core.cpp:167-176 | the first occurrence of the filter goes, if there is one |
| `FilterGraph.PipelineCore.RemoveCollected` | engine/pipeline/core/pipeline_core.cpp:110-112 | the filters not collected stay, in their old order, however often one was collected |
| `FilterGraph.RemovedStep` | engine/pipeline/core/pipeline_core.cpp:178-195 | removing one more chain from links already cut removes what both chains reached in the original links |
| `FilterGraph.PipelineCore.StopFilters` | engine/pipeline/core/pipeline_core.cpp:93-109 | succeeds exactly when every filter stops; then the collected filters are what the requested chains reached before the call |
| `FilterGraph.StopKeeps` | engine/pipeline/core/pipeline_core.cpp:93-115 | the filters that stay are linked symmetrically among themselves |
| `FilterGraph.PipelineCore.Stop` | engine/pipeline/core/pipeline_core.cpp:93-115 | on success exactly the filters outside the removed chains remain, in their old order and linked as before; on failure the filters are unchanged |
| `Reachability.Reach` | engine/pipeline/core/pipeline_core.cpp:178-195 | reachability: contains its start and is closed under links |
| `Reachability.ReachIsLeast` | engine/pipeline/core/pipeline_core.cpp:178-195 | reachability is within every set that contains the start and is closed under links |
| `Reachability.ReachAfterCut` | engine/pipeline/core/pipeline_core.cpp:178-195 | cutting the links into a closed set takes nothing but that set from what is reachable |
| `CapabilityCheck.CompareExact` | engine/pipeline/core/compatible_check.cpp:51-68 | the comparison is the true difference on values less than 2^31 apart |
| `CapabilityCheck.MaxMinExact` | engine/pipeline/core/compatible_check.cpp:160-176 | on such values maximum and minimum are the true ones |
| `CapabilityCheck.IDCapabilityCheck` | engine/pipeline/core/compatible_check.cpp:234-253 | the loop collects the list's members between the ends: none, one fixed value, or a list |
| `CapabilityCheck.DDCapabilityCheck` | engine/pipeline/core/compatible_check.cpp:255-274 | the loop collects the first list's members that the second has too: none, one fixed value, or a list |
| `CapabilityCheck.CheckIsIntersection` | engine/pipeline/core/compatible_check.cpp:178-274 | for all nine pairs of kinds the out value admits exactly what both arguments admit, there is none exactly when nothing is admitted by both, and it is an ordered, non-empty value made of the arguments' numbers |
| `CapabilityCheck.PassesExact` | engine/pipeline/core/compatible_check.cpp:189-200 | between the ends of an interval less than 2^31 wide pass exactly the numbers congruent modulo 2^32 to one that lies there |
| `CapabilityCheck.CheckExact` | engine/pipeline/core/compatible_check.cpp:178-274 | for all pairs but two intervals, the check is intersection if and only if no member that it keeps is congruent modulo 2^32 to a number of the other side without being one |
| `CapabilityCheck.WordsTold` | engine/pipeline/core/compatible_check.cpp:51-59 | 32-bit values never are, so that fixed values and lists of them need no condition |
| `CapabilityCheck.FixedCheckExact` | engine/pipeline/core/compatible_check.cpp:178-187 | the check of two fixed values is right if and only if they are equal or 2^32 does not divide their difference |
| `CapabilityCheck.FixedListExact` | engine/pipeline/core/compatible_check.cpp:202-211 | a fixed value against a list is checked right if and only if the list has it, or has nothing congruent to it |
| `CapabilityCheck.ListCheckExact` | engine/pipeline/core/compatible_check.cpp:255-274 | two lists are checked right if and only if no member of the second outside the first is congruent to one of the first |
| `CapabilityCheck.LayoutsCollide` | engine/include/plugin/common/plugin_audio_tags.h:88-107 | the channel layouts 5.1 and 5.1.2 pass for the same value |
| `CapabilityCheck.ReversedIntervalExact` | engine/pipeline/core/compatible_check.cpp:234-253 | the check of an interval against a list is right if and only if the interval is in order or no member of the list lies in it |
| `CapabilityCheck.ReversedIntervalMisses` | engine/pipeline/core/compatible_check.cpp:234-253 | such an interval: 48000 to 8000 admits 44100 and yet has nothing in common with a list of it |
| `CapabilityCheck.WideIntervalExact` | engine/pipeline/core/compatible_check.cpp:189-200 | the check finds every member of an interval if and only if the interval is less than 2^31 wide |
| `CapabilityCheck.WideIntervalMisses` | engine/pipeline/core/compatible_check.cpp:189-200 | such an interval: all 32-bit numbers have nothing in common with 44100 |
| `CapabilityCheck.CapabilityValueCheck` | engine/pipeline/core/compatible_check.cpp:294-363 | dispatch on the kinds of both values; a value of another type, or an interval where none is allowed, is no match |
| `CapabilityCheck.KeyTypes` | engine/pipeline/core/compatible_check.cpp:73-115 | the element type of each of the twelve keys, and which may be intervals |
| `CapabilityCheck.MistypedNoMatch` | engine/pipeline/core/compatible_check.cpp:294-363 | values of different types, and intervals of enumerations, never match |
| `CapabilityCheck.MergeCapabilityKeys` | engine/pipeline/core/compatible_check.cpp:365-399 | fails exactly when a shared known key has no common value, and then leaves no keys; otherwise each key has the intersection, or the only side's value, or for an unknown shared key the other side's |
| `CapabilityCheck.MergeIsRegular` | engine/pipeline/core/compatible_check.cpp:365-399 | key by key a merge admits what the sides that hold the key admit, and is well-typed and ordered again |
| `CapabilityCheck.ConflictIsDisjoint` | engine/pipeline/core/compatible_check.cpp:381-390 | a shared key makes the merge fail if and only if no number satisfies both values |
| `CapabilityCheck.MergeIsIntersection` | engine/pipeline/core/compatible_check.cpp:365-399 | a merge fails if and only if some shared key has disjoint values, and otherwise admits exactly the configurations that both sides admit |
| `CapabilityCheck.MergeCommutes` | engine/pipeline/core/compatible_check.cpp:365-399 | commutative up to meaning, failures included |
| `CapabilityCheck.MergeIdempotent` | engine/pipeline/core/compatible_check.cpp:365-399 | merging a capability with itself fails if and only if it holds an empty list, and otherwise means the same |
| `CapabilityCheck.MergeLeftMeaning` | engine/pipeline/core/compatible_check.cpp:365-399 | merging three from the left fails if and only if some key held twice has no number for all its holders, and otherwise means all three at once |
| `CapabilityCheck.MergeRightMeaning` | engine/pipeline/core/compatible_check.cpp:365-399 | the same for merging three from the right |
| `CapabilityCheck.MergeAssociates` | engine/pipeline/core/compatible_check.cpp:365-399 | associative up to meaning, failures included |
| `Negotiation.SplitMime` | engine/pipeline/core/compatible_check.cpp:129-150 | splitting at the first slash undoes writing type, slash, subtype |
| `Negotiation.SubsetRule` | engine/pipeline/core/compatible_check.cpp:119-158 | the rule of section 5.1 of RFC 2045: type and subtype match without regard to case, a star matches every subtype, a lone star everything |
| `Negotiation.SubsetExact` | engine/pipeline/core/compatible_check.cpp:127-158 | for all strings: the subset test succeeds if and only if the first is a type, a slash and a subtype, and the second is `*` or has the same type and a subtype that is `*` or the same |
| `Negotiation.EqIgnoreCaseExact` | engine/pipeline/core/compatible_check.cpp:118-124 | strings are the same but for case when the letters `a` to `z` and `A` to `Z` are taken for the same, and nothing else |
| `Negotiation.SubsetReflexive` | engine/pipeline/core/compatible_check.cpp:127-158 | a mime is a subset of itself if and only if it has a type and a slash |
| `Negotiation.SubsetTransitive` | engine/pipeline/core/compatible_check.cpp:127-158 | the subset relation is transitive |
| `Negotiation.MergeCapability` | engine/pipeline/core/compatible_check.cpp:401-413 | succeeds if and only if the origin's mime is covered by the other's and no shared key has disjoint values; the result has the origin's mime and admits exactly what both sides admit |
| `Negotiation.MergeByParts` | engine/pipeline/core/compatible_check.cpp:400-413 | the same with the mime types written out in parts, and for a universe of `*` |
| `Negotiation.UncoveredRefused` | engine/pipeline/core/compatible_check.cpp:405-407 | an origin whose mime is not covered merges with nothing, whatever the keys |
| `Negotiation.ApplyCapabilitySet` | engine/pipeline/core/compatible_check.cpp:415-424 | succeeds if and only if some capability of the set is compatible with the origin in that sense, and gives the merge with the first such |
| `Negotiation.FixKeys` | engine/pipeline/core/compatible_check.cpp:426-444 | every known key gets the fixed value extracted for it, if there is one; no other tag is touched |
| `Negotiation.MergeMetaWithCapability` | engine/pipeline/core/compatible_check.cpp:462-492 | succeeds exactly when the capability's mime has a type and the keys merge; sets the mime to the capability's, gives known keys their fixed values and keeps all other meta data; empty on failure |
| `Negotiation.NegotiatedValue` | engine/pipeline/core/compatible_check.cpp:426-492 | a key that either side constrains ends up with one fixed number that every side constraining it admits |
| `Negotiation.MetaKeysExact` | engine/pipeline/core/compatible_check.cpp:466-471 | exactly the twelve capability keys are taken from the meta data |
| `Negotiation.NegotiatedChoice` | engine/pipeline/core/compatible_check.cpp:426-446 | of a merged value the fixed number is taken, the first end of an interval, or the first of a list |
| `Negotiation.NothingToChoose` | engine/pipeline/core/compatible_check.cpp:426-446 | an empty list, or a value of another type, leaves the tag as it was |
| `MemoryPool.FirstFit` | src/common/avsharedmemorypool.cpp:116-121 | the first idle block that is large enough; all before it are too small |
| `MemoryPool.Smallest` | src/common/avsharedmemorypool.cpp:113-127 | a smallest idle block, and the first of them |
| `MemoryPool.AVSharedMemoryPool.Init` | src/common/avsharedmemorypool.cpp:43-67 | accepted exactly on a pool not initialised, with a size below 100 MB, a maximum from 1 to 10240 and allocations that succeed; then as many blocks of the configured size are idle as asked for, up to the maximum |
| `MemoryPool.AVSharedMemoryPool.AllocMemory` | src/common/avsharedmemorypool.cpp:69-79 | a new block of the size asked for, or none |
| `MemoryPool.AVSharedMemoryPool.SearchIdle` | src/common/avsharedmemorypool.cpp:112-127 | one pass finds the first fit, or the smallest block if nothing fits |
| `MemoryPool.AVSharedMemoryPool.DoAcquireMemory` | src/common/avsharedmemorypool.cpp:108-147 | reuse, allocation or eviction as the specification has it, with the whole new state |
| `MemoryPool.AVSharedMemoryPool.AcquireMemory` | src/common/avsharedmemorypool.cpp:172-212 | an invalid size changes nothing; on lists in order and with a successful allocation, a valid request is served exactly unless no block is idle and the maximum is busy, with a block that nobody holds, at least of the caller's size, and of the configured size in fixed-size mode |
| `MemoryPool.AVSharedMemoryPool.ReleaseMemory` | src/common/avsharedmemorypool.cpp:81-106 | a busy block becomes idle, any other block is deleted |
| `MemoryPool.AVSharedMemoryPool.SetNonBlocking` | src/common/avsharedmemorypool.cpp:214-222 | only the flag changes |
| `MemoryPool.AVSharedMemoryPool.Reset` | src/common/avsharedmemorypool.cpp:224-239 | idle blocks are deleted, busy ones stay listed |
| `MemoryPool.AttemptOutcome` | src/common/avsharedmemorypool.cpp:108-147 | if allocation succeeds, an attempt brings nothing if and only if the idle list is empty and the maximum is busy; otherwise a block nobody holds and large enough, the first fitting idle one if any; what is evicted is a smallest idle block |
| `MemoryPool.AttemptWithoutAlloc` | src/common/avsharedmemorypool.cpp:108-147 | when allocation fails, only an idle block that fits is handed out |
| `MemoryPool.AttemptKeeps` | src/common/avsharedmemorypool.cpp:108-147 | an attempt keeps every block in one place of one list and the bound, and appends what it found to the busy list |
| `MemoryPool.TurnKeeps` | src/common/avsharedmemorypool.cpp:183-197 | one turn of the acquire loop, to its return or its wait, keeps the invariant and hands out no held block |
| `MemoryPool.CheckSizeExact` | src/common/avsharedmemorypool.cpp:149-170 | valid are positive sizes in variable-size mode, and in fixed-size mode -1 and positive sizes, up to the configured one |
| `MemoryPool.AcquireServes` | src/common/avsharedmemorypool.cpp:172-198 | a call of a thread in an interleaving: refused, served with a block of the caller's size, or made to wait for it, each in exactly the case described |
| `MemoryPool.WakeServes` | src/common/avsharedmemorypool.cpp:184-195 | a thread that wakes is served with a block of the size it waits for unless the pool is exhausted, and leaves when forced out |
| `MemoryPool.ReleaseServes` | src/common/avsharedmemorypool.cpp:81-106 | giving a block back makes it the last idle one and tells every waiting thread |
| `MemoryPool.SetNonBlockingServes` | src/common/avsharedmemorypool.cpp:214-222 | the flag is set as asked, and setting it tells every waiting thread |
| `MemoryPool.StepKeeps` | src/common/avsharedmemorypool.cpp:81-222 | acquire, wake-up, release and `SetNonBlocking` keep the invariant; no release deletes a block |
| `MemoryPool.StepLive` | src/common/avsharedmemorypool.cpp:108-212 | from any state, a step adds blocks up to the maximum and no further; in fixed-size mode none are lost |
| `MemoryPool.InitEstablishes` | src/common/avsharedmemorypool.cpp:43-67 | a successful `Init` on a fresh pool establishes the invariant |
| `MemoryPool.RunsAreSafe` | src/common/avsharedmemorypool.cpp:43-222 | in every state of every interleaving: idle, busy and deleted blocks are disjoint and listed once, at most the maximum live, fixed-size blocks have the configured size, callers hold exactly the busy blocks, no held block is handed out, and an un-notified waiter exists only while the idle list is empty and the maximum is busy |
| `MemoryPool.InitAgain` | src/common/avsharedmemorypool.cpp:43-67 | over every run after a second `Init`, the maximum is kept if the lists leave room for the preallocation; if not, the number of blocks never grows further, and in fixed-size mode never comes down |
| `MemoryPool.ResetKeepsBusy` | src/common/avsharedmemorypool.cpp:224-239 | a block held over `Reset` makes the next `Init` exceed the maximum |
| `MetaParcel.BaseTypesToParcel` | src/meta/any.cpp:63-111 | type code and value for the eleven base types; the invalid code and a failure for any other type |
| `MetaParcel.AnyToParcel` | interface/inner_api/meta/any.h:464-486 | the base path, then for values of at most eight bytes the enumeration path, which reports success in any case |
| `MetaParcel.EntryToParcel` | src/meta/meta.cpp:743-745 | key, type and value, up to the first write that fails |
| `MetaParcel.Meta.ToParcel` | src/meta/meta.cpp:737-756 | on success every entry is appended, each key once; on failure contents and write position are as before the call |
| `MetaParcel.AnyFromParcel` | src/meta/any.cpp:135-162 | base types by their code; the invalid code makes an enumeration of the tag's type, if it has one; any other code fails |
| `MetaParcel.Meta.FromParcel` | src/meta/meta.cpp:758-779 | a count out of bounds is refused; entries are read up to the first that fails; the old map is gone in any case |
| `MetaParcel.EnumTravels` | interface/inner_api/meta/any.h:955-964 | an enumeration value of any width and signedness survives the cast to the signed integer it travels in and back |
| `MetaParcel.WireFormat` | src/meta/any.cpp:63-113 | the type code and the cell of each kind of value |
| `MetaParcel.EntryFormat` | src/meta/meta.cpp:742-746 | an entry is the key, the announced type and the value; values without a type of their own are announced as integers of 32 or 64 bits |
| `MetaParcel.MetaFormat` | src/meta/meta.cpp:737-756 | a map is the number of entries and then one entry after the other |
| `MetaParcel.EntriesFit` | src/meta/meta.cpp:742-750 | in a parcel with room, entries without a refused value are written in full |
| `MetaParcel.MetaFits` | src/meta/meta.cpp:737-756 | in a parcel with room, writing succeeds on every map without a refused value and appends exactly its encoding |
| `MetaParcel.RefusedFails` | src/meta/meta.cpp:737-756 | a value of an unsupported large type, or none, makes every attempt to write the map fail |
| `MetaParcel.AnyRoundTrip` | src/meta/any.cpp:63-162 | a parcelable value is read back and exactly its cells are consumed |
| `MetaParcel.AnyRoundTripExact` | interface/inner_api/meta/any.h:464-499 | a written value comes back, whatever follows it, if and only if it is of a base type or an enumeration of its tag's type |
| `MetaParcel.EntriesRoundTrip` | src/meta/meta.cpp:758-779 | entries of parcelable values are read back in any order of the keys |
| `MetaParcel.MetaRoundTrip` | src/meta/meta.cpp:737-779 | for every map of parcelable values and any trailing data, reading gives the same map and consumes exactly what was written |
| `MetaParcel.EntriesAreReadable` | src/meta/meta.cpp:758-779 | whatever a parcel holds, each value read from it is of a base type or of the enumeration type of its tag |
| `MetaParcel.CountChecked` | src/meta/meta.cpp:758-765 | a count that is negative or beyond the capacity is refused with an empty map |
| `MetaParcel.CodesRead` | src/meta/any.cpp:137-162 | exactly the eleven base codes can be read, and the invalid code under a tag with an enumeration default |
| `MetaParcel.MissingValues` | src/meta/any.cpp:141-153 | a base value that is missing reads as false, zero or empty |
| `MetaParcel.EnumMistaken` | interface/inner_api/meta/any.h:486-499 | an enumeration value under the tag of another of the same carrier comes back as a value of the other |
| `MetaParcel.MetaRoundTripExact` | src/meta/meta.cpp:737-779 | a map comes back from its encoding, whatever follows, if and only if every value in it is parcelable |
| `MetaParcel.EntriesReadable` | src/meta/meta.cpp:758-779 | when every value is parcelable, or small without an enumeration to fall back on, reading back succeeds if and only if all are parcelable |
| `MetaParcel.SmallIsLost` | interface/inner_api/meta/any.h:464-499 | such a map: an int8_t is written without complaint and the parcel cannot be read |
| `MetaParcel.FullParcelUnnoticed` | interface/inner_api/meta/any.h:464-486 | writing a small value reports success always, and is complete if and only if there was room |
| `MetaParcel.WholeMapExact` | src/meta/meta.cpp:737-779 | the whole encoding of a parcelable map arrives if and only if there is room for it, and then the write reports success and the map can be read back |
| `SyncClock.MediaSyncManager.SetPlaybackRate` | engine/pipeline/core/media_sync_manager.cpp:65-81 | negative rates are refused; an anchored clock is anchored anew at the time reached, and the rate is set (`RateSetsSpeed`, `RateOfNextReport`, `RateRefused` say what it shows then) |
| `SyncClock.MediaSyncManager.ClipMediaTime` | engine/pipeline/core/media_sync_manager.cpp:242-254 | clipped to the known ends of the range |
| `SyncClock.MediaSyncManager.Pause` | engine/pipeline/core/media_sync_manager.cpp:181-199 | records the clipped time reached; a second pause changes nothing |
| `SyncClock.MediaSyncManager.WaitAllPrerolled` | engine/pipeline/core/media_sync_manager.cpp:134-137 | sets whether synchronizers wait for each other, and nothing else |
| `SyncClock.MediaSyncManager.SetAllSyncShouldWaitNoLock` | engine/pipeline/core/media_sync_manager.cpp:139-153 | once per round, the set of reporters is emptied |
| `SyncClock.MediaSyncManager.Resume` | engine/pipeline/core/media_sync_manager.cpp:155-171 | anchors at the paused time only when the synchronizers had been told to wait |
| `SyncClock.MediaSyncManager.ResetTimeAnchorNoLock` | engine/pipeline/core/media_sync_manager.cpp:256-262 | anchor, paused time and priority are "none" |
| `SyncClock.MediaSyncManager.SeekTo` | engine/pipeline/core/media_sync_manager.cpp:201-217 | accepted exactly inside a known range; then the anchor is reset and a new round begins |
| `SyncClock.MediaSyncManager.ResetAll` | engine/pipeline/core/media_sync_manager.cpp:219-240 | back to the state of a new manager |
| `SyncClock.MediaSyncManager.UpdateTimeAnchor` | engine/pipeline/core/media_sync_manager.cpp:279-300 | a registered supplier of at least the current priority sets the anchor (`ReportSetsAnchor` and `ReportIgnored` say what it shows then); a report less than 51 ms from the target ends a seek; frames are not rendered while it lasts |
| `SyncClock.MediaSyncManager.GetMediaTimeNow` | engine/pipeline/core/media_sync_manager.cpp:301-327 | the target while seeking, the paused time or 0 while paused, else the clipped time that the anchor gives |
| `SyncClock.MediaSyncManager.GetClockTimeNow` | engine/pipeline/core/media_sync_manager.cpp:329-338 | the system clock, or that of the pause while paused |
| `SyncClock.MediaSyncManager.GetClockTime` | engine/pipeline/core/media_sync_manager.cpp:339-362 | the moment at which the anchor gives the media time asked for, to within one tick, for any media time; "none" without an anchor or with a rate of zero |
| `SyncClock.MediaSyncManager.FindTrack` | engine/pipeline/core/media_sync_manager.cpp:88-94 | the first record of the track, if there is one |
| `SyncClock.MediaSyncManager.SetMediaTimeRangeStart` | engine/pipeline/core/media_sync_manager.cpp:88-123 | the track's start is recorded and the overall minimum lowered |
| `SyncClock.MediaSyncManager.SetMediaTimeRangeEnd` | engine/pipeline/core/media_sync_manager.cpp:124-132 | the track's end is recorded and the overall maximum raised |
| `SyncClock.MediaSyncManager.AddSynchronizer` | engine/pipeline/core/media_sync_manager.cpp:41-51 | added once |
| `SyncClock.MediaSyncManager.RemoveSynchronizer` | engine/pipeline/core/media_sync_manager.cpp:53-63 | removed if it was there, the others keep their order |
| `SyncClock.MediaSyncManager.ReportPrerolled` | engine/pipeline/core/media_sync_manager.cpp:364-385 | a repeated report counts once; when as many have reported as are registered, all reporters are notified and the round restarts empty |
| `SyncClock.RateContinuous` | engine/pipeline/core/media_sync_manager.cpp:65-81 | on every clock, a change to a rate that is not zero leaves the media time shown as it is |
| `SyncClock.RateContinuousExact` | engine/pipeline/core/media_sync_manager.cpp:65-81 | a rate change is continuous if and only if it is refused, or the rate is not zero, or the clock is seeking or paused, or already showed "none", clipped |
| `SyncClock.SentinelExact` | engine/pipeline/core/media_sync_manager.cpp:72-79 | an anchored clock is still anchored after a rate change if and only if the time reached does not truncate to -1; otherwise it gives "none" at every later moment |
| `SyncClock.SentinelStopsClock` | engine/pipeline/core/media_sync_manager.cpp:76-79 | such a clock: a rate change at media time -1 stops it, which would have gone on |
| `SyncClock.PauseFreezes` | engine/pipeline/core/media_sync_manager.cpp:181-199 | after a pause the time shown is that of the pause at any later moment if and only if the clock was not running at "none"; there it shows 0 |
| `SyncClock.ResumeReading` | engine/pipeline/core/media_sync_manager.cpp:155-171 | resuming goes on from the paused time if there is one and the synchronizers had been told to wait, and otherwise shows the time that the old anchor has reached |
| `SyncClock.PauseResumeExact` | engine/pipeline/core/media_sync_manager.cpp:155-199 | a pause and the resume after it move the time shown back if and only if "none" was shown at the pause and the clock would show a negative time at the resume |
| `SyncClock.EarlyPauseFallsBack` | engine/pipeline/core/media_sync_manager.cpp:155-199 | such a clock: play, pause and play again before the first anchor shows 0 and then -1 |
| `SyncClock.EventExact` | engine/pipeline/core/media_sync_manager.cpp:65-199 | a rate change, pause or resume moves the time shown back if and only if it resumes a clock paused at "none" to a negative time; the clock goes on in any case |
| `SyncClock.RunGoes` | engine/pipeline/core/media_sync_manager.cpp:65-199 | rate changes, pauses and resumes keep a clock going over the whole run, anchored or not, with any range and at negative times too |
| `SyncClock.TimeNeverGoesBack` | engine/pipeline/core/media_sync_manager.cpp:65-199 | between any two moments of a run of rate changes, pauses, resumes and reads without a resume that falls back, the media time shown does not decrease |
| `SyncClock.NeverBackExact` | engine/pipeline/core/media_sync_manager.cpp:65-199 | over every run from a running clock, the media time shown never decreases, before and after each event, if and only if no clock paused at "none" is resumed to a negative time |
| `SyncClock.TimedPausesSuffice` | engine/pipeline/core/media_sync_manager.cpp:155-199 | it is enough that no pause is made while "none" is shown |
| `SyncClock.FrozenWhilePaused` | engine/pipeline/core/media_sync_manager.cpp:155-199 | between a pause and the next resume the time shown does not move, and with the wait flag set and a time to go on from, the resume goes on from it |
| `SyncClock.TruncExact` | engine/pipeline/core/media_sync_manager.cpp:310-310 | the conversion to an integer goes towards zero |
| `SyncClock.ClipNearest` | engine/pipeline/core/media_sync_manager.cpp:242-254 | clipping leaves a time that the known ends allow and otherwise takes the nearest one; of ends in the wrong order, the upper |
| `SyncClock.NoMediaTime` | engine/pipeline/core/media_sync_manager.cpp:301-309 | at a rate of zero, or without an anchor or a system clock, there is no media time |
| `SyncClock.ReportSetsAnchor` | engine/pipeline/core/media_sync_manager.cpp:279-311 | after a report that counts, the time shown at any moment is the media time reported plus the clock time gone since, times the rate, truncated and clipped; at the clock time reported, the media time reported |
| `SyncClock.ReportIgnored` | engine/pipeline/core/media_sync_manager.cpp:283-291 | a report of an unregistered supplier, of a lower priority or without a time changes the media time of no moment |
| `SyncClock.ReportEndsSeek` | engine/pipeline/core/media_sync_manager.cpp:292-295 | a seek ends exactly with a report of both times less than 51 ms from its target |
| `SyncClock.RateSetsSpeed` | engine/pipeline/core/media_sync_manager.cpp:65-81 | after a rate change the time shown at any later moment is the time reached at the change plus the time gone since, times the rate set |
| `SyncClock.RateOfNextReport` | engine/pipeline/core/media_sync_manager.cpp:65-81 | anchored or not, from the next report that counts the clock runs at the rate set |
| `SyncClock.RateRefused` | engine/pipeline/core/media_sync_manager.cpp:67-69 | a refused rate changes no reading at any moment |
| `SyncClock.ResumeRuns` | engine/pipeline/core/media_sync_manager.cpp:155-171 | what a resumed clock shows at every later moment |
| `SyncClock.PauseIsSkipped` | engine/pipeline/core/media_sync_manager.cpp:155-199 | in every state reached with synchronizers waiting for each other, a clock paused while it shows a time and resumed at any later moment goes on from that time at its rate |
| `SyncClock.PlayedHasWaited` | engine/pipeline/core/media_sync_manager.cpp:139-171 | in every such state a clock that has been played has told its synchronizers to wait |
| `SyncClock.WaitsAsTold` | engine/pipeline/core/media_sync_manager.cpp:134-137 | in every reachable state synchronizers wait for each other as told last since the last reset |
| `SyncClock.NoWaiting` | engine/pipeline/core/media_sync_manager.cpp:139-171 | without waiting, resumes and seeks leave the round alone and pauses are not skipped |
| `SyncClock.SeekShows` | engine/pipeline/core/media_sync_manager.cpp:201-217 | an accepted seek shows its target and forgets anchor, paused time and priority, also over a resume; a refused one changes nothing |
| `SyncClock.SeekHolds` | engine/pipeline/core/media_sync_manager.cpp:201-327 | over any run the target is shown until a report comes within 51 ms of it, or another seek is accepted or the manager reset |
| `SyncClock.ClockNowHeld` | engine/pipeline/core/media_sync_manager.cpp:329-338 | the system clock shown stands still from a pause to the next resume |
| `SyncClock.FirstAnchor` | engine/pipeline/core/media_sync_manager.cpp:155-327 | a new clock is paused at 0; played and anchored, it runs at normal speed from the media time reported |
| `SyncClock.ClockTimeInverts` | engine/pipeline/core/media_sync_manager.cpp:301-349 | at the clock time given for a media time, that media time is reached to within one tick and never passed |
| `SyncClock.ClockTimeNear` | engine/pipeline/core/media_sync_manager.cpp:301-349 | the same for any media time, before the anchor and negative ones too: it is the one reached, to within one tick |
| `SyncClock.StepCovers` | engine/pipeline/core/media_sync_manager.cpp:88-132 | every operation keeps the overall range around every track's record and around the position sought |
| `SyncClock.RunCovers` | engine/pipeline/core/media_sync_manager.cpp:88-262 | in every reachable state the minimum is at or below every recorded start and the maximum at or above every recorded end |
| `SyncClock.RangeIsExact` | engine/pipeline/core/media_sync_manager.cpp:115-132 | in every reachable state the range is exactly from the lowest start to the highest end given since the last reset |
| `SyncClock.TracksAreExact` | engine/pipeline/core/media_sync_manager.cpp:88-113 | in every reachable state each track has on record what was last given for it since the last reset |
| `SyncClock.ReadingInRange` | engine/pipeline/core/media_sync_manager.cpp:201-327 | in every reachable state with a known, ordered range a running read lies in it, and so does every read during a seek |
| `SyncClock.StartNoneExact` | engine/pipeline/core/media_sync_manager.cpp:115-123 | setting a start keeps the starts covered if and only if it is a time, or the minimum is at or below "none", or no other track has recorded a start |
| `SyncClock.StartNoneForgets` | engine/pipeline/core/media_sync_manager.cpp:115-123 | such a state: a second track without a start makes the first one's start forgotten |
| `SyncClock.HighestIsMax` | engine/pipeline/core/media_sync_manager.cpp:286-287 | the highest of the counted priorities bounds them all and is one of them |
| `SyncClock.PriorityIsHighest` | engine/pipeline/core/media_sync_manager.cpp:256-300 | in every reachable state the current priority is the highest that a registered supplier with a valid time has reported since the last anchor reset |
| `SyncClock.RegisteredOnce` | engine/pipeline/core/media_sync_manager.cpp:41-63 | in every reachable state synchronizers are registered once and recorded as prerolled once |
| `SyncClock.RegisteredExact` | engine/pipeline/core/media_sync_manager.cpp:41-63 | in every reachable state exactly those synchronizers are registered that were added and not removed since the last reset |
| `SyncClock.ReportStep` | engine/pipeline/core/media_sync_manager.cpp:364-385 | nobody is notified before all registered synchronizers have reported; then each is, exactly once, and the round restarts empty |
| `SyncClock.ReportsIgnored` | engine/pipeline/core/media_sync_manager.cpp:369-371 | when synchronizers do not wait for each other, reports are ignored |
| `SyncClock.BarrierHolds` | engine/pipeline/core/media_sync_manager.cpp:139-385 | over any run of all operations with stable registration, a report is answered exactly when the reporters since the last batch, seek or first resume are then all the registered synchronizers, and the batch notifies each exactly once |
| `SyncClock.BatchExact` | engine/pipeline/core/media_sync_manager.cpp:378-384 | whoever reports: a batch that is sent notifies each registered synchronizer exactly once if and only if everyone who reported is registered |
| `SyncClock.StrangerOpensBarrier` | engine/pipeline/core/media_sync_manager.cpp:378-384 | an unregistered reporter completes a round in which a registered one is missing |
| `SyncClock.OpensExact` | engine/pipeline/core/media_sync_manager.cpp:53-63 | reports of registered synchronizers can still bring a batch if and only if fewer reporters are recorded than synchronizers are registered |
| `SyncClock.RemovalBlocksBarrier` | engine/pipeline/core/media_sync_manager.cpp:53-63 | such a round: removing the one still missing leaves everyone registered reported and nobody ever notified |
| `FilterLifecycle.ErrorStays` | src/filter/filter.cpp:673-680 | over any run of state changes a filter in ERROR stays there until RELEASED |
| `FilterLifecycle.StateExact` | src/filter/filter.cpp:673-680 | over any run of state changes a filter is in error if and only if an error, its first state or a change to it, has no release after it; otherwise it is in the state asked for last |
| `FilterLifecycle.Filter.ChangeState` | src/filter/filter.cpp:673-680 | ERROR is left by RELEASED only |
| `FilterLifecycle.Filter.Prepare` | src/filter/filter.cpp:97-134 | OK if and only if every filter downstream can be prepared and is not in error before; then all of them are READY without an error code, each after all its next filters; otherwise the error is that of a filter downstream that was in error, or whose own preparation failed and which is in error now; nothing else changes |
| `FilterLifecycle.Filter.PrepareNext` | src/filter/filter.cpp:124-131 | the loop over the next filters: all below them are prepared, or the first failure is passed on |
| `FilterLifecycle.Composes` | src/filter/filter.cpp:124-131 | the outcome of preparing the next filters adds up to the outcome of preparing the filter |
| `FilterLifecycle.Downstream` | src/filter/filter.cpp:124-131 | on an acyclic graph the recursion goes to fewer filters and never comes back |
| `FilterLifecycle.DownsetSplit` | src/filter/filter.cpp:124-131 | a filter reaches itself and what its next filters reach, and nothing else |
| `FilterLifecycle.Filter.Flush` | src/filter/filter.cpp:387-400 | exactly the filters downstream, the filter included, take their current job number as the new base |
| `FilterLifecycle.Filter.SubmitJob` | src/filter/filter.cpp:513-517 | jobs are numbered upwards |
| `FilterLifecycle.DropIffFlushed` | src/filter/filter.cpp:387-558 | in every interleaving of submissions, flushes and executions a job runs with its drop flag set if and only if a flush came after its submission and before its check |
| `PcmConvert.Read` | src/common/pcm_convert.cpp:39-86 | a sample of the format's range |
| `PcmConvert.Write` | src/common/pcm_convert.cpp:39-86 | as many bytes as the format is wide |
| `PcmConvert.WrittenBytes` | src/common/pcm_convert.cpp:39-86 | little endian: byte i of a written sample is the sample divided by 256 to the power of i, modulo 256 |
| `PcmConvert.ReadWrite` | src/common/pcm_convert.cpp:39-86 | a sample written is read back |
| `PcmConvert.WriteRead` | src/common/pcm_convert.cpp:39-86 | bytes read as a sample are written back |
| `PcmConvert.FloorDiv` | src/common/pcm_convert.cpp:156-161 | the truncating division with its correction is the floor, for negative samples too |
| `PcmConvert.FloatRoundTrip` | src/common/pcm_convert.cpp:105-154 | samples of 8, 16 and 24 bits come back from the float that they are turned into |
| `PcmConvert.RoundExact` | src/common/pcm_convert.cpp:125-154 | rounding goes to the nearest integer, halves away from zero |
| `PcmConvert.FloatSaturates` | src/common/pcm_convert.cpp:125-154 | beyond full scale a float gives the highest or lowest sample |
| `PcmConvert.WidenU8` | src/common/pcm_convert.cpp:105-154 | from 8 bits to any format the level is kept exactly |
| `PcmConvert.NarrowToU8` | src/common/pcm_convert.cpp:105-137 | down to 8 bits the nearest level is taken, halves up, the highest one saturating |
| `PcmConvert.ConvertIsFromLevel` | src/common/pcm_convert.cpp:192-326 | every pair of formats does the same: the sample's level on the 32-bit scale, then the target's sample for it |
| `PcmConvert.ConvertInRange` | src/common/pcm_convert.cpp:192-326 | the result is a sample of the target format |
| `PcmConvert.SampleVia` | src/common/pcm_convert.cpp:192-326 | going through a format not narrower than both ends is going there directly |
| `PcmConvert.SampleLost` | src/common/pcm_convert.cpp:192-326 | through a format narrower than both ends, some sample comes out different |
| `PcmConvert.BufferVia` | src/common/pcm_convert.cpp:177-326 | the same for buffers of any length, S32 to S24 to S16 among them |
| `PcmConvert.RoundTrip` | src/common/pcm_convert.cpp:177-326 | through any format at least as wide, buffers of any length come back byte for byte |
| `PcmConvert.RecodedLength` | src/common/pcm_convert.cpp:177-190 | n samples in, n samples of the output width out |
| `PcmConvert.ConvertSamples` | src/common/pcm_convert.cpp:177-190 | writes exactly the converted samples, sample count times output width, and nothing behind them |
| `PcmConvert.ConvertPcmSampleFormat` | src/common/pcm_convert.cpp:390-431 | error cases in order; equal formats are copied, others converted; on error or without samples the output is untouched |
| `PcmConvert.NarrowError` | src/common/pcm_convert.cpp:226-235 | S16 to U8 and back moves a sample by at most 128, and by 128 to 255 where the U8 step saturates |
| `PcmConvert.NarrowMonotone` | src/common/pcm_convert.cpp:226-235 | S16 to U8 is monotone |
| `PluginRegister.RegisterImpl.AddPlugin` | engine/plugin/core/plugin_register.cpp:51-71 | refused are a rank outside 0 to 100 or the invalid type, then a version other than 1.0 (any for generic plugins), then a repeated name; these change nothing; otherwise the entry has the definition's type and mode and the package's loader |
| `PluginRegister.CodecTypes` | engine/plugin/core/plugin_register.cpp:111-119 | codecs are the audio and video decoders and encoders, and only they go to the front when in hardware |
| `PluginRegister.RegisterImpl.UpdateRegisterTableAndRegisterNames` | engine/plugin/core/plugin_register.cpp:73-120 | table and names gain the plugin, hardware codecs at the front; the loader moves into the entry; unknown types change nothing |
| `PluginRegister.RegisterData.ListPlugins` | engine/plugin/core/plugin_register.cpp:305-316 | the names of the type, reversed for codecs when hardware is not preferred |
| `PluginRegister.RegisterData.DeletePlugin` | engine/plugin/core/plugin_register.cpp:417-431 | the name goes from the table and from the list of its type, and from no other |
| `PluginRegister.RegisterData.ErasePluginsOfType` | engine/plugin/core/plugin_register.cpp:435-442 | exactly the entries of the type that hold the loader go |
| `PluginRegister.RegisterData.EraseRegisteredPluginsByLoader` | engine/plugin/core/plugin_register.cpp:432-444 | exactly the entries that hold the loader go, for every type, and the other names keep their order |
| `PluginRegister.AddAgrees` | engine/plugin/core/plugin_register.cpp:108-119 | adding a name keeps list and table in agreement and hardware codecs first |
| `PluginRegister.EraseAgrees` | engine/plugin/core/plugin_register.cpp:417-444 | erasing names keeps them so |
| `PluginRegister.StepKeeps` | engine/plugin/core/plugin_register.cpp:51-120 | every registration and every erasure keeps the agreement for every type |
| `PluginRegister.RunsAgree` | engine/plugin/core/plugin_register.cpp:51-120 | over any sequence of registrations and erasures, each type's list names the table's keys, each once, hardware codecs before all others |
| `PluginRegister.PreferredFirst` | engine/plugin/core/plugin_register.cpp:305-316 | the list shown names every plugin of the type once, codecs of the preferred mode before the others |
| `PluginRegister.PackageShape` | engine/plugin/core/plugin_register.cpp:108-109 | of the plugins that a package registers only the first holds its loader |
| `PluginRegister.PackageErased` | engine/plugin/core/plugin_register.cpp:108-109 | erasing a package's loader restores the register from before the package if and only if the package registered at most one plugin |
| `PluginRegister.SecondPluginStays` | engine/plugin/core/plugin_register.cpp:108-109 | such a package: of two plugins from one library the second is still there after the erasure |
| `PluginRegister.EraseUndoesAdd` | engine/plugin/core/plugin_register.cpp:417-431 | deleting a name undoes adding it at either end |

## Left out

- FilterGraph.PipelineCore.LinkPorts: both ports belong to the pipeline; `LinkFilters`, `AddFilters` and the creation of ports in `Init` only add easy cases.
- FilterGraph.PipelineCore.RemoveFilterChain: the first filter is one of the pipeline's, whose links are closed; chains of foreign filters are not followed.
- FilterGraph.PipelineCore.Prepare: what a filter does in its own `Prepare` is a status only; null filters in the list, the pipeline state and the count of ready events are not modelled.
- FilterGraph.PipelineCore.Stop: what a filter does while it stops is a parameter, its status and the chains it asks to remove, all within the pipeline.
- FilterGraph.InPort.Connect: ports are strong references with an owner; expired weak pointers and ports without a filter are not modelled.
- CapabilityCheck.MergeIsIntersection: stated for known keys, well-typed values and shared values that are sound to check. For all pairs but two intervals no weaker condition will do, by `CheckExact`, given intervals less than 2^31 wide and, against a list, in order; `WideIntervalExact` and `ReversedIntervalExact` say why. The ends of two intervals lie less than 2^31 apart, which is sufficient only. The other lemmas about merging share these conditions.
- CapabilityCheck.MergeCapabilityKeys: keys are visited in an arbitrary order instead of sorted, which the result does not depend on.
- Negotiation.SubsetRule: `tolower` is that of the C locale.
- MemoryPool.AVSharedMemoryPool.AcquireMemory: the wait of a blocking call is part of the step relation, not of the method, since another thread has to run meanwhile.
- MemoryPool.RunsAreSafe: runs begin with a successful `Init` on a fresh pool and end before `Reset`; a block is released by its holder, once; block identities are not reused.
- MetaParcel.Meta.ToParcel: a parcel is a row of cells with a capacity; the byte layout of the parcel library, and what it reads from a cell of another type, are not part of this model (a mismatched read gives the default and stays). Keys are written in an arbitrary order instead of sorted.
- MetaParcel.Meta.FromParcel: the tables of tags and defaults are a parameter; of a default only the enumeration type matters.
- SyncClock.TimeNeverGoesBack: runs change to rates that are not zero, those below 1e-9 counting as zero as in the code; `RateContinuousExact` says what a rate of zero does. The system clock is known, not "none"; `double` is a real number, and 64-bit overflow is not modelled.
- SyncClock.RunCovers: range bounds are times, not "none"; `StartNoneExact` gives the condition otherwise.
- SyncClock.BarrierHolds: begins with an empty round, and registration is stable during the run; `BatchExact` and `OpensExact` give the conditions otherwise.
- SyncClock.MediaSyncManager.SetAllSyncShouldWaitNoLock: the calls that tell the synchronizers to wait are not recorded; null synchronizers are not modelled.
- FilterLifecycle.Filter.Prepare: synchronous mode on a graph that does not change; next filters added in `DoPrepare`, filters with a task thread and `WaitAllState` are not modelled. The map of next filters is flattened to one list. What a filter's own `DoPrepare` comes to is a parameter, the same if it is asked twice in one call.
- FilterLifecycle.Filter.Flush: `DoFlush`, which each kind of filter defines, is not modelled.
- PcmConvert.ConvertIsFromLevel: steps through `float` are modelled over the reals, which is exact for 8, 16 and 24 bits; from S32 to U8 only for samples that are multiples of 256, and the lemmas are stated for those.
- PcmConvert.BufferVia: does not cover S32 to U8 through S16 or S24, where `float` rounding of the direct conversion can differ.
- PcmConvert.ConvertPcmSampleFormat: the F32LE format, input and output in one buffer, and overflow of the byte count are not modelled.
- PluginRegister.RegisterImpl.AddPlugin: of a plugin's information only type, codec mode and loader are kept; package definitions and capabilities are not.
- PluginRegister.PackageErased: loading and unloading of libraries is not modelled, only what the register keeps of it.
- The other pipeline operations (start, pause, resume, flush, events) forward to the filters in order and would only add easy members.
- Plugin loaders, sniffers, the static plugin list, surface, shared memory and codec wrappers, the C interface, logging and tracing.
