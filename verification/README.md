# Verified models of the dynamic linker, the qcow2 reader and the cluster daemons

This project models the parts of the repository that carry the most state and branching, and proves
what they promise:

- the ELF dynamic linker of musl 1.2.5 (`musl-1.2.5/ldso`): the constructor scheduler and the
  constructor/finalizer protocol, the breadth-first dependency closure, symbol lookup through both hash
  tables, thread-local storage layout and installation, RELR relocation, deferred relocations, and the
  rollback of a failed `dlopen`;
- the qcow2 reader (`bridge/src/qcow2.rs`): open, the cached two-level table walk, conversion to a raw
  file and random-access reads;
- micro-segmentation (`microseg`): the policy compiler, its event loop, and the packet filter's verdict;
- the migration planner of the resource scheduler (`drs`);
- the live migration protocol (`livemig`): the wire format and both step machines.

`dafny verify dfyconfig.toml` checks everything.

## How the models are built

Code that changes objects in place is imperative here too: `Dso`, `Reader`, `Tls`, `Loader`, `Engine`,
`Filter`, `Heap` and `Stream` are classes, loops are loops, and each method is proved against a specification on
values. Protocols that run concurrently (`CtorProtocol`, `LiveMig`) are step machines, and their theorems
hold in every state of every run. Fixed choices:

- 64-bit `size_t`, no FDPIC, little-endian Bloom words, Rust's release-mode arithmetic: additions that
  may wrap wrap modulo 2^64, and a cast to 32 bits cuts.
- Files are shorter than 2^63 bytes. Allocations succeed, except where the theorem is about a failure.
- Floating-point numbers are reals without rounding, with infinities and not-a-number where a node without
  cores brings them in; metrics are finite, and the square root is an arbitrary function (monotone where
  that matters).
- The order in which a hash map yields its entries is a nondeterministic choice.

| file | what it holds |
|---|---|
| `Sequences`, `Graphs`, `Cycles`, `PostOrder`, `Bits`, `Bytes` | sequences without repetitions, walks and distances, cycles, recursive depth-first search, bit masks on numbers, big-endian numbers |
| `Dsos` | a loaded object with the fields the linker's algorithms use |
| `CtorQueue`, `BfsDeps`, `CtorSchedule`, `CtorProtocol`, `Deadlock`, `ExitHang` | constructors: order, dependency closure, the two composed, the protocol, threads that wait for each other, and an exit that waits for a thread it has stopped |
| `SymbolHash`, `SymbolLookup` | the hash functions, and the two hash tables |
| `TlsLayout`, `TlsInstall` | thread-local storage |
| `Relr`, `LazyRelocs`, `PrepareLazy`, `Dlopen` | relocations, the list of deferred ones, and rollback |
| `Qcow2`, `Qcow2Layout` | the disk image reader, and images as a writer lays them out |
| `Labels`, `LabelText`, `Microseg`, `Verdicts`, `Priorities`, `Selectors` | identities and the texts they are hashes of, policies, verdicts, and what priorities and selectors are worth |
| `Floats`, `Drs` | floating-point numbers without rounding, and the planner |
| `MigWire`, `LiveMig` | live migration |

## What the code does not do

These properties one would expect turned out false of the code. Each has an input or a run that shows it and,
where the property holds at times, the exact condition.

- `dlopen` prepares lazy relocation of the opened object and then of its dependency list. When the object
  is on a dependency cycle it is on that list, is prepared twice, and the list of deferred objects becomes
  a loop that loses everything that was on it (`PrepareLazy.CycleLosesList`). The list survives exactly
  when the call does not ask for lazy binding, the object was relocated before, or no direct dependency to be
  prepared is listed twice and the object asks for immediate binding or does not reach itself
  (`ListSurvivesExactly`).
- Constructors may open objects while others construct them, and two threads can wait for each other for
  ever (`Deadlock.TwoThreadsDeadlock`, `DeadlockForEver`). Given which objects the constructors of each object
  may open, no run leads to a deadlock exactly when there is no cycle of two or more objects of which each may
  open the next (`DeadlockFreeExactly`).
- The process may not come to its end: once the exit walk has started, no call passes another queue entry, and
  the walk waits for the object whose constructors made that call (`ExitHang.HaltedStep`, `HungForEver`). In
  every state of every run in which the walk is under way some continuation ends it exactly when no object
  before it is held in this way (`ExitEndsExactly`). No run comes to such a state exactly when no object with
  finalizers has constructors that may open anything (`NeverHangsExactly`).
- `convert_to_raw` does not succeed for every readable image: a disk of 2^63 bytes or more has no raw file. It
  succeeds exactly when the size is below that and every cluster is readable, and the cluster count, whose
  sum may wrap, wraps only for sizes that are refused anyway (`Qcow2.Reader.ConvertToRaw`, `WrapRefused`).
- Modifying a policy, or adding one under a name in use, leaves the replaced version's entries in the
  policy map until the next deletion (`Microseg.ModifyingLeavesStale`). The map stays exact exactly when
  every such entry is also generated by another live policy (`WritingKeepsExact`).
- A port rule that names a port and no protocol compiles to a key that the filter never looks up for a
  flow with a protocol (`Verdicts.PortWithoutProtocol`). For every flow an IPv4 packet can have, the filter asks
  for a most specific rule about it exactly when, wherever a live policy has such a rule, live policies rule on
  the port for TCP and for UDP between the same identities (`BlindExactly`).
- An IPv6 packet is looked up without its protocol and port. A most specific rule about its flow is asked for
  exactly when no rule about the flow has a protocol or a port (`BareExactly`), and for all flows exactly when
  no live rule that is about any flow has (`BareSeesExactly`).
- The priority, which the resource definition describes as deciding, is stored and never compared: a policy
  of priority 200 overrides one of priority 1 (`Priorities.WorsePriorityDecides`). Over every run of fresh
  additions and deletions to given policies, a key has the action of a best-priority policy exactly when every
  policy that generates the key has the action of one of the best priority (`RunPriorityExactly`); the same
  holds after a deletion in any state, in whatever order the rest is recompiled (`PriorityExactly`).
- A selector does not select machines with more labels than it names, although the resource definition calls
  it `matchLabels` and its deny-all example relies on that: the empty selector misses every machine whose
  labels, as rendered, have an odd number of odd bytes (`Selectors.EmptySelectorMisses`). Up to collisions of the
  32-bit hash a machine is matched as selectors mean it exactly when no selector selects it, or its whole
  label set is among them (`SelectionExactly`).
- Label sets with commas or equals signs in the wrong place can share an identity (`LabelText.CommaConfuses`);
  without commas, and without equals signs in keys, no two have the same text (`RenderedUnique`).
- `send_msg` cuts the payload length to 32 bits. The receiver gets back the list of messages exactly when
  all payloads are shorter than 2^32 bytes (`MigWire.StreamRoundTrip`, and along every run
  `LiveMig.BytesCarryWire`).
- `copy_dirty_pages` returns the pages read less the pages sent, which is always 0 when it returns, so the
  iterative phase ends after one pass whatever the threshold (`LiveMig.OnePass`).
- A migration can leave no copy of the machine running for good, before and after `DONE` is sent
  (`LiveMig.CanStrand`). In every state of every run this is so exactly when neither copy runs and the
  destination is lost, or the source has given up without sending `DONE` (`StrandedExactly`). `send_pause` is
  never called.

Where comments disagree with code the model follows the code: the planner considers every node with a load
of at least 0.6 and not only the most loaded one, its score is Δσ / (1 + 0.05 · GiB) and not
10 · Δσ / (0.1 · GiB), and a hard affinity rule asks for one companion on the target, not for all, which
makes a rule with a single member forbid every migration (`Drs.LoneAffinityForbids`). The comment on
`copy_dirty_pages` says that it returns the number of pages sent.

## Model

| member | source | states |
|---|---|---|
| `CtorQueue.QueueCtors` | musl-1.2.5/ldso/dynlink.c:1510-1577 | for every dependency graph, cycles included: terminates, stays in the buffer, and the result is the recursive depth-first order; it holds each object reachable by direct dependencies once, root last, every dependency before its dependent unless it reaches it back; the static buffer is taken, and changed, exactly for the application where it suffices; null exactly when an entry's visitor died in a fork; marks are clear again |
| `CtorQueue.SortInto` | musl-1.2.5/ldso/dynlink.c:1541-1566 | queue and stack growing towards each other in one buffer never collide; the queue is a constructor order, the one a recursive search gives, and is null-terminated |
| `CtorQueue.Descend` | musl-1.2.5/ldso/dynlink.c:1554-1563 | descending from an entry stacks what it leaves above the queue, keeps the sort invariant, and ends at an object whose dependencies are all visited |
| `CtorQueue.BoundQueue` | musl-1.2.5/ldso/dynlink.c:1517-1533 | the buffer length exceeds the number of objects the queue can hold, whichever of the two counts is taken, and only their marks are cleared |
| `CtorQueue.SortComplete` | musl-1.2.5/ldso/dynlink.c:1551-1566 | when nothing is unfinished, the finished objects are exactly the reachable ones in the promised order |
| `CtorQueue.InvPush` | musl-1.2.5/ldso/dynlink.c:1558-1561 | stacking an unfinished object keeps sort, buffer and cursors consistent and makes the measure grow within its bound |
| `CtorQueue.InvFinish` | musl-1.2.5/ldso/dynlink.c:1564 | an object enters the queue only when its dependencies are queued or lead back to it, and the slot it takes is free |
| `CtorQueue.Allot` | musl-1.2.5/ldso/dynlink.c:1530-1533 | the static buffer for the application if it has room, and otherwise new memory of the length asked for |
| `CtorQueue.UnwoundPush` | musl-1.2.5/ldso/dynlink.c:1558-1561 | descending into a dependency keeps what is queued and what a recursive search would still find equal to what it finds from the root |
| `PostOrder.RestrictVisit` | musl-1.2.5/ldso/dynlink.c:1517-1524 | the search in a closed part of the graph, by which the queue is sized, is the search in the whole graph |
| `BfsDeps.ExtendBfsDeps` | musl-1.2.5/ldso/dynlink.c:1305-1354 | the list keeps the direct dependencies as a prefix, appends nothing twice, ends as exactly what one or more edges reach, in nondecreasing distance and in the order in which it is first needed; marks are clear before and after; a built list is left alone |
| `BfsDeps.NextDistance` | musl-1.2.5/ldso/dynlink.c:1344-1348 | a dependency appended while entry i is expanded is exactly one edge further from the root than entry i |
| `BfsDeps.Expand` | musl-1.2.5/ldso/dynlink.c:1328-1349 | what is appended fits the room counted for it, stands in the order of the entry's dependencies, and the search invariant advances |
| `BfsDeps.ListUnique` | musl-1.2.5/ldso/dynlink.c:1323-1350 | the list is determined: two lists with these properties for one graph and root are equal |
| `BfsDeps.OrderedAppend` | musl-1.2.5/ldso/dynlink.c:1344-1348 | a dependency that is not listed yet is first needed by the entry being expanded, after everything appended before |
| `BfsDeps.SearchBound` | musl-1.2.5/ldso/dynlink.c:1323-1350 | the list that grows while it is walked has a bound, so the walk ends |
| `CtorSchedule.BuiltListIsClosed` | musl-1.2.5/ldso/dynlink.c:1517-1524 | a built breadth-first list holds everything a constructor queue can meet, so bounding the queue by it is sound |
| `CtorSchedule.ExtendAndQueue` | musl-1.2.5/ldso/dynlink.c:2177-2181 | the two steps of `dlopen` together give the recursive depth-first order of the original graph, in memory of their own unless the object is the application |
| `CtorSchedule.OpenDuring` | musl-1.2.5/ldso/dynlink.c:1530-1533 | a queue that is being walked, static or allocated, keeps its contents while a constructor opens another object |
| `CtorSchedule.StartThenOpen` | musl-1.2.5/ldso/dynlink.c:1619-1625 | the application's queue made at start-up is still its constructor order after another object has been opened |
| `CtorProtocol.InvStep` | musl-1.2.5/ldso/dynlink.c:1579-1617 | every step of every thread keeps lock ownership, nesting, visitor fields, single starts and the finalizer list consistent |
| `CtorProtocol.ConstructedAtMostOnce` | musl-1.2.5/ldso/dynlink.c:1579-1617 | in every interleaving, with recursive opens from constructors, an object's constructors start at most once |
| `CtorProtocol.EntriesSettled` | musl-1.2.5/ldso/dynlink.c:1586-1591 | no call passes a queue entry that is not constructed, unless its own thread is constructing it further up its stack |
| `CtorProtocol.WaitsForWork` | musl-1.2.5/ldso/dynlink.c:1587-1588 | a thread waits only for an object another thread is constructing, or for the process to exit |
| `CtorProtocol.FinalizedInReverse` | musl-1.2.5/ldso/dynlink.c:1469-1497 | at every moment the finalizers run are a prefix of the constructed objects in reverse order of constructor start, without repetition |
| `CtorProtocol.FinalizedAll` | musl-1.2.5/ldso/dynlink.c:1469-1497 | when the exit walk ends it has finalized every constructed object, and any object it left out was being constructed by the exiting thread |
| `CtorProtocol.DependenciesFirst` | musl-1.2.5/ldso/dynlink.c:1579-1617 | with queues in constructor order, an object's constructors start only when each dependency is settled for the thread or reaches the object back |
| `Deadlock.DeadlockForEver` | musl-1.2.5/ldso/dynlink.c:1586-1615 | along every run, threads that are blocked on each other stay so, at the same queue entries |
| `Deadlock.DeadlockFreeExactly` | musl-1.2.5/ldso/dynlink.c:1579-1617 | given what constructors may open, no run whose nested calls keep to it reaches a deadlock, if and only if no cycle of two or more objects has each able to open the next |
| `Deadlock.DeadlockHasCycle` | musl-1.2.5/ldso/dynlink.c:1586-1591 | behind every deadlock of such a run there is such a cycle |
| `Deadlock.CycleDeadlocks` | musl-1.2.5/ldso/dynlink.c:1579-1617 | around every such cycle a run deadlocks as many threads as the cycle has objects |
| `Deadlock.TwoThreadsDeadlock` | musl-1.2.5/ldso/dynlink.c:1579-1617 | two threads whose constructors open each other's object: a run leads to their deadlock |
| `ExitHang.HaltedStep` | musl-1.2.5/ldso/dynlink.c:1587-1588 | once the process is exiting, a call at a queue entry stays there whatever anyone does |
| `ExitHang.UnblockedActs` | musl-1.2.5/ldso/dynlink.c:1585-1616 | a thread in a call that is neither blocked nor stopped by the exit has a step of its own that brings it forward, unless the lock is taken for the moment |
| `ExitHang.HungForEver` | musl-1.2.5/ldso/dynlink.c:1483-1484 | a walk with an object before it whose constructors made a call that is stopped never ends, along every run |
| `ExitHang.ExitEndsExactly` | musl-1.2.5/ldso/dynlink.c:1469-1497 | in every state of every run with the walk under way, some continuation ends it if and only if no object before it is held by another thread in this way |
| `ExitHang.OpeningHangs` | musl-1.2.5/ldso/dynlink.c:1469-1497 | for every object with finalizers whose constructors may open another, a run leads to such a walk |
| `ExitHang.NeverHangsExactly` | musl-1.2.5/ldso/dynlink.c:1469-1497 | no run reaches such a walk if and only if no object with finalizers has constructors that may open anything |
| `SymbolLookup.SysvLookup` | musl-1.2.5/ldso/dynlink.c:255-267 | on a well-formed table finds a visible symbol of the name exactly when a scan of the indexed symbols would, and returns the first one along the chain |
| `SymbolLookup.GnuLookup` | musl-1.2.5/ldso/dynlink.c:269-288 | the same for the GNU table, through its runs and end marks, returning the lowest one |
| `SymbolLookup.GnuLookupFiltered` | musl-1.2.5/ldso/dynlink.c:290-300 | the Bloom filter never rejects a present symbol |
| `SymbolLookup.NotInFilter` | musl-1.2.5/ldso/dynlink.c:292-297 | a name with a bit missing from the filter is not among the indexed symbols |
| `SymbolLookup.CompareLookups` | musl-1.2.5/ldso/dynlink.c:255-300 | over the same symbols both tables agree on whether a name is found, both agree with a linear scan, and return the same symbol when it is unique |
| `SymbolLookup.FindSym` | musl-1.2.5/ldso/dynlink.c:312-341 | returns the symbol that the first object with a usable one picks: defined where that is needed or it is thread-local, with a value unless thread-local, of the types and bindings in the source's masks; every object before it has none of the name or picks one that fails one of these |
| `SymbolLookup.PicksUnique` | musl-1.2.5/ldso/dynlink.c:312-341 | what an object picks for a name is determined, also when it has several visible symbols of it |
| `SymbolLookup.RefusedProvidesNone` | musl-1.2.5/ldso/dynlink.c:312-341 | where the name is unique, an object that was passed over has no usable symbol of it |
| `SymbolHash.TypeMask` | musl-1.2.5/ldso/dynlink.c:302 | the mask has the bits of NOTYPE, OBJECT, FUNC, COMMON and TLS and no other |
| `SymbolHash.BindMask` | musl-1.2.5/ldso/dynlink.c:303 | the mask has the bits of GLOBAL, WEAK and GNU_UNIQUE and no other |
| `SymbolHash.SysvIsGabi` | musl-1.2.5/ldso/dynlink.c:235-244 | masking once at the end gives the hash of the System V gABI, which clears the top bits at every step |
| `SymbolHash.GnuHashIs` | musl-1.2.5/ldso/dynlink.c:246-253 | 5381 times 33 to the length, plus every byte times 33 to the number of bytes after it, modulo 2^32 |
| `SymbolLookup.GnuLaidOut` | musl-1.2.5/ldso/dynlink.c:269-277 | in a table laid out as header, filter, buckets and hash values, the code's indices find each of them |
| `SymbolLookup.SysvLaidOut` | musl-1.2.5/ldso/dynlink.c:255-261 | the same for counts, buckets and chains |
| `TlsLayout.MaxP2Spec` | musl-1.2.5/ldso/dynlink.c:42 | the negate-and-mask trick is the maximum of two powers of two |
| `TlsLayout.AlignSpec` | musl-1.2.5/ldso/dynlink.c:43 | the mask rounds up to the least multiple |
| `TlsLayout.AboveOffsetSpec` | musl-1.2.5/ldso/dynlink.c:1232-1235 | the offset is the first one at or after the running offset that is congruent to the image |
| `TlsLayout.BelowOffsetSpec` | musl-1.2.5/ldso/dynlink.c:1236-1240 | the offset leaves room for the block within one alignment, and its negation is congruent to the image |
| `TlsLayout.AppOffsetSpec` | musl-1.2.5/ldso/dynlink.c:1934-1936 | the same for the application's block below the thread pointer |
| `TlsLayout.Tls.InitApp` | musl-1.2.5/ldso/dynlink.c:1925-1939 | the first block is placed congruent to its image, and count, offset and maximum alignment are right |
| `TlsLayout.Tls.Load` | musl-1.2.5/ldso/dynlink.c:1229-1241 | every loaded module extends the layout and leaves earlier ones where they are |
| `TlsLayout.BlocksDisjoint` | musl-1.2.5/ldso/dynlink.c:1229-1241 | any two blocks of a layout are disjoint, in both variants |
| `TlsLayout.MaxAlignBounds` | musl-1.2.5/ldso/dynlink.c:1231 | the common alignment is the largest one, and is attained |
| `TlsLayout.ThreadFits` | musl-1.2.5/ldso/dynlink.c:1637-1647 | the computed size holds the vector, the thread structure and every block, pairwise apart, and each block is congruent to its image |
| `TlsLayout.ThreadPointerAligned` | musl-1.2.5/src/env/__init_tls.c:46-62 | the thread pointer is a multiple of the common alignment within the allocation |
| `TlsInstall.InPlace` | musl-1.2.5/ldso/dynlink.c:1207-1214 | the reservation contains every thread's vector row and aligned block, after the name, with the block congruent to the image |
| `TlsInstall.ThreadsApart` | musl-1.2.5/ldso/dynlink.c:1242-1244 | rows and slots of different threads do not overlap |
| `TlsInstall.WordMask` | musl-1.2.5/ldso/dynlink.c:1242-1243 | the word mask rounds down to a word |
| `TlsInstall.CellsApart` | musl-1.2.5/ldso/dynlink.c:1242-1247 | the first words, kept entries, new entries and blocks of all threads and modules are pairwise disjoint, within one reservation and across reservations |
| `TlsInstall.CellReserved` | musl-1.2.5/ldso/dynlink.c:1207-1214 | every place written lies in a reservation past the name: the vectors in the newest module's, before its blocks, and each block in its own module's |
| `TlsInstall.LoadExtendsPlan` | musl-1.2.5/ldso/dynlink.c:1229-1247 | loading a module keeps the list in the state that installation relies on, identifiers without gaps included |
| `TlsInstall.WriteOther` | musl-1.2.5/ldso/dynlink.c:1660-1681 | whatever is written in one place leaves every other place, and all memory outside, as it is |
| `TlsInstall.InstallNewTls` | musl-1.2.5/ldso/dynlink.c:1649-1697 | in one memory: every thread's vector ends as its row in the newest module's reservation, with the count, the old entries and an entry for every new object and every new identifier, whose block holds the image and zeros behind it; no byte outside the new reservations changes |
| `Relr.DoRelrRelocs` | musl-1.2.5/ldso/dynlink.c:562-578 | adds the base to exactly the words a recursive decoder enumerates, once per mention; the loader itself is skipped |
| `Relr.StageOneRelr` | musl-1.2.5/ldso/dlstart.c:144-157 | the stage-1 loop has the same effect |
| `Relr.RelocateCounts` | musl-1.2.5/ldso/dynlink.c:562-578 | each word gains the base once for every mention, modulo 2^64, and no other word changes |
| `Relr.DecodeNames` | musl-1.2.5/ldso/dynlink.c:562-578 | word w is named exactly by an address entry for it, or by the bit of w in a bitmap entry with only bitmaps between it and an address, 63 words to an entry |
| `Relr.RelocatedOnce` | musl-1.2.5/ldso/dynlink.c:562-578 | when successive windows do not overlap, each mentioned word gains the base exactly once |
| `Relr.DecodeAscends` | musl-1.2.5/ldso/dynlink.c:562-578 | the words of separate windows ascend |
| `LazyRelocs.DoRelocs` | musl-1.2.5/ldso/dynlink.c:406-474 | rewriting the array it is reading, never clobbers an unread entry; ends with exactly the unresolved entries in order, the resolved ones applied |
| `LazyRelocs.RedoLazyRelocs` | musl-1.2.5/ldso/dynlink.c:580-598 | each object with its own meaning of symbol words: processes every object of the list once, relinks exactly those with entries left and releases the others' arrays |
| `LazyRelocs.PendingExact` | musl-1.2.5/ldso/dynlink.c:436-444 | the entries left are exactly the unresolved ones |
| `LazyRelocs.PendingConcat` | musl-1.2.5/ldso/dynlink.c:436-444 | they keep their order |
| `LazyRelocs.AppliedValue` | musl-1.2.5/ldso/dynlink.c:467-474 | a resolved entry's word holds symbol plus addend |
| `LazyRelocs.AppliedElsewhere` | musl-1.2.5/ldso/dynlink.c:467-474 | no word changes that no resolved entry addresses |
| `LazyRelocs.KeptExact` | musl-1.2.5/ldso/dynlink.c:589-596 | an object is relinked exactly when entries are left, once |
| `PrepareLazy.PreparedList` | musl-1.2.5/ldso/dynlink.c:2079-2099 | distinct new objects go in front of the old list, last first; a repetition closes a loop |
| `PrepareLazy.ListExactlyWhenDistinct` | musl-1.2.5/ldso/dynlink.c:2182-2187 | the links form a list exactly when no object is prepared twice |
| `PrepareLazy.PreparedTwice` | musl-1.2.5/ldso/dynlink.c:2182-2187 | for the objects actually prepared, relocated and bind-now ones left out: none is prepared twice exactly when the call does not ask for lazy binding, the opened object was relocated before, or no direct dependency to be prepared is repeated and the object binds now or does not reach itself |
| `PrepareLazy.ListSurvivesExactly` | musl-1.2.5/ldso/dynlink.c:2182-2187 | the list of deferred objects survives a call exactly in those cases |
| `PrepareLazy.CycleLosesList` | musl-1.2.5/ldso/dynlink.c:2182-2187 | two objects that need each other, with the list the search gives: the list that was there is lost |
| `Dlopen.Loader.LoadNew` | musl-1.2.5/ldso/dynlink.c:1229-1252 | a new object is appended to the object list and, with thread-local storage, to the module list, at their tails; count, offset and alignment change exactly then |
| `Dlopen.Loader.AddSyms` | musl-1.2.5/ldso/dynlink.c:1370-1376 | an object not yet global goes to the end of the symbol list, one already there stays where it is |
| `Dlopen.Loader.QueueLazy` | musl-1.2.5/ldso/dynlink.c:2097-2098 | the object heads the list of deferred ones |
| `Dlopen.RevertSyms` | musl-1.2.5/ldso/dynlink.c:1378-1388 | from the given entry on every link of the symbol list is cleared, each read before it is |
| `Dlopen.AfterSymsConsistent` | musl-1.2.5/ldso/dynlink.c:1372 | the test on the link and the tail finds out whether an object is in the symbol list |
| `Dlopen.CleanedSyms` | musl-1.2.5/ldso/dynlink.c:1378-1388 | after the cleanup an object from before the call has the symbol link it had, also if the call made it global |
| `Dlopen.CleanedMirrors` | musl-1.2.5/ldso/dynlink.c:2154-2162 | after the cleanup every object from before the call has all its old links |
| `Dlopen.Loader.Rollback` | musl-1.2.5/ldso/dynlink.c:2137-2164 | from any state that extends the saved one, restores every list, counter and link and frees exactly the objects loaded since |
| `Dlopen.Loader.Act` | musl-1.2.5/ldso/dynlink.c:2165-2199 | each step before a failure does what it says, adds only at the ends of the lists, and queues none of the objects from before the call |
| `Dlopen.Loader.FailingOpen` | musl-1.2.5/ldso/dynlink.c:2125-2165 | a call that fails after any sequence of loads, additions of global symbols and lazy preparations leaves the loader as it was |
| `Qcow2.Open` | bridge/src/qcow2.rs:124-205 | accepts exactly the supported headers, names an unsupported field otherwise, and reads the tables the file holds |
| `Qcow2.Reader.ResolveCluster` | bridge/src/qcow2.rs:216-264 | through the one-entry cache, in whatever state earlier calls left it, returns what a walk through the file returns |
| `Qcow2.Reader.ReadClusterInto` | bridge/src/qcow2.rs:268-285 | fills the buffer with the guest cluster, or fails with the walk's error and leaves the buffer alone |
| `Qcow2.Reader.ConvertToRaw` | bridge/src/qcow2.rs:289-325 | succeeds exactly when the size is one a file can have and every cluster below it is readable; then the file has the disk's size and bytes and only allocated clusters were written; otherwise the error of the first unreadable cluster, or of the size |
| `Qcow2.Reader.ReadAt` | bridge/src/qcow2.rs:329-343 | succeeds exactly when every byte asked for is readable, and each is then the guest's byte |
| `Qcow2.ClusterCountExact` | bridge/src/qcow2.rs:297 | without wrap-around the clusters walked are exactly those below the virtual size |
| `Qcow2.WrapRefused` | bridge/src/qcow2.rs:297-322 | the sum wraps only for sizes that `set_len` refuses, so a wrapped count never yields a file |
| `Qcow2.ConvertedIsDisk` | bridge/src/qcow2.rs:289-325 | the raw file is the guest's disk byte for byte, holes reading as zero |
| `Qcow2.Reader.ConvertThenRead` | bridge/src/qcow2.rs:289-343 | after a conversion that succeeds, a read of any range inside the disk succeeds and gives the same bytes as the converted file |
| `Qcow2.MaskIsHostOffset` | bridge/src/qcow2.rs:216-264 | masking an entry takes its bits 9 to 55 |
| `Qcow2Layout.EntryBits` | bridge/src/qcow2.rs:246-263 | bit 62 alone decides whether an entry is refused, and otherwise bit 0 and the offset whether it is a hole |
| `Qcow2Layout.EntryRead` | bridge/src/qcow2.rs:246-263 | the entries written for a hole, a cleared cluster, a host cluster and a compressed one are read as a hole, a hole, that cluster and a refusal |
| `Qcow2Layout.LaidOutOpens` | bridge/src/qcow2.rs:124-205 | a file of header, first-level table, second-level tables and data is accepted, with the numbers that were written |
| `Qcow2Layout.LaidOut` | bridge/src/qcow2.rs:216-264 | for every list of guest clusters laid out as such a file, the walk gives for each what was written, and holes beyond |
| `Qcow2Layout.OpenAndResolve` | bridge/src/qcow2.rs:124-264 | the reader does on such a file |
| `Qcow2Layout.OpenAndConvert` | bridge/src/qcow2.rs:289-325 | converting such a file gives the written disk byte for byte, and fails exactly when a cluster of it is compressed or outside the file, or no file can have its size |
| `Labels.LabelsToIdentity` | microseg/src/compiler.rs:166-182 | whatever order the map yields its labels in, the identity is the same, and never one of the two reserved values |
| `Labels.OrderIrrelevant` | microseg/src/compiler.rs:167-171 | two orders of one label set hash to the same identity |
| `Labels.SortedUnique` | microseg/src/compiler.rs:171 | sorted sequences with the same elements are equal, so the sorting algorithm does not matter |
| `LabelText.FnvStepIs` | microseg/src/compiler.rs:175-178 | a hash step combines hash and byte bit by bit and multiplies by the FNV prime modulo 2^32 |
| `LabelText.FnvVectors` | microseg/src/compiler.rs:174-178 | published values of the hash |
| `LabelText.IdentityRendered` | microseg/src/compiler.rs:172-181 | an identity is the hash of the text, moved off the two reserved values |
| `Microseg.ResolveIdentities` | microseg/src/compiler.rs:156-163 | one identity per selector, in order |
| `Microseg.Engine.CompilePolicy` | microseg/src/compiler.rs:105-144 | the nested loops write exactly the keys the policy generates, each with the policy's entry, and keep the rest |
| `Microseg.Engine.RecompileAll` | microseg/src/compiler.rs:146-152 | the map is what compiling every policy once, in some order, over an empty map gives |
| `Microseg.Engine.PolicyLoop` | microseg/src/compiler.rs:64-95 | the loop performs a run of the event machine |
| `Microseg.LiveKeysPresent` | microseg/src/compiler.rs:64-95 | in every state of every run, every key of a live policy is in the map |
| `Microseg.FreshRunExact` | microseg/src/compiler.rs:64-95 | with fresh additions and deletions the map always has exactly the live keys, each with an entry that a live policy generates for it |
| `Microseg.DeletingMakesExact` | microseg/src/compiler.rs:79-84 | a deletion makes the map exact, whatever it held |
| `Microseg.WritingKeepsExact` | microseg/src/compiler.rs:72-90 | adding or modifying keeps the map exact if and only if every entry only the replaced version generates is backed by another live policy |
| `Microseg.ModifyingLeavesStale` | microseg/src/compiler.rs:85-90 | a changed port rule leaves the old key allowing its flow |
| `Microseg.NamesApart` | microseg/src/compiler.rs:72-89 | policies share a place in the dictionary exactly when namespace and name agree |
| `Verdicts.LookupVerdict` | microseg/ebpf/xdp_microseg.c:145-175 | on an exact map the verdict is that of a live policy with a most specific rule about the flow among those the lookup can see, and without one the destination's default or else deny |
| `Verdicts.MostSpecificWins` | microseg/ebpf/xdp_microseg.c:145-175 | on an exact map the verdict is that of a live policy with a most specific rule about the flow, and the fallback exactly when no rule it can see is about the flow |
| `Verdicts.BlindExactly` | microseg/ebpf/xdp_microseg.c:145-175 | for every flow the filter can meet a rule the lookup asks for is as specific as any live rule about the flow, if and only if wherever a live policy rules on a port without a protocol, live policies rule on it for TCP and for UDP between the same identities |
| `Verdicts.BareExactly` | microseg/ebpf/xdp_microseg.c:228-254 | looked up without protocol and port, as IPv6 packets are, a flow's most specific rules are asked for if and only if no live rule about it has a protocol or a port |
| `Verdicts.BareSeesExactly` | microseg/ebpf/xdp_microseg.c:228-254 | that is so for every flow if and only if no live rule that is about some flow has a protocol or a port |
| `Verdicts.SeenDecides` | microseg/ebpf/xdp_microseg.c:145-175 | where a most specific rule is asked for, the verdict on an exact map is that of a live policy with a most specific of all rules about the flow, and the fallback exactly when there is none |
| `Verdicts.PacketsDecided` | microseg/ebpf/xdp_microseg.c:228-269 | every IPv4 packet gets the verdict the policies mean where ports are ruled on with their protocols, and every IPv6 packet whose flow no rule with a protocol or a port is about; it is dropped exactly when a policy about it with a most specific rule denies, or without one the destination's default denies or is missing |
| `Verdicts.RuleMeans` | microseg/src/compiler.rs:124-132 | a port rule compiles to a rule that matches a packet exactly when the rule as written is about it: TCP, UDP and ICMP by name, any other name or none for all, and the port or any |
| `Verdicts.AboutApplies` | microseg/src/compiler.rs:105-144 | a live policy has a compiled rule about a packet exactly when the policy as written is about it |
| `Verdicts.UnknownMachines` | microseg/ebpf/xdp_microseg.c:217-221 | no policy is about a packet from or to a machine without an identity |
| `Verdicts.FlowsOfPackets` | microseg/ebpf/xdp_microseg.c:228-251 | the flows of IPv4 packets between known machines are exactly those that have a port only for TCP and UDP |
| `Verdicts.PortWithoutProtocol` | microseg/src/compiler.rs:127-132 | a port without a protocol: its rule is about the flow and the flow gets the fallback |
| `Priorities.PriorityExactly` | microseg/src/compiler.rs:146-152 | over all recompilation orders a key has the action of a best-priority policy if and only if every policy that generates it has the action of one of the best priority |
| `Priorities.RunPriorityExactly` | microseg/src/compiler.rs:64-95 | over every run of fresh additions and deletions that ends with given policies, a key has the action of a best-priority policy if and only if every policy that generates it has the action of one of the best priority |
| `Priorities.WorsePriorityDecides` | microseg/src/compiler.rs:119-136 | a policy of priority 200 added after one of priority 1 for the same flows decides them |
| `Priorities.LastDecides` | microseg/src/compiler.rs:146-152 | for every policy left after a deletion some order of recompilation lets it decide its keys |
| `LabelText.RenderedUnique` | microseg/src/compiler.rs:166-172 | label sets without commas, and without equals signs in keys, have different texts, so that only the hash can make their identities equal |
| `LabelText.CommaConfuses` | microseg/src/compiler.rs:166-172 | a value that holds a comma, a second key, an equals sign and a second value gives the identity of the set with both labels |
| `LabelText.IdentityParity` | microseg/src/compiler.rs:172-182 | an identity is odd exactly when the text has an even number of odd bytes |
| `Selectors.MatchedExactly` | microseg/src/compiler.rs:156-163 | up to collisions of the hash a machine is matched exactly when its whole label set is a selector |
| `Selectors.SelectionExactly` | microseg/src/compiler.rs:154-163 | so it is matched as selectors mean it exactly when no selector selects it or its label set is one of them |
| `Selectors.GeneratesExactly` | microseg/src/compiler.rs:105-144 | between two machines a policy generates keys exactly when it names both label sets in full |
| `Selectors.EmptySelectorMisses` | microseg/src/compiler.rs:166-182 | the empty selector, which selects every machine, matches none whose labels, as rendered, have an odd number of odd bytes |
| `Selectors.EmptySelectorMissesOne` | microseg/src/compiler.rs:166-182 | among them the machine with the one label a=a |
| `Verdicts.FreshRunDecides` | microseg/ebpf/xdp_microseg.c:145-175 | along every run of fresh additions and deletions the filter's verdict is that of the live policies |
| `Verdicts.Filter.EnforceAll` | microseg/ebpf/xdp_microseg.c:253-269 | over any sequence of packets exactly the denied IP packets are dropped and each counter grows by what was dropped from its identity, modulo 2^64 |
| `Drs.MigrationAllowed` | drs/src/affinity.rs:55-88 | allowed exactly when every hard rule about the machine has a companion on the target for affinity and none for anti-affinity |
| `Drs.OnNodeMeans` | drs/src/affinity.rs:113-118 | with unique host names a machine is found on a node exactly when some node of the name runs it |
| `Floats.StandardDeviation` | drs/src/monitor.rs:31-39 | the loops compute the standard deviation, which is not-a-number exactly when a load is not finite |
| `Floats.VarianceIs` | drs/src/monitor.rs:31-39 | the variance is the mean of the squares less the square of the mean |
| `Drs.SimulateMigration` | drs/src/balancer.rs:134-162 | the deviation of the loads in which those of the two nodes concerned, and no other, carry the moved load; also for nodes without cores |
| `Drs.MoveConserves` | drs/src/balancer.rs:134-162 | a simulated move takes exactly the machine's memory and processor time off one node and puts them on the other |
| `Drs.LoadFull` | drs/src/types.rs:144-154 | a load is at most the sum of the weights, and that much exactly at 100 percent, all memory, 100000 disk operations and 40000 megabits a second |
| `Drs.WorthwhileMeans` | drs/src/balancer.rs:90-177 | a worthwhile migration leaves a tenth of the target's memory and ten percent of its processors, and scores the fall of the deviation over one plus the memory in units of 20 GiB |
| `Drs.LowersVariance` | drs/src/balancer.rs:96-117 | with a monotone square root a worthwhile migration leaves finite loads, as many as before and of lower variance |
| `Drs.NoCoresNoSource` | drs/src/balancer.rs:145-149 | nothing is proposed off a node without cores for a busy machine |
| `Drs.AllCandidates` | drs/src/balancer.rs:74-119 | the triple loop proposes exactly the worthwhile migrations off overloaded nodes |
| `Drs.RetainFirst` | drs/src/balancer.rs:123-124 | one candidate per machine remains, in order, and it scores at least as much as those dropped for it |
| `Drs.ComputePlan` | drs/src/balancer.rs:66-130 | at most five migrations of different machines with nonincreasing scores, each allowed, fitting and lowering σ; every worthwhile candidate left out is dominated by the chosen one for its machine or by five |
| `MigWire.Stream.SendAll` | livemig/src/proto.rs:69-77 | messages sent one after the other put the concatenation of their encodings on the stream |
| `MigWire.Stream.RecvMsg` | livemig/src/proto.rs:113-130 | a message and the remaining bytes, or truncation, or an unknown type |
| `MigWire.Stream.RecvAll` | livemig/src/proto.rs:113-130 | reading to the end decodes the whole stream |
| `MigWire.StreamRoundTrip` | livemig/src/proto.rs:69-92 | reading gives back the messages written if and only if every payload is shorter than 2^32 bytes |
| `MigWire.KindOf` | livemig/src/proto.rs:39-49 | decoding a type code inverts encoding, and any other code is refused |
| `MigWire.EncodedBytes` | livemig/src/proto.rs:27-38 | the bytes of every message: three zeros and the type's number, four bytes of length, the highest first, and the payload |
| `Bytes.BigEndianWeights` | livemig/src/proto.rs:113-119 | a number read from bytes has every byte with the weight 256 to the number of bytes after it |
| `Bytes.ByteAt` | livemig/src/proto.rs:69-74 | and a number written has these bytes |
| `MigWire.PageRoundTrip` | livemig/src/coord.rs:99-107 | a page message gives back its address and its contents |
| `LiveMig.LogArrives` | livemig/src/memory.rs:103-124 | a log sent as bytes arrives as the pages it holds |
| `LiveMig.BytesCarryWire` | livemig/src/proto.rs:69-130 | along every run the bytes sent decode to the messages of the step machine if and only if every payload is shorter than 2^32 bytes |
| `LiveMig.CopyDirtyPages` | livemig/src/memory.rs:77-128 | sends the log's pages in order; the count it returns is 0 |
| `LiveMig.InvStep` | livemig/src/main.rs:108-198 | every step of guest, source and destination keeps the protocol invariant: clean pages are in the messages as in memory, `Done` is last and after everything, answers come in order |
| `LiveMig.NeverTwoCopies` | livemig/src/main.rs:108-198 | in every state of every run, with either side failing at any step, the two copies do not both run |
| `LiveMig.StartsWithPausedMachine` | livemig/src/coord.rs:83-126 | when the destination starts, the source had paused, and pages and registers received are those at the pause |
| `LiveMig.DeletedOnlyWhenStarted` | livemig/src/coord.rs:61-80 | the source is deleted only when the destination runs |
| `LiveMig.CanComplete` | livemig/src/main.rs:108-198 | from every start some run ends with the source deleted and the destination running on exactly its memory |
| `LiveMig.PausedAt` | livemig/src/memory.rs:135-142 | a source that is not running was stopped by the pause step, and has changed nothing since |
| `LiveMig.OnePass` | livemig/src/main.rs:127-146 | the iterative phase makes one pass, whatever threshold and timeout |
| `LiveMig.FailureStrands` | livemig/src/main.rs:154-171 | a failure after the pause and before `Done` strands the machine |
| `LiveMig.StrandedForEver` | livemig/src/main.rs:154-171 | no later step changes that |
| `LiveMig.StrandedExactly` | livemig/src/main.rs:108-198 | in every state of every run no continuation has a running copy if and only if neither runs and the destination is lost, or the source has given up without sending `Done` |
| `LiveMig.CanStrand` | livemig/src/main.rs:154-180 | from every start one run strands the machine before `Done` and one after it |

## Left out

- Path search, `mmap`, `mprotect`, file opening, rpath expansion, vdso and the hand-off between stages: system calls and architecture glue; FDPIC, MIPS and NOMMU variants.
- Failed allocations in `queue_ctors` and `extend_bfs_deps`, which leave marks set or fall back to a message; `dlopen` of the loader itself (`is_self`).
- `Dlopen.Loader.FailingOpen`: covers the lists, counters and links; dependency lists that the failed call closed for objects loaded earlier, marks, and the unmapping of memory are not part of it. An object and its module enter their lists in one step, as no failure lies between the two.
- `Dlopen.Loader.QueueLazy`: the condition that an object has not been relocated is modelled as having been loaded by the same call.
- `TlsInstall.InstallNewTls`: asks for the reservations that `load_library` makes (`TlsInstall.LoadExtendsPlan`), zeroed as it allocates them, and for present vectors outside them; the memory barrier and the offset of thread pointers into blocks (`DTP_OFFSET`) are not modelled.
- `TlsLayout.ThreadFits`: asks for sums without wrap-around, as the layout in the standard does.
- `LazyRelocs.DoRelocs`: only the branch that defers; symbols that can be found are a map, and the relocation types other than symbol plus addend are left out.
- `ExitHang.ExitEndsExactly`: is about the walk once it has taken the lock; for a process that has called `exit` and waits for the lock, `ExitHang.NeverHangsExactly` says when no run can hang.
- Memory-model effects in `do_init_fini`: the mutex and the condition variable are taken at their word; spurious wake-ups are included.
- Real file input and output in the qcow2 reader: the file is a byte sequence and the output a sparse byte array; a full disk or a file system's own size limit is not modelled.
- `Microseg.Engine.CompilePolicy`: updates of the policy map succeed; its capacity of 4096 entries is not modelled.
- `Verdicts.Filter.EnforceAll`: parsing of headers, redirection and the audit ring are left out; an IPv6 packet is looked up with protocol and port 0, as the code does.
- `Drs.ComputePlan`: migrations are judged one by one, as in the code, which does not check that two migrations to one node fit together; rounding is left out, and metrics that are not finite, on which the code's sort panics. Soft affinity scores are not used by the planner.
- `LiveMig.StartsWithPausedMachine`: the page map is the one the page messages are meant to build, since writing guest memory is not implemented; a log returns and clears the dirty pages atomically, all pages the first time; a reply to the pause command means the vCPUs are paused; vCPU state is opaque.
- Bandwidth limiting, timing, HTTP calls, BPF-map, network and storage switchover in live migration: steps that may fail and change nothing else.
- The rest of the repository (CNI, snapshot chains, templates, storage, GPU, API, console, UI, kernel modules): plumbing around easy invariants.
