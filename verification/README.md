# Terrakernel: a verified model

Terrakernel is an x86_64 kernel that carries the uACPI library.  This project models the parts of it whose
correctness is hard to see from the code, and proves what they promise.  Each module is one component:

- **Locks.** `GlobalLock`, `RwLock` and `RecursiveLock` are small-step protocols: every load, store,
  compare-and-swap, native-mutex, spinlock and event operation is one step, and a run is any interleaving of any
  number of threads, the firmware and the release interrupt.  `SyncLevels` interleaves the Acquire and Release
  operators of all contexts; `MutexArray` is the array in which a context records what it holds.
- **Bits.** `Bits` and `BitSpans` are `bit_copy` on buffers seen bit by bit; `BufferField` and `FieldUnit` are the
  two kinds of field built on it; `Bcd` is the pair of BCD operators.
- **ACPI namespace.** `NamespaceTree` holds nodes in a store addressed by pointers and says when their links spell out
  a tree. `NamespaceStart` is initialisation, `NamespaceTeardown` deinitialisation; `NamespaceWalk` the stackless
  walk, `NamespaceOrder` the order in which it shows nodes to its callbacks and `NamespaceAnswers` what their answers
  do. `NameStrings` is the AML grammar of names (section 20.2.2 of ACPI 6.5), `TextPaths` the text form,
  `NameResolution` what either means in a tree, `Resolvers` the two resolvers as loops, and `AbsolutePath` the path
  printer.
- **Memory.** `PageAllocator` is the bitmap allocator, `PageTables` the tables as a tree of distinct frames
  (section 4.5 of the Intel SDM, volume 3A), `VirtualMemory` mapping and unmapping on top of both.  `HeapBlocks` is the
  kernel heap as a sequence of blocks and `KernelHeap` the doubly linked list of headers, with the bytes; `HeapStart`
  gets the heap its memory.
- **Events.** `Gpe` is what each call does to a register of general-purpose events (section 5.6.4 of ACPI 6.5), and
  every run of calls; `GpeRegister` is the calls as they update it in place.  `GpeMasking` and `GpeBlockMasking` are
  small-step protocols again: masking one event, or a whole block, against interrupts and work in flight;
  `GpeMaskingEnds` shows that the first comes to an end.
- **Formatter.** `Digits` is integers as digits, `PrintfText` the text that a format says, `Printf` the code that
  writes it into a bounded buffer.  `PrintfFormat` says where directives and formats end.  `Numerals` reads texts as
  integers without knowing how they were made, `PrintfMeaning` proves what it reads in the output, and
  `PrintfDirectives` carries this from the spelling of a directive to its argument and `PrintfWhole` to whole
  formats; `PrintfArguments` says what an argument is taken for without the formatter's own terms.
- `Options`, `Sequences` and `Arithmetic` are shared by the others.

Where a promise turns out not to hold for every input, the code is modelled as it is and the exact condition is
proved: `Bcd.FromAfterTo`, `Bcd.ToAfterFrom`, `SyncLevels.CircularWaitIffSharedLevel`,
`NameResolution.ResolversAgree`, `Resolvers.ResolveText`, `AbsolutePath.AbsolutePathRoundTrip`,
`PageAllocator.FreeUndoesPalloc`, `VirtualMemory.DirectMapRoundTrip`, `Gpe.UndoneExactly`, `Gpe.AddThenRemove`,
`Gpe.MaskThenUnmask`, `GpeMasking.MaskHoldsIffWaits`, `GpeBlockMasking.BlockWriteExactly`,
`KernelHeap.AlignedExactly`, `Digits.BinaryRoundTrip`, `Printf.Vsnprintf` with `PrintfFormat.LoopStops`,
`PrintfMeaning.StandsForValue` and `PrintfMeaning.FillsField` are of this kind. Unless the bound itself names the
input, a lemma or method beside each shows one, on a state that the code reaches; `NamespaceExamples` has those of the
namespace.

What the model takes for granted: steps of the protocols are sequentially consistent; native mutexes, spinlocks and
events of the host behave as such; operation regions behave like memory; a namespace does not change while it is
walked, and its callers keep the locking rules; integers are unbounded except where a width is written out.

## Model

| member | source | states |
|---|---|---|
| `GlobalLock.HandshakeIsSafe` | kernel/src/lib/uACPI/mutex.c:20-116 | over every interleaving of OS threads, firmware and the release interrupt: at most one side owns the lock word, OWNED says whether anyone does, the other 30 bits never change, the event counter stays at most 1, and no wakeup is lost in either direction |
| `GlobalLock.WaiterCanAlwaysWake` | kernel/src/lib/uACPI/mutex.c:55-103 | a thread that waits in any reachable state can be woken by at most seven steps of firmware and interrupt, after which its own step is enabled |
| `GlobalLock.ContentionWaits` | kernel/src/lib/uACPI/mutex.c:55-90 | from every initial state, when the firmware takes the lock first, a thread that calls acquire blocks after one attempt, with PENDING and the pending flag set and the spinlock free |
| `GlobalLock.GivesUpOnlyAtLast` | kernel/src/lib/uACPI/mutex.c:64-101 | over every run, by what the compare-and-swaps of a thread have found since it called acquire: it succeeds at the first one that finds the word free, waits only after ones that found it owned, and gives up only after 0xFFFF of them |
| `GlobalLock.WaiterCanAcquire` | kernel/src/lib/uACPI/mutex.c:55-103 | a thread that waits in any reachable state can own the lock within 18 steps of its own, of the firmware and of the interrupt |
| `GlobalLock.CallerCanAcquire` | kernel/src/lib/uACPI/mutex.c:55-103 | so can, within 11, one that calls acquire in any reachable state in which no other thread is under way |
| `GlobalLock.OwnerCanRelease` | kernel/src/lib/uACPI/mutex.c:105-116 | an owner alone frees word and native mutex within four steps, and notifies firmware that had set PENDING |
| `GlobalLock.FirmwareCanAcquire` | kernel/src/lib/uACPI/mutex.c:43-53 | firmware that waits or wants the lock in any reachable state can get it within ten steps of its own and of the thread that owns it |
| `GlobalLock.RunKeepsInv` | kernel/src/lib/uACPI/event.c:2091-2116 | the inductive invariant behind both: who holds spinlock, native mutex and word, and where a notification that is owed has got to, with the status bit cleared before the handler runs |
| `GlobalLock.AcquireStepsKeepInv` | kernel/src/lib/uACPI/mutex.c:20-41 | each load and compare-and-swap of the acquire loop keeps the invariant, whether the word was free, owned, or changed in between |
| `GlobalLock.ReleaseStepsKeepInv` | kernel/src/lib/uACPI/mutex.c:43-53 | each step of the release loop keeps it, and a release that finds PENDING owes the firmware a notification |
| `GlobalLock.InterruptSignals` | kernel/src/lib/uACPI/event.c:2091-2116 | the interrupt signals the event only while the pending flag is set and a thread waits |
| `RwLock.RwLockIsSafe` | kernel/src/lib/uACPI/mutex.c:353-394 | over every interleaving of any number of threads, with failures to take the write mutex: a writer excludes readers and other writers, num_readers is the exact number of readers whenever the read mutex is free, and the count never wraps |
| `RwLock.RwLockNeverDeadlocks` | kernel/src/lib/uACPI/mutex.c:353-394 | from every state that a run leads to, the calls in progress can be ended and the lock released by all, without any new call, and then it is as it was at the start |
| `RwLock.ReadersShare` | kernel/src/lib/uACPI/mutex.c:353-369 | in every reachable state without a writer and without another call in progress, a reader gets in on its own, beside those that read |
| `RwLock.WriterEntersExactly` | kernel/src/lib/uACPI/mutex.c:386-389 | in every reachable state without a call in progress, a writer gets in if and only if nobody reads or writes |
| `RwLock.FailedReaderLeaves` | kernel/src/lib/uACPI/mutex.c:361-368 | a first reader that fails to take the write mutex leaves the count at 0 and the read mutex free |
| `RwLock.GuardedCanStep` | kernel/src/lib/uACPI/mutex.c:353-384 | a thread that holds the read mutex can step, unless it is the first reader and another thread writes |
| `RwLock.StepKeepsInv` | kernel/src/lib/uACPI/mutex.c:353-384 | every single load, store and mutex operation keeps the invariant that ties the reader count, the read mutex and the write mutex together |
| `RwLock.TallyMove` | kernel/src/lib/uACPI/mutex.c:353-394 | moving one thread changes the tallies of counted, covered, writing and reading threads by that thread alone |
| `RecursiveLock.RecursiveLockIsSafe` | kernel/src/lib/uACPI/mutex.c:193-253 | for the AML mutex, with its depth limit and the firmware refusing, over every interleaving: one holder at most; outside a call owner is the own id exactly when the thread has the lock, and then it holds the native mutex and depth is the number of its unreleased acquires |
| `RecursiveLock.FirstAcquire` | kernel/src/lib/uACPI/mutex.c:193-230 | in every reachable state in which nobody has the lock, a caller gets it, with depth 1 |
| `RecursiveLock.DeeperAcquire` | kernel/src/lib/uACPI/mutex.c:193-214 | the holder gets it once more; at the limit the call is refused and nothing changes |
| `RecursiveLock.ReleaseUndoesAcquire` | kernel/src/lib/uACPI/mutex.c:307-314 | a release undoes one acquire, and the last one frees owner and native mutex |
| `RecursiveLock.FailedAcquire` | kernel/src/lib/uACPI/mutex.c:193-230 | a thread that times out or that the firmware refuses holds what it held before, and the native mutex is given back |
| `RecursiveLock.HolderStep` | kernel/src/lib/uACPI/mutex.c:287-314 | every step of the thread that holds the native mutex keeps what it knows of owner and depth, and when it gives the mutex up both are back at rest |
| `RecursiveLock.OutsiderStep` | kernel/src/lib/uACPI/mutex.c:287-305 | the unlocked owner read never deceives a thread that does not hold the lock |
| `SyncLevels.LevelsStaySorted` | kernel/src/lib/uACPI/interpreter.c:185-245 | over every run of Acquire and Release by contexts of non-serialized methods: held mutexes are distinct and sorted by sync level, the context level is the last one's or 0, and the record is exactly what the thread owns |
| `SyncLevels.NoCircularWait` | kernel/src/lib/uACPI/interpreter.c:3636-3730 | with pairwise distinct levels no circular wait of any length is reachable |
| `SyncLevels.CircularWaitIffSharedLevel` | kernel/src/lib/uACPI/interpreter.c:3636-3730 | with two or more threads a circular wait is reachable if and only if two mutexes share a level |
| `SyncLevels.EmbraceDeadlocks` | kernel/src/lib/uACPI/interpreter.c:3636-3730 | for any two mutexes of one level, the run by which two threads block each other |
| `SyncLevels.ReleaseUndoesAcquire` | kernel/src/lib/uACPI/interpreter.c:3636-3730 | a free mutex of a level that is not too low is acquired, and releasing it restores the whole state |
| `SyncLevels.ReleaseUndoesDeeper` | kernel/src/lib/uACPI/interpreter.c:3636-3730 | so it is for a mutex that the context owns, up to the recursion limit |
| `SyncLevels.RefusedExactly` | kernel/src/lib/uACPI/interpreter.c:3636-3690 | Acquire has no effect if and only if the level is too low or the owner is at the limit |
| `SyncLevels.FailedGrantLeaves` | kernel/src/lib/uACPI/interpreter.c:185-215 | a context whose record cannot grow waits no more and leaves the mutex free |
| `SyncLevels.ReleasesOnlyInOrder` | kernel/src/lib/uACPI/interpreter.c:3692-3730 | Release takes one off the depth of an own mutex at the current level, and otherwise leaves every mutex alone |
| `MutexArray.HeldMutexes.Push` | kernel/src/lib/uACPI/interpreter.c:113-126 | appends to the abstract sequence, across the inline slots and the growing buffer; fails only without memory |
| `MutexArray.HeldMutexes.RemoveIdx` | kernel/src/lib/uACPI/interpreter.c:128-178 | removing index i from the inline-eight-plus-dynamic array deletes index i of the abstract sequence, for every size and i |
| `MutexArray.HeldMutexes.RemoveLast` | kernel/src/lib/uACPI/interpreter.c:226-236 | removes the last occurrence of a mutex and nothing else, or finds that there is none: the change that SyncLevels makes to its record on release |
| `MutexArray.ShiftDown` | kernel/src/lib/uACPI/interpreter.c:138-176 | the overlapping move of slots by one |
| `Bcd.FromBcd` | kernel/src/lib/uACPI/interpreter.c:3189-3224 | the FromBCD loop gives the number whose decimal digits are the sixteen nibbles, valid or not, without leaving 64 bits |
| `Bcd.ToBcd` | kernel/src/lib/uACPI/interpreter.c:3189-3224 | the ToBCD loop, with its shift count wrapping below zero, gives the word whose nibbles are the decimal digits; of a number of 17 or more digits it keeps those above the low sixteen |
| `Bcd.FromAfterTo` | kernel/src/lib/uACPI/interpreter.c:3189-3224 | FromBCD(ToBCD(x)) is x if and only if x < 10^16, and x / 10^16 otherwise |
| `Bcd.ToAfterFrom` | kernel/src/lib/uACPI/interpreter.c:3189-3224 | ToBCD(FromBCD(b)) is b if and only if every nibble is at most 9 |
| `BitSpans.BitCopy` | kernel/src/lib/uACPI/io.c:48-95 | every destination bit of the span becomes the matching source bit, or 0 past the source length, and no other bit of the buffer changes, for all offsets and lengths |
| `BitSpans.Gather` | kernel/src/lib/uACPI/io.c:66-82 | the one or two byte loads of a round give the next eight source bits, masked at the end |
| `BitSpans.StoredBits` | kernel/src/lib/uACPI/io.c:84-91 | the one or two read-modify-write stores of a round replace exactly the bits meant |
| `BufferField.Read` | kernel/src/lib/uACPI/io.c:97-128 | a buffer field read gives the field's bits, zero-extended to whole bytes, on the byte-aligned and the misaligned path alike |
| `BufferField.Write` | kernel/src/lib/uACPI/io.c:130-176 | a buffer field write puts the source, cut or zero-extended, into the field and changes no other bit, on both paths |
| `BufferField.ReadAfterWrite` | kernel/src/lib/uACPI/io.c:113-176 | reading a field that was written gives the source back, cut to the field |
| `BufferField.DisjointWritesCommute` | kernel/src/lib/uACPI/io.c:130-176 | writes to fields that share no bit commute |
| `BufferField.CutMisalignedTail` | kernel/src/lib/uACPI/io.c:16-26 | clears the bits behind the field in its last byte and changes no other bit of the buffer |
| `FieldUnit.CreateField` | kernel/src/lib/uACPI/interpreter.c:1787-1799 | byte offset and bit offset within the first unit add up to the declared bit offset, and the bit offset stays inside one unit |
| `FieldUnit.Read` | kernel/src/lib/uACPI/io.c:460-511 | for every offset, length and access width, zero length included, a read succeeds exactly when the units it accesses lie in the region and then gives the field's bits, zero-extended, whichever path is taken |
| `FieldUnit.ReadUnits` | kernel/src/lib/uACPI/io.c:406-458 | the loop with one access per unit does that |
| `FieldUnit.ReadFast` | kernel/src/lib/uACPI/io.c:488-507 | so does the single access |
| `FieldUnit.FastReadIsSlowRead` | kernel/src/lib/uACPI/io.c:406-511 | a buffer filled by either path is the same |
| `FieldUnit.UnitsByDivision` | kernel/src/lib/uACPI/io.c:406-432 | the number of units computed by rounding up is the number of accesses that cover the field |
| `FieldUnit.Write` | kernel/src/lib/uACPI/io.c:513-582 | the field gets the source, cut or zero-extended; other bits of touched units get what the update rule says; all other bits stay; a write that leaves the region has written the first k units, those in front of the first one that does not fit, and nothing else |
| `FieldUnit.ReadAfterWrite` | kernel/src/lib/uACPI/io.c:460-582 | writing any source and reading gives it back, cut or zero-extended to the bit length |
| `FieldUnit.PreservingWriteIsBitCopy` | kernel/src/lib/uACPI/io.c:527-560 | under Preserve a write is the bit copy into the region: nothing outside the field changes |
| `FieldUnit.OnlyEdgesChange` | kernel/src/lib/uACPI/io.c:527-560 | under any rule a changed bit outside the field lies in front of it in a partly covered first unit or behind it in a partly covered last one |
| `FieldUnit.EdgesAreFilled` | kernel/src/lib/uACPI/io.c:527-560 | what a write touches outside the field is all ones, all zeroes or unchanged, as the update rule says |
| `NamespaceTree.Namespace.Install` | kernel/src/lib/uACPI/namespace.c:302-329 | appends a fresh node to the children of its parent and keeps the links a tree; refuses a dangling node and then changes nothing |
| `NamespaceTree.Namespace.Alloc` | kernel/src/lib/uACPI/namespace.c:284-295 | a new node, not installed, leaves the tree alone |
| `NamespaceStart.Initialize` | kernel/src/lib/uACPI/namespace.c:160-206 | the namespace starts as the root with the nine other predefined nodes as its leaves, in order, without _OSI on request, each with its name and object; if memory runs out nothing is installed |
| `NamespaceTree.Namespace.Uninstall` | kernel/src/lib/uACPI/namespace.c:351-446 | unlinks an installed leaf, detaches its object and drops its reference, keeping the tree; refuses dangling nodes, nodes with children and nodes that are not linked |
| `NamespaceTree.InstallKeepsTree` | kernel/src/lib/uACPI/namespace.c:302-329 | the links after an install spell out the tree with one more last child |
| `NamespaceTree.UninstallKeepsTree` | kernel/src/lib/uACPI/namespace.c:351-446 | the links after unlinking the i-th child spell out the tree without it, whether it was first, in the middle or last |
| `NamespaceTree.LinkedIffInstalled` | kernel/src/lib/uACPI/namespace.c:419-438 | a node is found among the children of its parent exactly when it is installed and not the root |
| `NamespaceTree.Namespace.FindSubNode` | kernel/src/lib/uACPI/namespace.c:448-468 | gives the first child with the name |
| `NamespaceTree.FirstNamedMeans` | kernel/src/lib/uACPI/namespace.c:448-468 | that is null exactly when no child has the name, and otherwise no child before it has |
| `NamespaceTree.UnreferenceKeepsTree` | kernel/src/lib/uACPI/namespace.c:143-157 | freeing a node that is not installed, or resetting a predefined one, does not touch the tree |
| `NamespaceTeardown.Deinitialize` | kernel/src/lib/uACPI/namespace.c:208-265 | terminates on every namespace, no uninstall is refused, only the root is left and is reset, every other installed node is freed, reset or left dangling as its references say, and no other node changes |
| `NamespaceTeardown.WipeChildren` | kernel/src/lib/uACPI/namespace.c:222-231 | the inner loop meets only leaves, so each of its calls succeeds, and it leaves no child |
| `NamespaceTeardown.SeeNext` | kernel/src/lib/uACPI/namespace.c:219-248 | each node that the outer loop reaches was not reached before, and all children passed so far are empty |
| `NamespaceTeardown.BareRoot` | kernel/src/lib/uACPI/namespace.c:208-265 | when the root has no child nothing else is installed |
| `NamespaceWalk.ForEachChild` | kernel/src/lib/uACPI/namespace.c:836-938 | the stackless walk terminates and does exactly what the recursive traversal does, for any callback answers, depth limit, type mask and stale match flag, and rejects bad arguments |
| `NamespaceWalk.WalkFrom` | kernel/src/lib/uACPI/namespace.c:868-930 | the loop over child, next and parent links refines down-children-up recursion |
| `NamespaceOrder.ForestFollowsTour` | kernel/src/lib/uACPI/namespace.c:836-938 | whatever the callbacks answer, the invocations are a subsequence of one tour: descending calls in pre-order, ascending ones in post-order |
| `NamespaceOrder.EachNodeOncePerDirection` | kernel/src/lib/uACPI/namespace.c:836-938 | on the installed tree no node is shown twice in one direction, and each at its distance from the start |
| `NamespaceOrder.ForestMissesNothing` | kernel/src/lib/uACPI/namespace.c:836-938 | with callbacks that always continue every matching node above max_depth is shown, except under temporary nodes of a permanent-only walk |
| `NamespaceOrder.ForestStaysAbove` | kernel/src/lib/uACPI/namespace.c:916-924 | nothing below max_depth is shown |
| `NamespaceAnswers.WalkNamespace` | kernel/src/lib/uACPI/namespace.c:836-938 | on a namespace, for all callbacks: each node below the start at most once per direction, at its depth, none below max_depth; after NEXT_PEER on the way down nothing strictly below the node; BREAK is the answer to the last invocation; every other matching node that is not under a hidden one is shown, unless the walk was over before its turn; with callbacks that always continue exactly the calls of the whole subtree |
| `NamespaceAnswers.WalkShowsOwed` | kernel/src/lib/uACPI/namespace.c:866-930 | exactly: the invocations are those of the tree without the subtrees that the answers, the depth and the temporary nodes cut off, or a prefix of them if an answer ends the walk; a node without an object goes with the node before it |
| `NamespaceAnswers.ForestEnds` | kernel/src/lib/uACPI/namespace.c:885-928 | BREAK, and an invalid answer on the way down, can only be the last answer, and the outcome is what the last answer makes it |
| `NamespaceOrder.TreeOfLinked` | kernel/src/lib/uACPI/namespace.c:302-329 | the subtree of any node of a well-formed namespace is what its links spell out |
| `NameStrings.ParseEncode` | kernel/src/lib/uACPI/interpreter.c:349-362 | every AML name string with valid segments is read back from its bytes, whatever follows them |
| `NameStrings.EncodeParse` | kernel/src/lib/uACPI/interpreter.c:364-427 | only the bytes of a name string are read as one |
| `TextPaths.NameStringToPath` | kernel/src/lib/uACPI/interpreter.c:364-470 | fails exactly on bytes that are no name string; otherwise the buffer of the computed size holds exactly the printed path and its terminator |
| `TextPaths.ReadPrint` | kernel/src/lib/uACPI/namespace.c:470-491 | a printed name string with valid segments is read back from its text |
| `TextPaths.ReadShort` | kernel/src/lib/uACPI/namespace.c:470-491 | a path with any prefix and any segments of up to four characters is read as those segments, short ones padded with underscores |
| `TextPaths.PadMeans` | kernel/src/lib/uACPI/namespace.c:470-491 | a short segment is followed by underscores |
| `TextPaths.NameExamples` | kernel/src/lib/uACPI/interpreter.c:477-575 | names in the bytes that the standard gives them |
| `TextPaths.PathExamples` | kernel/src/lib/uACPI/namespace.c:470-491 | the same as text |
| `NameResolution.ResolversAgree` | kernel/src/lib/uACPI/interpreter.c:477-635 | on the same tree and scope the AML resolver and the text resolver with upward search agree on a name string with valid segments if and only if it is neither a bare NullName nor an unprefixed one-segment MultiName that is only found above |
| `NameResolution.ResolversAgreeOnCode` | kernel/src/lib/uACPI/namespace.c:470-623 | the same from code bytes, through the translated path and its terminator; bytes that are no name string fail both ways |
| `NameResolution.SingleSegment` | kernel/src/lib/uACPI/namespace.c:556-606 | to either resolver a single segment without prefix is the first child of that name of the scope or else of the closest node above that has one, and it is not found if and only if no node at any height has one |
| `NameResolution.AboveIsClosest` | kernel/src/lib/uACPI/interpreter.c:606-614 | the search above, through parent links: the first child of that name of the node k levels up, where none of the nodes 1 to k - 1 levels up has one; null if and only if none has |
| `NameResolution.ClimbMeans` | kernel/src/lib/uACPI/interpreter.c:493-528 | k carets lead k parent links up, and nowhere if and only if the scope is less deep than that |
| `NameResolution.PrefixFailsExactly` | kernel/src/lib/uACPI/interpreter.c:493-528 | a prefix leads nowhere if and only if carets come before a backslash or lead behind the root |
| `NameResolution.DescendMeans` | kernel/src/lib/uACPI/interpreter.c:577-626 | a path leads from node to node; it fails exactly at the first segment that leads nowhere or is checked and bad |
| `NameResolution.PathsGoDown` | kernel/src/lib/uACPI/interpreter.c:530-575 | a path with a prefix or several segments only finds a node as many levels below its start as it has segments |
| `NameResolution.DeniedExactly` | kernel/src/lib/uACPI/namespace.c:608-620 | asking for permanent nodes denies exactly the temporary ones |
| `NamespaceExamples.ResolversPart` | kernel/src/lib/uACPI/interpreter.c:477-635 | on every initialised namespace both exceptions occur: the empty name at _SB_, and the one-segment MultiName _GPE from _SB_ |
| `Resolvers.ResolveNameString` | kernel/src/lib/uACPI/interpreter.c:477-635 | for all code bytes, in lookup mode: the node that the name means, not found, or invalid, with segments validated as they are reached; the code offset is left just past the name when it is found or not found |
| `Resolvers.ResolveText` | kernel/src/lib/uACPI/namespace.c:493-623 | for all texts: the node that the path means, not found, invalid, or denied for a temporary node; with a null parent the search above follows the null pointer if and only if the path is one unprefixed segment that is not below the root |
| `NamespaceExamples.LooksAboveNull` | kernel/src/lib/uACPI/namespace.c:577-594 | on every initialised namespace the path ABCD with a null parent follows the null pointer |
| `Resolvers.FollowPrefix` | kernel/src/lib/uACPI/interpreter.c:493-528 | the prefix fails exactly when it climbs behind the root or puts a backslash after a caret, and otherwise leads to the node that many levels up |
| `Resolvers.FollowSegs` | kernel/src/lib/uACPI/interpreter.c:577-626 | descends segment by segment, searching above only for a single unprefixed segment |
| `Resolvers.LookAbove` | kernel/src/lib/uACPI/interpreter.c:606-614 | finds the first child of that name of the closest ancestor that has one, null if and only if none has |
| `Resolvers.SearchAbove` | kernel/src/lib/uACPI/namespace.c:577-594 | so does the text resolver's own search |
| `Resolvers.SegmentToName` | kernel/src/lib/uACPI/namespace.c:470-491 | takes up to four characters in front of a dot and pads with underscores |
| `AbsolutePath.GenerateAbsolutePath` | kernel/src/lib/uACPI/namespace.c:1036-1074 | the buffer of the computed size is filled exactly with the rooted dotted path and its terminator |
| `AbsolutePath.NodeDepth` | kernel/src/lib/uACPI/namespace.c:1017-1027 | the number of parents is the depth in the tree |
| `AbsolutePath.AbsolutePathRoundTrip` | kernel/src/lib/uACPI/namespace.c:1017-1074 | with valid segments, resolving the printed path from any scope gives the node back if and only if it and every node above it are the first of their name among their peers |
| `AbsolutePath.SecondIsShadowed` | kernel/src/lib/uACPI/namespace.c:1036-1074 | of two children of one name the second is never found by its path |
| `NamespaceExamples.PathOfAnother` | kernel/src/lib/uACPI/namespace.c:302-329 | on every initialised namespace a second node _SB_ can be installed, and its printed path resolves to the first |
| `AbsolutePath.UniqueNamesAreFirst` | kernel/src/lib/uACPI/namespace.c:448-468 | which unique names among peers guarantee for every node |
| `PageAllocator.Pmm.constructor` | kernel/src/mem/pmm.cpp:104-142 | an initialised allocator has the first eight usable entries above 1 MiB as segments, the bitmap in the first smallest segment that holds it, nothing in use, and balanced books |
| `PageAllocator.BuildSegments` | kernel/src/mem/pmm.cpp:117-137 | the loop over the memory map clips, drops and counts entries so |
| `PageAllocator.SegmentsAreUsable` | kernel/src/mem/pmm.cpp:117-137 | the segments are usable memory at or above 1 MiB, and all of it unless there are more such entries than segments |
| `PageAllocator.RunIsUsable` | kernel/src/mem/pmm.cpp:61-80 | of entries that do not overlap, no run that is handed out meets the segment that holds the bitmap |
| `PageAllocator.PrepareBitmap` | kernel/src/mem/pmm.cpp:61-79 | the bitmap lands in the first of the shortest segments that are long enough and has a clear bit for every page of the others |
| `PageAllocator.Pmm.Palloc` | kernel/src/mem/pmm.cpp:144-195 | gives the lowest run of n clear pages in the first active segment that has one and sets exactly those bits; null exactly when there is none; used + free = total and used = 4096 times the set bits in every reachable state |
| `PageAllocator.Pmm.ReserveHeap` | kernel/src/mem/pmm.cpp:255-300 | the same without the lower address bound |
| `PageAllocator.ReserveHeapIsPalloc` | kernel/src/mem/pmm.cpp:255-300 | on every initialised state both have the same first fit and fail together |
| `PageAllocator.FirstFitUnique` | kernel/src/mem/pmm.cpp:144-195 | there is one first fit at most, so the result is determined |
| `PageAllocator.Pmm.Free` | kernel/src/mem/pmm.cpp:197-253 | clears the run that the pointer, as a higher-half address, falls on, counts pages that were not set as failures, and keeps the books balanced; a run that reaches behind the bitmap is told apart |
| `PageAllocator.FreeUndoesPalloc` | kernel/src/mem/pmm.cpp:144-253 | with segments of whole pages that do not overlap, free(palloc(n), n) restores the bitmap if and only if the run lies in the higher half |
| `PageAllocator.PallocThenFree` | kernel/src/mem/pmm.cpp:144-253 | the two calls in a row on any allocator restore the bitmap under exactly that condition |
| `PageAllocator.FreedBitIs` | kernel/src/mem/pmm.cpp:200-229 | the bit that free computes is the bit of the page if and only if its address is in the higher half; below that the address looked up is another page, or none |
| `PageAllocator.FreeMisses` | kernel/src/mem/pmm.cpp:104-253 | an allocator initialised from a memory map of two entries: a page is allocated, freed and still in use, and the call counts as failed |
| `PageAllocator.Pmm.FindHolder` | kernel/src/mem/pmm.cpp:212-225 | finds the first active segment that holds an address, and the bit of its first page |
| `PageAllocator.PagesDistinct` | kernel/src/mem/pmm.cpp:144-195 | with segments that do not overlap, different bits stand for different addresses |
| `PageAllocator.PallocIsFresh` | kernel/src/mem/pmm.cpp:160-185 | the reserved pages after an allocation are those before together with the run handed out, none of which was reserved |
| `VirtualMemory.Vmm.Mmap` | kernel/src/mem/vmm.cpp:111-131 | for any n, while frames last, the four-level walk of every page is what the flat map says after n single mappings; up to 2^36 pages, the walk of the i-th page finds the frame of the i-th address, the low 12 bits of the attributes, and bit 63 if either has it, or nothing without PRESENT; a call that runs out of frames has mapped a prefix; the first entry is returned |
| `VirtualMemory.MappedInside` | kernel/src/mem/vmm.cpp:122-123 | the same of the flat map: the entry by its frame, its low 12 bits and bit 63 |
| `VirtualMemory.MappedOutside` | kernel/src/mem/vmm.cpp:111-131 | every other page keeps its walk |
| `VirtualMemory.Vmm.Munmap` | kernel/src/mem/vmm.cpp:133-154 | exactly its pages lose their mapping |
| `VirtualMemory.Vmm.IsMapped` | kernel/src/mem/vmm.cpp:92-109 | agrees with the walk |
| `VirtualMemory.Vmm.EnsureTableExists` | kernel/src/mem/vmm.cpp:23-33 | gives the table of the next level, made from a fresh frame if it was missing, and changes no page's walk |
| `VirtualMemory.Indices` | kernel/src/mem/vmm.cpp:18-21 | the four index fields of any address are the indices of its page at the four levels |
| `VirtualMemory.DirectMapRoundTrip` | kernel/src/mem/vmm.cpp:63-69 | va_to_pa(pa_to_va(pa)) is pa if and only if pa < 2^47 |
| `PageTables.LeafWrite` | kernel/src/mem/vmm.cpp:122-123 | writing the leaf entry of one page changes that page's walk alone |
| `PageTables.GrowKeepsTree` | kernel/src/mem/vmm.cpp:23-33 | linking a fresh table keeps the tables a tree of distinct frames |
| `PageTables.GrowKeepsWalks` | kernel/src/mem/vmm.cpp:23-33 | and no page's walk changes |
| `PageTables.TableIsHome` | kernel/src/mem/vmm.cpp:92-109 | the table the walk reaches at a level is the one whose place in the tree the page number gives |
| `KernelHeap.Heap.constructor` | kernel/src/mem/heap.cpp:43-49 | one free block over the whole heap |
| `HeapStart.ReserveLargest` | kernel/src/mem/heap.cpp:18-33 | halving from 4 GiB, the run taken is the first fit for the largest size that fits at all; without one down to 1 MiB nothing is taken |
| `HeapStart.SizesTried` | kernel/src/mem/heap.cpp:17-33 | the sizes that are tried are the powers of two from 4 GiB down to 1 MiB |
| `HeapStart.Initialise` | kernel/src/mem/heap.cpp:17-49 | the heap starts as one free block over that run in the direct map, and the pages of the run are taken from the allocator |
| `HeapStart.HeapIsKept` | kernel/src/mem/heap.cpp:17-49 | while those pages are in use no allocation hands out one of them |
| `KernelHeap.Heap.Malloc` | kernel/src/mem/heap.cpp:72-106 | uses the first of the smallest free blocks with n bytes, null exactly when there is none; no byte outside that block and no live block changes; the run invariant is kept |
| `KernelHeap.Heap.Free` | kernel/src/mem/heap.cpp:212-243 | frees and merges with free neighbours: afterwards no live block is at that address, and a free block at or in front of it is at least as long; every other live block stays with its data; unknown pointers and blocks that are free already change nothing; the run invariant is kept |
| `KernelHeap.MallocThenFree` | kernel/src/mem/heap.cpp:72-127 | on any heap malloc and then free leave the block list as it was |
| `KernelHeap.FreeThenMalloc` | kernel/src/mem/heap.cpp:212-243 | on any heap a request for no more than a block had succeeds after it is freed |
| `KernelHeap.Heap.Realloc` | kernel/src/mem/heap.cpp:166-199 | null pointer, unknown pointer, zero, shrinking and growing sizes each as specified; growing moves all old bytes to a live block of at least n bytes, gives the old block back, and leaves every other live block and its data alone |
| `KernelHeap.Heap.Calloc` | kernel/src/mem/heap.cpp:201-210 | malloc of the product modulo 2^64, zeroed |
| `KernelHeap.Heap.Defragment` | kernel/src/mem/heap.cpp:51-70 | merges free blocks that meet and keeps exactly the blocks in use; in every state the other operations reach it changes nothing |
| `KernelHeap.Heap.MallocAligned` | kernel/src/mem/heap.cpp:108-164 | null for each of its three reasons, else the list and the address that the padding gives; the list stays in order, no two adjacent blocks become free and no live block changes; a request whose size and alignment sum to 2^64 or more is told apart |
| `KernelHeap.AlignedExactly` | kernel/src/mem/heap.cpp:129-163 | the address returned is aligned if and only if the block found was or the alignment is at most 8, and the block has n bytes if and only if the one found had room for the padding and a second header too |
| `KernelHeap.AlignedMisses` | kernel/src/mem/heap.cpp:129-147 | on every fresh heap of whole pages a request for a multiple of 16 is answered with an address that is none |
| `KernelHeap.AfterMove` | kernel/src/mem/heap.cpp:184-189 | the bytes copied out of a block arrive, and survive its release |
| `HeapBlocks.PayloadsDisjoint` | kernel/src/mem/heap.cpp:72-106 | payloads lie in the heap and overlap neither each other nor any header |
| `HeapBlocks.UsedKeeps` | kernel/src/mem/heap.cpp:90-105 | splitting keeps address order, headers plus lengths, and that no two adjacent blocks are free |
| `HeapBlocks.UsedMeans` | kernel/src/mem/heap.cpp:90-105 | a block is cut if more than a header is left over: what is in use is at most a header longer than asked for |
| `HeapBlocks.FreeUndoesMalloc` | kernel/src/mem/heap.cpp:219-238 | freeing what was allocated restores the list |
| `HeapBlocks.FreedKeeps` | kernel/src/mem/heap.cpp:219-238 | so does freeing with its two merges |
| `HeapBlocks.FreedIsReleased` | kernel/src/mem/heap.cpp:219-238 | the block is no longer in use, and its length can be had again at or in front of its address |
| `HeapBlocks.FreedLiveExactly` | kernel/src/mem/heap.cpp:219-238 | the blocks in use afterwards are those before without the one that was freed |
| `HeapBlocks.ShrunkKeeps` | kernel/src/mem/heap.cpp:178-180 | shrinking loses exactly the difference from headers plus lengths and keeps the rest |
| `HeapBlocks.FreedTwice` | kernel/src/mem/heap.cpp:219-238 | freeing a free block changes nothing |
| `HeapBlocks.DefragmentedIsCalm` | kernel/src/mem/heap.cpp:51-70 | after defragmenting no two adjacent blocks are free, and order and total are kept |
| `KernelHeap.AbsorbedLinks` | kernel/src/mem/heap.cpp:221-227 | the pointer updates of a merge keep prev and next consistent |
| `KernelHeap.CutLinks` | kernel/src/mem/heap.cpp:90-101 | so do those of a split |
| `Gpe.GpeStateIsSound` | kernel/src/lib/uACPI/event.c:1173-1323 | over every run, whatever register accesses fail: an event is in runtime_mask exactly while it has users; without failures and without the wake action a masked event is off in hardware |
| `Gpe.FreshRunsAreSound` | kernel/src/lib/uACPI/event.c:1009-1108 | that holds of every run from the register that create_gpe_block leaves |
| `GpeMasking.MaskingIsSafe` | kernel/src/lib/uACPI/event.c:1259-1307 | step by step, over every interleaving of masking with interrupts and work past any of their tests: with waits that wait, and while turning off does not fail, a masked event is off in hardware once the call has turned it off, and when the call is over nobody runs its handler |
| `GpeMaskingEnds.MaskingWorks` | kernel/src/lib/uACPI/event.c:1259-1307 | in every reachable state an event can be masked: the call and what is in flight can be brought to an end, with the event masked and off and its handler nowhere running |
| `GpeMaskingEnds.MaskingCanEnd` | kernel/src/lib/uACPI/event.c:1259-1307 | a masking call in progress in any reachable state can be brought to its end |
| `GpeMaskingEnds.AloneIsSetState` | kernel/src/lib/uACPI/event.c:335-376 | a call of set_gpe_state that nobody disturbs does, step by step, what Gpe.SetState does at once |
| `GpeMaskingEnds.UnmaskedComesBack` | kernel/src/lib/uACPI/event.c:1299-1306 | an event that is unmasked while it is current can be turned on again |
| `GpeMaskingEnds.SpawnedIsWaitedFor` | kernel/src/lib/uACPI/event.c:535-548 | work that a thread schedules while it is waited for is waited for as well |
| `GpeMasking.MaskHoldsIffWaits` | kernel/src/lib/uACPI/event.c:1259-1307 | a masked event is off in every reachable state if and only if the wait for work in flight waits |
| `GpeMasking.MaskingRaces` | kernel/src/arch/x86_64/acpi/kernel_api.cpp:515-517 | with a wait that returns at once, as here, the run by which an interrupt turns a masked event on again |
| `GpeMasking.TurnedOff` | kernel/src/lib/uACPI/event.c:335-376 | the spinlock around read and write makes turning off final: nobody is left who could write the event on |
| `GpeBlockMasking.BlockWriteExactly` | kernel/src/lib/uACPI/event.c:740-776 | masking a whole block writes the register without the spinlock: an event can come on again if and only if at that moment an interrupt stood between its read and its write with another event on |
| `GpeBlockMasking.BlockMaskingRaces` | kernel/src/lib/uACPI/event.c:740-776 | a run in which both waits wait, the call is over, and a masked event is on |
| `Gpe.InstallUninstall` | kernel/src/lib/uACPI/event.c:1407-1557 | installing and uninstalling a native handler restores handler, type, triggering, users and runtime_mask always, and the other masks if and only if the event was not both masked and enabled and, where its last firmware user yields, current_mask was runtime_mask; the enable bit it ends with is given for every case |
| `Gpe.UndoneExactly` | kernel/src/lib/uACPI/event.c:1407-1557 | the register as a whole, enable bits included, comes back if and only if those conditions hold and the bit was what it ends up as |
| `Gpe.AddThenRemove` | kernel/src/lib/uACPI/event.c:1190-1239 | a user that comes and goes leaves no trace if and only if it was not the first, or current_mask was runtime_mask and the event was off |
| `Gpe.MaskThenUnmask` | kernel/src/lib/uACPI/event.c:1259-1307 | masking and unmasking leave no trace if and only if the event was on exactly when it was current, in use and not blocked |
| `Gpe.ResumedIsNotRestored` | kernel/src/lib/uACPI/event.c:1190-1307 | an event resumed without users, for which neither pair of calls is undone |
| `Gpe.MaskedIsNotRestored` | kernel/src/lib/uACPI/event.c:1407-1557 | an event enabled and then masked comes back unmasked from an install and uninstall |
| `Gpe.EnableAllMeans` | kernel/src/lib/uACPI/event.c:700-738 | enabling all events for runtime turns on exactly those in use and not masked |
| `Gpe.OneEventKeeps` | kernel/src/lib/uACPI/event.c:335-376 | no call about one event touches another, the count stays right, and with successful accesses the event stays off while masked |
| `Gpe.InstallKeeps` | kernel/src/lib/uACPI/event.c:1407-1477 | for installing a handler |
| `Gpe.UninstallKeeps` | kernel/src/lib/uACPI/event.c:1503-1557 | for uninstalling one |
| `Gpe.DispatchKeeps` | kernel/src/lib/uACPI/event.c:491-563 | for dispatching an event |
| `Gpe.DispatchMeans` | kernel/src/lib/uACPI/event.c:491-563 | a fired event is off and blocked, unless its native handler asks for it back; an edge that cannot be cleared is on again but stays blocked; raw handlers and events that cannot be turned off are left alone |
| `Gpe.FiredAndFinished` | kernel/src/lib/uACPI/event.c:385-399 | an event that was on as it should be is so again after it fired and was finished |
| `Gpe.EnableMeans` | kernel/src/lib/uACPI/event.c:1559-1585 | an event without a handler cannot be enabled; any other gets a user, and the first one turns it on unless it is masked |
| `Gpe.WakeMaskApplies` | kernel/src/lib/uACPI/event.c:700-737 | exactly what is enabled for wake is on after all events are enabled for wake |
| `Gpe.SuspendResumeMeans` | kernel/src/lib/uACPI/event.c:1639-1675 | suspending blocks and turns off, resuming unblocks and turns on unless masked |
| `Gpe.TearDownMeans` | kernel/src/lib/uACPI/event.c:740-776 | a register with current events is masked and turned off as a whole |
| `Gpe.SetupWakeKeeps` | kernel/src/lib/uACPI/event.c:1745-1856 | for setting an event up for wake |
| `Gpe.SetupWakeMeans` | kernel/src/lib/uACPI/event.c:1745-1856 | what becomes of handler, triggering, users and the wake mark of the event, by kinds of handler |
| `GpeRegister.Register.constructor` | kernel/src/lib/uACPI/event.c:1009-1108 | a new register has no users, nothing masked and nothing enabled, and is counted and masked as it should be |
| `GpeRegister.Register.SetGpeState` | kernel/src/lib/uACPI/event.c:335-376 | at most one bit of the enable register changes, never to on for a masked event, and none when the access fails; on success the bit is what was asked for |
| `GpeRegister.Register.RemoveOneUser` | kernel/src/lib/uACPI/event.c:1190-1208 | one user less; only the last one takes the event out of the masks and turns it off; a failed access puts the user back, and the whole register if and only if current_mask was runtime_mask |
| `GpeRegister.Register.AddOneUser` | kernel/src/lib/uACPI/event.c:1215-1239 | one user more, up to 255; only the first one puts the event into the masks and turns it on unless it is masked; a failed access likewise |
| `GpeRegister.Register.MaskOrUnmask` | kernel/src/lib/uACPI/event.c:1259-1307 | masking turns the event off; unmasking turns it on only if it is current, in use and not blocked; nothing else changes, and nothing at all when it was so before |
| `GpeRegister.Register.MaskSafely` | kernel/src/lib/uACPI/event.c:1315-1323 | tells whether the event was current, also when it was masked before; then it is masked and off |
| `GpeRegister.Register.InstallNative` | kernel/src/lib/uACPI/event.c:1407-1477 | a native handler is never replaced; any other goes inside the new one, with one firmware user less; no other event changes, and the event stays off while masked |
| `GpeRegister.Register.UninstallNative` | kernel/src/lib/uACPI/event.c:1503-1557 | brings out what the handler had replaced, for its own callback only; likewise |
| `GpeRegister.Register.ApplyAction` | kernel/src/lib/uACPI/event.c:700-738 | after the action current_mask is empty, the unmasked runtime events, or the wake mask, and so is the enable register unless the access fails; clearing changes neither |
| `Printf.Vsnprintf` | kernel/src/drivers/serial/printf.c:586-866 | for every format that does not end inside a directive, every argument list and count: the buffer gets the first min(len, count - 1) characters of the whole text and a NUL and is untouched behind it, or not touched at all without room; the result is the length of the whole text as an int; the format is overrun if and only if it ends inside a directive |
| `PrintfFormat.LoopStops` | kernel/src/drivers/serial/printf.c:594-859 | the format loop stops at the terminator if and only if every directive has its conversion character, and otherwise one behind it; this depends on the format alone |
| `PrintfFormat.PieceEnds` | kernel/src/drivers/serial/printf.c:610-691 | where a directive ends does not depend on the arguments |
| `PrintfFormat.OpenFormats` | kernel/src/drivers/serial/printf.c:854-857 | three formats that end inside a directive |
| `Printf.Sink.OutRev` | kernel/src/drivers/serial/printf.c:208-232 | the conversion buffer is put out back to front, padded on the right side |
| `Printf.FillDigits` | kernel/src/drivers/serial/printf.c:301-307 | the digit loop fills the buffer with the digits, last one first, as far as it goes |
| `PrintfMeaning.LayoutIs` | kernel/src/drivers/serial/printf.c:208-286 | for all flags, widths and precisions the text is spaces, sign, prefix, zeroes, digits and spaces, each as long as given, in a buffer of 32 characters |
| `PrintfMeaning.IntegerMeans` | kernel/src/drivers/serial/printf.c:236-337 | what an independent reader takes that text for: the value modulo a power of the base, negative if the sign found room, or no number if the prefix lost its 0 |
| `PrintfMeaning.StandsForValue` | kernel/src/drivers/serial/printf.c:236-337 | the text stands for the value if and only if no digit is dropped, the prefix is whole or absent, and a minus sign has room, which flags, digit count, precision and width decide |
| `PrintfMeaning.FillsField` | kernel/src/drivers/serial/printf.c:208-286 | the text is as long as its field if and only if the field is not filled with zeroes or is at most 32 wide |
| `PrintfMeaning.DecimalIsFaithful` | kernel/src/drivers/serial/printf.c:236-286 | decimal output stands for every 64-bit value except that 32 zeroes leave no room for a minus sign |
| `PrintfMeaning.HexIsFaithful` | kernel/src/drivers/serial/printf.c:252-258 | the alternative form of a 64-bit value stands for it if and only if its digits, or with zeroes its digits and one more, do not fill the field exactly |
| `PrintfMeaning.HashDropsDigits` | kernel/src/drivers/serial/printf.c:252-258 | digits that fill their field exactly lose the first two in the alternative form |
| `PrintfMeaning.HashDropsExample` | kernel/src/drivers/serial/printf.c:252-258 | 0x1234 in four characters is read as 0x34 |
| `PrintfMeaning.ZeroesFallShort` | kernel/src/drivers/serial/printf.c:239-249 | zeroes in a field of more than 32 characters leave it short and leave out a minus sign |
| `PrintfDirectives.DirectiveReadsBack` | kernel/src/drivers/serial/printf.c:610-691 | flags, width, precision and length of a directive, however written, are read as meant, with arguments for stars and numbers modulo 2^32 |
| `PrintfDirectives.DirectiveStandsForArgument` | kernel/src/drivers/serial/printf.c:693-782 | an integer directive anywhere in a format prints a text that is read as its argument if and only if the conversion is faithful, and that fills its field under the condition above |
| `PrintfDirectives.StringDirective` | kernel/src/drivers/serial/printf.c:805-829 | a string directive prints its argument, cut to the precision if there is one, at the proper end of a field of spaces |
| `PrintfWhole.FormatSays` | kernel/src/drivers/serial/printf.c:596-859 | a format of any literal characters and any directives prints the characters as they are and each directive with the arguments that those in front of it have left: one is used up for each star and one for each conversion that takes one |
| `PrintfArguments.IntegerItemMeans` | kernel/src/drivers/serial/printf.c:688-783 | an integer directive is read, in the base that the conversion character says, as its argument taken as a number of 8, 16, 32 or 64 bits as the length says, signed for d and i only, if and only if the conversion is faithful |
| `PrintfArguments.FlagsThatCount` | kernel/src/drivers/serial/printf.c:700-727 | a sign only for signed conversions, a prefix only outside base 10, zeroes only without a precision, capitals for X |
| `PrintfArguments.FirstArgument` | kernel/src/drivers/serial/printf.c:689-783 | a conversion takes the first argument that is left |
| `PrintfArguments.HexLetters` | kernel/src/drivers/serial/printf.c:290-306 | x prints small letters only and X capitals only |
| `PrintfArguments.DigitTable` | kernel/src/drivers/serial/printf.c:290-306 | the characters of the digits |
| `PrintfWhole.LiteralText` | kernel/src/drivers/serial/printf.c:598-605 | a text without a percent sign is printed as it is |
| `PrintfWhole.PercentSign` | kernel/src/drivers/serial/printf.c:849-853 | the directive %% prints one percent sign |
| `PrintfWhole.PointerDirective` | kernel/src/drivers/serial/printf.c:831-847 | a pointer directive prints its argument in base 16, 16 wide, with zeroes and capitals |
| `PrintfWhole.CharDirective` | kernel/src/drivers/serial/printf.c:785-803 | a character directive prints the low byte of its argument at the proper end of a field of spaces |
| `PrintfWhole.PointerTextMeans` | kernel/src/drivers/serial/printf.c:831-847 | a pointer directive prints a text that a reader takes for its argument, in base 16, if and only if the conversion is faithful |
| `PrintfText.PlainDirective` | kernel/src/drivers/serial/printf.c:702-786 | a plain %u, %o, %x, %X or %b prints the digits of its 32-bit argument and nothing else |
| `Digits.PlainRoundTrip` | kernel/src/drivers/serial/printf.c:290-337 | plain base 8, 10 and 16 output evaluates back to every 64-bit value |
| `Digits.BinaryRoundTrip` | kernel/src/drivers/serial/printf.c:290-337 | base 2 output does if and only if the value is below 2^32, and gives the value modulo 2^32 otherwise |
| `Digits.Atoi` | kernel/src/drivers/serial/printf.c:197-204 | reads the digits at the start of a text, modulo 2^32, and stops behind them |
| `Digits.AtoiInvertsPlain` | kernel/src/drivers/serial/printf.c:197-204 | reads plain decimal output of every 32-bit value back, whatever other text follows |

## Left out

- VirtualMemory.Vmm.EnsureTableExists: reports failure when no frame is left; the source goes on with a table at
  physical page 0, whose contents the model does not have.
- VirtualMemory.Vmm.Mmap: stops at that point, after a prefix of the pages, where the source would go on.
- PageAllocator.Pmm.Free: reports a run that reaches behind the bitmap; the source goes on in the memory behind it.
- PageAllocator.Pmm.constructor: does not model sums and ends of memory-map entries that wrap around 2^64.
- KernelHeap.Heap.MallocAligned: reports when n + alignment is 2^64 or more; the source goes on with the wrapped sum
  and cuts blocks at wrong places.
- HeapStart.Initialise: reports that there is no heap when nothing could be reserved; the source writes its first
  header at the direct map of address 0.
- Resolvers.ResolveNameString: the creating mode and the reference taken on the node that is found are left out.
- Resolvers.ResolveText: says nothing of the outcome of a call that follows the null parent pointer.
- NamespaceWalk.ForEachChild: taking and releasing the namespace lock around callbacks is left out.
- BufferField.Write: requires a positive bit length; creating a field of length 0 is rejected in
  kernel/src/lib/uACPI/interpreter.c.
- Printf.Vsnprintf: says nothing of text and length when the format is overrun, since the source goes on in the memory
  behind it.  Missing arguments read as 0 or an empty text.
- Gpe.GpeStateIsSound: API calls and interrupts take effect one after the other, and the status register is not
  modelled; the interleavings of masking are in GpeMasking.
- GpeMasking.MaskingIsSafe: takes the host's spinlock as atomic, and leaves out enabling for wake, which overrides
  masks, and polling, which dispatches events that are off.
- Gpe.InstallUninstall: leaves out the poll for a pending event at the end, which is a dispatch of its own.
- The sequence numbers of uacpi_acquire_global_lock: the number handed out is not the one compared on release.
- remaining_bytes of a segment and total_addrspace, which are written and never read.
- Serialized methods that call themselves and methods that return holding mutexes, for which the source releases
  mutexes on its own.
- Page tables with huge pages, several address spaces, TLB invalidation and loads of CR3.
- GAS access widths, IndexField, BankField and the special address spaces of fields.
- The GPE lookup, clearing of the wake mask, fixed events and the discovery of handlers.
- Float formatting, which is compiled out, and the output functions that print characters one by one.
- The AML opcode dispatch, tables, registers, sleep, notify and osi parts of uACPI; tmpfs, drivers, the ELF loader
  and the framebuffer console.
