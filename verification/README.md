# Verified model of the hooking library

This project models, in Dafny, the parts of the library that rewrite running code and keep track of it, and proves what
they promise. `dafny verify dfyconfig.toml` checks all of it.

* **Map registry.** `RedBlackShape` holds red-black trees as values: a tree and the context around a node, with the
  repair steps of insertion and deletion as functions. `RedBlackTree` is the intrusive tree itself, with parent pointers
  and loops; each method is proved against the shapes. `MapRegistry` is a refresh over two trees.
* **Refresh protocol.** `RefreshProtocol` is a state machine over single accesses to the shared flags, both mutexes and
  the condition variable, for any number of callers and threads. `RefreshRequests` follows requests over whole runs,
  `RefreshCalls` says what each call has done when it returns, `RefreshLimits` and `RefreshJoins` have the runs in which a
  promise ends.
* **ELF.** `Sleb128` and `PackedRelocations` are the decoder and the iterator over packed relocations, `GnuHash` the
  lookups by name and by address, `HookSlots` the hooking of a symbol on the words of an image, `XdlCache` the
  address-to-symbol search with its cache of handles.
* **64-bit inline hook.** `A64Isa` has the encodings (Arm Architecture Reference Manual, DDI 0487, section C6.2),
  `A64FixMap` the back-patching of displacement fields, `A64Layout` what each instruction becomes, `A64Meaning` a small
  machine that decodes by `A64Isa`, `A64Runs` the simulation of the window by the trampoline, `A64Loads` what becomes of
  literal loads and addresses, `A64Hook` the passes themselves.
* **Thumb and x86 hooks of Substrate.** `ThumbIsa` has the encodings and where branches go (DDI 0406C, section A8.8),
  `ThumbHook` the sizing pass and the pass that fills the buffer from both ends, `ThumbMeaning` what the buffer does, by
  the encodings of the window; `X86Hook` the size and write passes.
* **32-bit inline hook.** `Relocate` moves the window and keeps the boundary tables, `RelocatedCode` says what becomes of
  the instructions that are not branches, `ThumbMachine` runs the longer blocks; `Threads` moves stopped threads when all
  items are hooked or unhooked; `InlineRegistry` is the registry of hooked functions over the memory of the program.

`Bits`, `Buffers`, `Sequences`, `Options` and `StringOrder` are small helpers. Integers are unbounded; wherever the
width of a word matters the remainder is written out. The word width of the ELF code is a parameter.

## Where the code falls short

Each of these is a lemma with the condition and one with a case; the model follows the code.

* And64InlineHook.cpp:209 reads the displacement of a conditional branch as unsigned (`A64Meaning.CondTargetExact`,
  `A64Meaning.BackwardBranchMissed`).
* And64InlineHook.cpp:290, 349 and 388 mask a negative displacement to 32 bits without a sign (`A64Loads.LiteralTargetExact`,
  `A64Loads.AdrTargetExact`, `A64Loads.AdrpTargetExact`, `A64Loads.BackwardLiteralMissed`).
* And64InlineHook.cpp:318 lets a negative displacement run into the opcode (`A64Loads.NearWord`, `A64Loads.NearLoadWidened`),
  line 377 the two lowest bits of an address into the register (`A64Loads.NearAdr`, `A64Loads.AdrIntoX8`), and line 401
  copies an ADRP (`A64Loads.AdrpKept`).
* xh_elf.c:214 looks at the size of a group once; an empty group makes the iterator read the next header as a relocation
  (`PackedRelocations.EmptyGroupMisread`, `PackedRelocations.EmptyGroupBreaks`).
* xh_core.c:479 lets the thread exit with a request still flagged, so that a clear can drop it
  (`RefreshRequests.ServedBeforeExit`, `RefreshLimits.RequestDroppedByClear`).
* xh_core.c:586-596 read and write the flags without the mutex. A clear that finds no thread while one is being created
  leads to a second thread (`RefreshLimits.ClashGivesSecondThread`, `RefreshLimits.SecondThread`); two clears that stop the
  same thread join it twice (`RefreshJoins.TwoWaitersJoinTwice`, `RefreshJoins.ClashJoinsTwice`,
  `RefreshLimits.JoinedTwice`). `RefreshProtocol.Calm` says that neither is the case. One refresh at a time is kept even
  then (`RefreshProtocol.OneRefreshAtATime`).
* SubstrateHook.cpp:369-388 do not align the PC of BLX (`ThumbHook.JumpExact`, `ThumbHook.BlxOffBoundary`).
* SubstrateHook.cpp:462-466 break a wide load into the PC (`ThumbHook.LdrWExact`, `ThumbHook.LdrWIntoPc`).
* SubstrateHook.cpp:418 links a CBZ to its trailer by a displacement that may not fit (`ThumbHook.CbzKept`,
  `ThumbHook.CbzOutOfReach`).
* SubstrateHook.cpp:503-508 copy what the classifiers do not know even if it uses the PC (`ThumbMeaning.FreeBranchCopied`).
* SubstrateX86.hpp:190-194 encode a load through RSP, RBP, R12 or R13 as that of another operand (`X86Hook.MoveExact`).
* SubstrateX86.hpp:85-96 push a word whose sign the processor extends (`X86Hook.PushKept`, `X86Hook.JumpKept`,
  `X86Hook.FarJumpMissed`).
* relocate.c:201-204 set the Thumb bit for BX PC, which continues in ARM code (`Relocate.Target16Exact`,
  `Relocate.BxPcMissed`).
* relocate.c:77-79 take UDF and SVC for B<c> (`Relocate.CallNumberKept`), and relocate.c:117-119 take MRS, MSR and hints
  for B<c>.W (`Relocate.Types32`, `Relocate.ControlDestroyed`, `Relocate.MrsDestroyed`).
* relocate.c:327, 332 and 337 align the PC of B<c>.W, B.W and BL (`Relocate.Target32Exact`, `Relocate.WideBranchOffBoundary`).
* relocate.c:239 drops the highest bit of the register of MOV Rd, PC (`RelocatedCode.MovExact16`, `RelocatedCode.HighMovMissed`).
* relocate.c:244, 358 and 574-582 compute other addresses than ADR does (`RelocatedCode.AdrExact16`,
  `RelocatedCode.AdrExact32`, `RelocatedCode.AdrExactArm`), and line 599 loads under every condition
  (`RelocatedCode.LoadConditionKept`).
* relocate.c:416 clobbers a register that TBB and TBH leave alone (`ThumbMachine.TableKept`).
* relocate.c:524 makes conditional ARM branches unconditional (`Relocate.ConditionKept`, `Relocate.BeqAlwaysTaken`).
* inlineHook.c:45 has room for four boundaries (`Relocate.SlotsSuffice`, `Relocate.FourSlotsAreFew`).

## Model

| member | source | states |
|---|---|---|
| StringOrder.StrCmpTransitive | library/src/main/xHook/xh_core.c:76-79 | the comparison of path names is transitive |
| StringOrder.StrCmpFlip | library/src/main/xHook/xh_core.c:76-79 | exchanging the arguments flips the sign of the comparison |
| StringOrder.StrCmpEqual | library/src/main/xHook/xh_core.c:76-79 | it is zero exactly for equal names, so that a key is a path name |
| StringOrder.StrCmpFirst | library/src/main/xHook/xh_core.c:76-79 | a name comes first exactly if it is a proper prefix of the other one or has the smaller character at the first difference |
| RedBlackTree.RbHead.RotateLeft | library/src/main/xHook/tree.h:343-361 | after the six link changes of a left rotation the pointers are those of the rotated shape, with the same nodes in the same order |
| RedBlackTree.RbHead.RotateRight | library/src/main/xHook/tree.h:363-381 | the mirror image |
| RedBlackShape.UncledFocus | library/src/main/xHook/tree.h:414-422 | recolouring under a red uncle moves the only possible red-red pair two levels up and keeps all black heights and the order |
| RedBlackShape.OuterFocus | library/src/main/xHook/tree.h:429-430 | the last rotation of an insertion leaves no red-red pair and equal black heights |
| RedBlackShape.RepairedFocus | library/src/main/xHook/tree.h:407-450 | one whole round of the insertion repair, whichever case applies, keeps the order and either ends or continues higher up |
| RedBlackTree.RbHead.InsertColor | library/src/main/xHook/tree.h:407-450 | from a tree whose one flaw is a red node below a red parent, the loop ends with a red-black tree of the same nodes in the same order, linked consistently |
| RedBlackTree.RbHead.InsertRound | library/src/main/xHook/tree.h:407-450 | one round on the pointers does what the round on shapes says; the depth of the node decreases |
| RedBlackShape.MendedFocus | library/src/main/xHook/tree.h:452-528 | one whole round of the deletion repair, in any of its cases, makes up for the missing black node or moves it one level up, in the same order |
| RedBlackShape.TurnedFocus | library/src/main/xHook/tree.h:467-475 | the rotation towards a red nephew keeps what the repair relies on |
| RedBlackShape.EndedSound | library/src/main/xHook/tree.h:476-484 | the final rotation restores equal black heights without a red-red pair |
| RedBlackTree.RbHead.RemoveColor | library/src/main/xHook/tree.h:452-528 | from a tree that lacks one black node on the paths through elm, the loop ends with a red-black tree of the same nodes in the same order |
| RedBlackShape.SpliceFocus | library/src/main/xHook/tree.h:530-541 | removing a node with at most one child leaves the other nodes in order and at most one black node missing |
| RedBlackShape.InnerSplice | library/src/main/xHook/tree.h:542-580 | moving the successor to the place of a node with two children leaves the other nodes in order and at most one black node missing where the successor was |
| RedBlackTree.RbHead.Replace | library/src/main/xHook/tree.h:555-569 | the successor takes over all links and the colour of the removed node |
| RedBlackTree.RbHead.RemoveInner | library/src/main/xHook/tree.h:538-595 | deletion of a node with two children: splice, take-over and repair leave a valid tree without that node |
| RedBlackTree.RbHead.Remove | library/src/main/xHook/tree.h:530-595 | deleting any node of a valid tree leaves a valid red-black tree, parent links included, that lists exactly the other nodes in the same order |
| RedBlackTree.RbHead.Insert | library/src/main/xHook/tree.h:598-627 | with an equal key present it returns that node and changes no field of any node; otherwise exactly the new node is added, and the tree is valid and ascending |
| RedBlackTree.RbHead.Find | library/src/main/xHook/tree.h:629-644 | finds the node with a path name exactly when there is one, with at most as many comparisons as the tree is high |
| RedBlackShape.HeightBound | library/src/main/xHook/tree.h:56-62 | in every red-black shape 2^height <= (n + 1)^2: the height is at most 2 lg(n + 1) |
| RedBlackTree.RbHead.SearchBound | library/src/main/xHook/tree.h:56-62 | the same for every tree that the operations build |
| RedBlackTree.RbHead.Next | library/src/main/xHook/tree.h:668-687 | returns the node that follows in key order, or null behind the last |
| RedBlackTree.RbHead.MinMax | library/src/main/xHook/tree.h:711-724 | returns the first or the last node, or null for an empty tree |
| RedBlackTree.RbHead.TakeFirst | library/src/main/xHook/tree.h:748-751 | the saved successor survives the removal of the current node and is then the first node |
| RedBlackTree.RbHead.Drain | library/src/main/xHook/tree.h:748-751 | safe iteration that removes each node visits every node once in ascending order and leaves an empty root |
| RedBlackTree.RbHead.ListingNodes | library/src/main/xHook/tree.h:598-627 | a valid tree lists exactly its nodes, strictly ascending by path name |
| RedBlackTree.RbHead.UniquePath | library/src/main/xHook/tree.h:598-627 | no two nodes of a valid tree have the same path name |
| MapRegistry.XhCore.Move | library/src/main/xHook/xh_core.c:390-413 | a known record changes trees and is hooked again exactly when its base has changed; the branch for a repeated record cannot be reached |
| MapRegistry.XhCore.Create | library/src/main/xHook/xh_core.c:414-439 | an unknown path gets a record and is hooked, unless it was listed before; then the new record is freed and nothing else changes |
| MapRegistry.XhCore.Step | library/src/main/xHook/xh_core.c:388-440 | one line: the old tree keeps the known paths that are not listed yet, the new one holds the listed paths at their first bases, and no node is in both |
| MapRegistry.XhCore.Sweep | library/src/main/xHook/xh_core.c:327-440 | the loop over all accepted lines hooks exactly the planned entries in order; old nodes are in one of the two trees |
| MapRegistry.XhCore.Retire | library/src/main/xHook/xh_core.c:443-455 | what is left in the old tree is freed in ascending order, each node once, and the new tree takes its place |
| MapRegistry.XhCore.RefreshImpl | library/src/main/xHook/xh_core.c:304-463 | a refresh ends with exactly the listed paths, each at the base of its first line; what is hooked are exactly the new and moved paths, each once; every old node is kept if its path is listed and otherwise freed exactly once |
| MapRegistry.FirstBasesIs | library/src/main/xHook/xh_core.c:327-440 | the base of a path is that of the first line with it |
| MapRegistry.HookPlanIs | library/src/main/xHook/xh_core.c:388-440 | the plan has each path at most once, and an entry is in it exactly if it is the first one of a new or moved path |
| RefreshProtocol.StepMoves | library/src/main/xHook/xh_core.c:465-646 | a step of a caller takes a mutex only when it is free and gives back only its own |
| RefreshProtocol.RunOwners | library/src/main/xHook/xh_core.c:465-646 | in every interleaving each mutex belongs to the caller or thread whose position says so |
| RefreshProtocol.OneRefreshAtATime | library/src/main/xHook/xh_core.c:487-490 | in every interleaving, with however many threads, at most one refresh body is in progress, and none while the tables are freed |
| RefreshProtocol.CallerKeeps | library/src/main/xHook/xh_core.c:496-646 | every step of every caller keeps the invariant of the protocol between states in which nothing clashes |
| RefreshProtocol.ThreadKeeps | library/src/main/xHook/xh_core.c:465-494 | so does every step of the refresh thread, spurious wake-ups included |
| RefreshProtocol.RunKeeps | library/src/main/xHook/xh_core.c:465-646 | over every calm run the invariant holds: no clear resets the flag while a thread is being created, and no two clears stop the same thread |
| RefreshProtocol.OneThreadAtATime | library/src/main/xHook/xh_core.c:529-552 | over every calm run a thread is created only after the earlier ones have been joined, each of them once |
| RefreshProtocol.NoWakeUpLost | library/src/main/xHook/xh_core.c:474-478 | over every calm run: if the thread is parked although a request is flagged or a stop wanted, the owner of the mutex is about to signal |
| RefreshProtocol.NoDeadlock | library/src/main/xHook/xh_core.c:465-646 | whenever an operation is under way, some thread can take a step without a spurious wake-up |
| RefreshRequests.SomeoneWakes | library/src/main/xHook/xh_core.c:567-570 | the next step of that owner wakes the thread |
| RefreshRequests.Nearer | library/src/main/xHook/xh_core.c:471-491 | over any stretch of a calm run in which a request is open and nobody stops the thread, each step of the thread brings the refresh nearer, whatever the callers do |
| RefreshRequests.ServedSoon | library/src/main/xHook/xh_core.c:471-491 | a request is followed by a refresh that starts after it within nine steps of the thread, unless somebody stops the thread |
| RefreshRequests.ServedBeforeExit | library/src/main/xHook/xh_core.c:479-489 | when the thread has exited, a request made before is followed by a refresh exactly if the thread was past its test for a stop then, or came to it later before the stop |
| RefreshRequests.LeftForTheNextThread | library/src/main/xHook/xh_core.c:479-483 | a request that the thread has not served when it exits is still flagged |
| RefreshLimits.RequestDroppedByClear | library/src/main/xHook/xh_core.c:479-483 | a calm run of one caller in which a request before a clear is not followed by a refresh |
| RefreshRequests.StartedInBody | library/src/main/xHook/xh_core.c:484-490 | in every run, whenever the count of refreshes that started after a request grows, the thread is in the body of that refresh |
| RefreshCalls.SyncRefreshes | library/src/main/xHook/xh_core.c:574-577 | in every run, a caller that is about to take the mutex for a synchronous refresh and later returns has been in the body with that mutex |
| RefreshCalls.AsyncAsks | library/src/main/xHook/xh_core.c:560-570 | in every run, an asynchronous call that returns has raised the request, or has found that there is no thread |
| RefreshCalls.ClearWipes | library/src/main/xHook/xh_core.c:583-646 | in every run, a clear that returns has reset the flags and then freed the tables with both mutexes held |
| RefreshCalls.ClearResets | library/src/main/xHook/xh_core.c:586-596 | over every calm run there is no thread left when a clear has reset the flags |
| RefreshLimits.ClashGivesSecondThread | library/src/main/xHook/xh_core.c:586-596 | from every state in which a clear is about to reset the flag while a thread is being created, a run leads to two live threads |
| RefreshLimits.SecondThread | library/src/main/xHook/xh_core.c:586-596 | such a run from the beginning |
| RefreshJoins.TwoWaitersJoinTwice | library/src/main/xHook/xh_core.c:589-594 | in every run, two callers that wait for the same thread have joined it twice when both have gone on |
| RefreshJoins.ClashBegins | library/src/main/xHook/xh_core.c:589-594 | the first clash of two clears begins with one of them about to stop the thread that the other one is stopping |
| RefreshJoins.ClashJoinsTwice | library/src/main/xHook/xh_core.c:589-597 | from every such clash, whatever all others are doing, a run leads to a thread that is joined twice |
| RefreshLimits.JoinedTwice | library/src/main/xHook/xh_core.c:589-594 | such a run from the beginning |
| Sleb128.ReadEncode | library/src/main/xHook/xh_elf.c:111-135 | decoding the encoding of any integer yields it, whatever follows |
| Sleb128.AddBits | library/src/main/xHook/xh_elf.c:123-125 | each round ors seven more bits into the word, bits beyond its width being lost |
| Sleb128.AddSign | library/src/main/xHook/xh_elf.c:128-131 | the sign extension makes the word that of the negative number |
| Sleb128.Decoder.Next | library/src/main/xHook/xh_elf.c:111-135 | for every byte string and width the result is the number of DWARF 4, section 7.6, modulo the word; if the number does not end, the cursor stops at the end |
| PackedRelocations.Iterator.constructor | library/src/main/xHook/xh_elf.c:160-172 | reads the count and the first offset |
| PackedRelocations.Iterator.NextGroup | library/src/main/xHook/xh_elf.c:174-206 | reads the fields of a group, and leaves exactly what was read before a failure |
| PackedRelocations.Iterator.Next | library/src/main/xHook/xh_elf.c:208-256 | one step of the iterator on its fields and on the bytes that are left |
| PackedRelocations.FlagsBack | library/src/main/xHook/xh_elf.c:155-158 | the four flags of a group are the bits 1, 2, 4 and 8 of the number |
| PackedRelocations.HeaderBack | library/src/main/xHook/xh_elf.c:174-206 | the header of any legal group, with its flags as four booleans, is read back |
| PackedRelocations.EntryBack | library/src/main/xHook/xh_elf.c:219-241 | any relocation of a group is read back, under all flags |
| PackedRelocations.GroupsBack | library/src/main/xHook/xh_elf.c:208-256 | any list of groups with empty ones only at the end is read back group by group |
| PackedRelocations.RoundTrip | library/src/main/xHook/xh_elf.c:155-256 | reading a packing in which no empty group is in front of another one that is not yields exactly the flattened list and then NULL, whatever follows the packing |
| PackedRelocations.EmptyGroupMisread | library/src/main/xHook/xh_elf.c:214-217 | behind an empty group the step delivers what the first numbers of the next header mean as a relocation, for all flags and widths |
| PackedRelocations.EmptyGroupBreaks | library/src/main/xHook/xh_elf.c:214-217 | a packing that is read as something else than was packed |
| PackedRelocations.ReadAll | library/src/main/xHook/xh_elf.c:1035-1042 | on any bytes the loop over the iterator ends after at most the announced number of relocations |
| PackedRelocations.Run | library/src/main/xHook/xh_elf.c:212-212 | on any bytes at most as many relocations follow as are still announced |
| GnuHash.ComputeHash | library/src/main/xHook/xh_elf.c:316-326 | the loop computes the recursive GNU hash |
| GnuHash.HashIs | library/src/main/xHook/xh_elf.c:316-326 | in closed form: 5381 in front of the bytes as digits to the base 33, modulo 2^32 |
| GnuHash.TwoBits | library/src/main/xHook/xh_elf.c:383-388 | the mask test succeeds exactly when both bits are set |
| GnuHash.RejectedByBloom | library/src/main/xHook/xh_elf.c:381-388 | a name that the filter rejects belongs to no hashed symbol |
| GnuHash.StartOfBucket | library/src/main/xHook/xh_elf.c:390-392 | a name can only be found from the head of its bucket on |
| GnuHash.OnChain | library/src/main/xHook/xh_elf.c:395-411 | one chain element decides the search or passes it on; the search ends with the bucket |
| GnuHash.LookupDef | library/src/main/xHook/xh_elf.c:377-414 | equals the linear scan over the hashed symbols, and terminates |
| GnuHash.LookupUndef | library/src/main/xHook/xh_elf.c:416-431 | equals the linear scan over the other symbols |
| GnuHash.Resolve | library/src/main/xHook/xh_elf.c:433-438 | finds a name exactly when a symbol has it: the lowest hashed one, otherwise the lowest of the others |
| GnuHash.Lookup | library/src/main/xHook/xh_elf.c:433-438 | the two searches in turn yield that symbol |
| GnuHash.SymByAddr | library/src/main/xDL/xdl.c:656-668 | the walk over all buckets and chains equals a linear scan of the hashed symbols |
| HookSlots.ExactlyTheSlots | library/src/main/xHook/xh_elf.c:448-497 | replacing at a list of addresses puts the new function there and changes nothing else |
| HookSlots.SavedIsOld | library/src/main/xHook/xh_elf.c:476-478 | what is saved is an old content of one of the words and not the new function |
| HookSlots.HookingAgain | library/src/main/xHook/xh_elf.c:455-457 | replacing once more changes neither the image nor what was saved |
| HookSlots.HookAllReplaces | library/src/main/xHook/xh_elf.c:960-981 | whatever fails, the words before the failure are replaced and nothing else |
| HookSlots.PltSlots | library/src/main/xHook/xh_elf.c:1006-1017 | of the PLT table only the first wanted relocation counts |
| HookSlots.DynSlots | library/src/main/xHook/xh_elf.c:1019-1043 | of the other tables every wanted relocation counts |
| HookSlots.SlotsAre | library/src/main/xHook/xh_elf.c:928-981 | the words that are hooked are those at bias + r_offset of the relocations whose r_info is the symbol index above the type, by the numbers |
| HookSlots.HookedExactly | library/src/main/xHook/xh_elf.c:983-1046 | without failures the new function is in exactly the first matching JUMP_SLOT and all matching GLOB_DAT and ABS slots, plain and packed; hooking again changes nothing |
| HookSlots.SavedSafely | library/src/main/xHook/xh_elf.c:448-497 | no hooking puts the new function into *old_func |
| HookSlots.Elf.ReplaceFunction | library/src/main/xHook/xh_elf.c:448-497 | one word on the image |
| HookSlots.Elf.FindAndReplaceFunc | library/src/main/xHook/xh_elf.c:928-981 | matches symbol and type, and replaces |
| HookSlots.Elf.HookPlt | library/src/main/xHook/xh_elf.c:1005-1017 | the loop ends with the first relocation found |
| HookSlots.Elf.HookDyn | library/src/main/xHook/xh_elf.c:1019-1030 | the loop over the plain table |
| HookSlots.Elf.HookAndroid | library/src/main/xHook/xh_elf.c:1032-1043 | the loop over the packed iterator |
| HookSlots.Elf.Hook | library/src/main/xHook/xh_elf.c:983-1046 | lookup by name and the three loops do what is stated above, with every outcome |
| A64FixMap.PatchWaiting | library/src/main/inline64/And64InlineHook.cpp:100-108 | processing the entries of an instruction patches exactly the words that wait for it, once each |
| A64FixMap.NextBuilt | library/src/main/inline64/And64InlineHook.cpp:77-108 | one more instruction keeps the invariant of layout, patches and waiting entries |
| A64Layout.PlanOf | library/src/main/inline64/And64InlineHook.cpp:113-423 | an instruction becomes at most nine words; only single words wait, and only for later instructions |
| A64Meaning.KindAgrees | library/src/main/inline64/And64InlineHook.cpp:115-430 | the classifiers find exactly the encodings of DDI 0487, section C6.2: B, BL, B.cond, CBZ and CBNZ, TBZ and TBNZ, literal loads, PRFM, ADR and ADRP |
| A64Meaning.LiteralRoom | library/src/main/inline64/And64InlineHook.cpp:272-286 | the room for a literal is at least its size |
| A64Meaning.CondTargetExact | library/src/main/inline64/And64InlineHook.cpp:209-209 | the displacement of a conditional branch is read as unsigned: right exactly when it is not negative, otherwise off by 64 KB or 2 MB |
| A64Meaning.BackwardBranchMissed | library/src/main/inline64/And64InlineHook.cpp:209-209 | a branch to the word in front is one that is read wrongly |
| A64Meaning.EncodedBranch | library/src/main/inline64/And64InlineHook.cpp:169-169 | a re-encoded branch is of the same kind and has the new displacement |
| A64Meaning.EncodedCond | library/src/main/inline64/And64InlineHook.cpp:236-236 | a re-encoded conditional branch tests the same condition and has the new displacement |
| A64Meaning.PatchedBranch | library/src/main/inline64/And64InlineHook.cpp:103-105 | back-patching a branch gives the branch with that displacement |
| A64Meaning.PatchedCond | library/src/main/inline64/And64InlineHook.cpp:103-105 | the same for conditional branches |
| A64Runs.BranchKept | library/src/main/inline64/And64InlineHook.cpp:113-178 | a moved B or BL, near, far or inside the window, forward references included, goes where the original went, and BL returns to the next block |
| A64Runs.CondKept | library/src/main/inline64/And64InlineHook.cpp:182-242 | a moved conditional branch tests the same condition and goes to the target the code computes, or on to the next block |
| A64Runs.PlainKept | library/src/main/inline64/And64InlineHook.cpp:448-450 | other instructions are copied |
| A64Runs.TailKept | library/src/main/inline64/And64InlineHook.cpp:453-468 | behind the last block the trampoline continues behind the window |
| A64Runs.StepKept | library/src/main/inline64/And64InlineHook.cpp:427-468 | one instruction of the window corresponds to a run of its block |
| A64Runs.RunKept | library/src/main/inline64/And64InlineHook.cpp:427-468 | on a machine that decodes by the manual, every run of a window of branches, forward conditional branches, prefetches and position-independent instructions has a run of the trampoline that ends at the corresponding place |
| A64Runs.RowFits | library/src/main/inline64/And64InlineHook.cpp:501-502 | every trampoline fits its row of 50 words, for all instructions and alignments |
| A64Runs.AllAligned | library/src/main/inline64/And64InlineHook.cpp:134-155 | every embedded literal, copied ones and that of the jump back included, is on a boundary of its own size |
| A64Loads.LiteralTargetExact | library/src/main/inline64/And64InlineHook.cpp:289-290 | the target of a literal load is right exactly if its displacement is not negative, and otherwise 4 GB too far |
| A64Loads.AdrTargetExact | library/src/main/inline64/And64InlineHook.cpp:346-349 | the same for ADR |
| A64Loads.AdrpTargetExact | library/src/main/inline64/And64InlineHook.cpp:385-388 | the same for ADRP |
| A64Loads.BackwardLiteralMissed | library/src/main/inline64/And64InlineHook.cpp:289-290 | a load of the literal in front of it is one that is read wrongly |
| A64Loads.LiteralKept | library/src/main/inline64/And64InlineHook.cpp:246-324 | in every finished row, a literal load loads its own register from a copy of the target behind it, on its own boundary, or from the target itself |
| A64Loads.NearWord | library/src/main/inline64/And64InlineHook.cpp:310-318 | the near form keeps the register and has the displacement; a negative one runs into the opcode of LDR Wt and of the loads of SIMD registers |
| A64Loads.NearLoadWidened | library/src/main/inline64/And64InlineHook.cpp:318-318 | LDR W0 of a literal in front of the row becomes LDR X0 |
| A64Loads.AdrKept | library/src/main/inline64/And64InlineHook.cpp:344-381 | in every finished row, ADR becomes the address of the new place of an instruction in the window, a computed near address, or a load of a far one |
| A64Loads.NearAdr | library/src/main/inline64/And64InlineHook.cpp:376-378 | the near form computes the right address, but its two lowest bits run into the number of the register |
| A64Loads.AdrIntoX8 | library/src/main/inline64/And64InlineHook.cpp:376-378 | ADR X0 of an odd address becomes ADR X8 |
| A64Loads.AdrpKept | library/src/main/inline64/And64InlineHook.cpp:383-414 | ADRP loads the address of its page; if that is in the window it is copied, which is right exactly when row and window are in one page |
| A64Hook.Context.InsertFixMap | library/src/main/inline64/And64InlineHook.cpp:87-98 | an entry goes to the first free slot; a full table is left alone |
| A64Hook.Context.ProcessFixMap | library/src/main/inline64/And64InlineHook.cpp:100-108 | patches all waiting words in order and empties the table |
| A64Hook.Context.EmitWord | library/src/main/inline64/And64InlineHook.cpp:163-171 | the waiting entry is always entered: the table never overflows |
| A64Hook.Context.FixBranchImm | library/src/main/inline64/And64InlineHook.cpp:113-178 | moves exactly the words that encode B and BL, as planned |
| A64Hook.Context.FixCondCompTestBranch | library/src/main/inline64/And64InlineHook.cpp:182-242 | moves exactly the words that encode B.cond, CBZ, CBNZ, TBZ and TBNZ, as planned |
| A64Hook.Context.FixLoadLit | library/src/main/inline64/And64InlineHook.cpp:246-324 | moves exactly the words that encode literal loads, and drops prefetches, as planned |
| A64Hook.Context.FixPcRelAddr | library/src/main/inline64/And64InlineHook.cpp:328-423 | moves exactly the words that encode ADR and ADRP, as planned |
| A64Hook.FixInstructions | library/src/main/inline64/And64InlineHook.cpp:427-475 | the loop over the window fills the row with exactly the complete trampoline that the other rows speak of |
| ThumbHook.StrideIsWidth | library/src/main/Substrate/SubstrateHook.cpp:208-227 | each classifier consumes the width of its instruction, so that both loops stop on the end of the window |
| ThumbHook.Kinds | library/src/main/Substrate/SubstrateHook.cpp:115-141 | the classifiers find exactly the encodings of DDI 0406C, section A8.8: LDR and LDR.W literal, B<c>, B<c>.W and B.W, BL and BLX, CBZ and CBNZ, ADD with the PC |
| ThumbHook.SizesAgree | library/src/main/Substrate/SubstrateHook.cpp:208-227 | for each kind, code and trailer together are what the sizing pass adds |
| ThumbHook.SizingPass | library/src/main/Substrate/SubstrateHook.cpp:207-230 | the computed length and padding |
| ThumbHook.WindowLength | library/src/main/Substrate/SubstrateHook.cpp:187-192 | the window ends with an instruction, at most one halfword behind what is overwritten |
| ThumbHook.EmitPass | library/src/main/Substrate/SubstrateHook.cpp:248-516 | code, the jump back and trailer fill the buffer exactly; only an ADD with a high register is refused |
| ThumbHook.PlaceFilled | library/src/main/Substrate/SubstrateHook.cpp:248-509 | every instruction has its code and its word-aligned trailer in the buffer, code and trailer never overlap |
| ThumbHook.TailKept | library/src/main/Substrate/SubstrateHook.cpp:511-516 | exactly the jump back remains between code and trailer, on a word boundary, and leads behind the window |
| ThumbHook.LabelLands | library/src/main/Substrate/SubstrateHook.cpp:56-57 | the displacement of a load, with the alignment correction, leads to the trailer word |
| ThumbHook.LdrKept | library/src/main/Substrate/SubstrateHook.cpp:251-269 | a literal load reaches its trailer word, which holds the address the original loads from |
| ThumbHook.LdrWKept | library/src/main/Substrate/SubstrateHook.cpp:442-473 | so does a wide literal load |
| ThumbHook.LdrWExact | library/src/main/Substrate/SubstrateHook.cpp:462-466 | run on the emitted halfwords, the two loads yield what the original loads exactly when it does not load the PC, a literal that holds its own address aside |
| ThumbHook.LdrWIntoPc | library/src/main/Substrate/SubstrateHook.cpp:462-466 | in every buffer for a window that begins with LDR.W PC the block jumps to the literal itself |
| ThumbHook.PlaceApart | library/src/main/Substrate/SubstrateHook.cpp:248-509 | the code of an instruction and its trailer are as far apart as it and the instructions behind it need |
| ThumbHook.BKept | library/src/main/Substrate/SubstrateHook.cpp:270-293 | in every window a conditional branch keeps its condition and reaches its trailer |
| ThumbHook.WideBKept | library/src/main/Substrate/SubstrateHook.cpp:294-345 | in every window a wide branch keeps its condition, if any, and reaches its trailer |
| ThumbHook.BlKept | library/src/main/Substrate/SubstrateHook.cpp:346-389 | BL loads the computed destination and calls it |
| ThumbHook.CbzKept | library/src/main/Substrate/SubstrateHook.cpp:390-441 | CBZ and CBNZ reach their trailer exactly when they and the instructions behind them need no more than 72 halfwords; the trailer restores what was saved |
| ThumbHook.AddKept | library/src/main/Substrate/SubstrateHook.cpp:474-502 | ADD with the PC adds the PC of the original |
| ThumbHook.Copied | library/src/main/Substrate/SubstrateHook.cpp:503-508 | an instruction that has none of these encodings is copied |
| ThumbHook.JumpExact | library/src/main/Substrate/SubstrateHook.cpp:281-388 | the computed destination is that of the instruction exactly when it is not a BLX off a word boundary |
| ThumbHook.BlxOffBoundary | library/src/main/Substrate/SubstrateHook.cpp:369-388 | a window with such a BLX |
| ThumbMeaning.PlacesFollowCode | library/src/main/Substrate/SubstrateHook.cpp:248-509 | there is a place for each instruction of the window, by the widths of the instructions, and for nothing else |
| ThumbMeaning.InstructionsKept | library/src/main/Substrate/SubstrateHook.cpp:248-516 | in every finished buffer each instruction, by its encoding, does what the original does: literal loads reach the literal, B<c> and B.W the destination, BL exactly unless it is a BLX off a word boundary, CBZ exactly if it is within reach, ADD adds the PC, all else is copied; its block is followed by the next one or by the jump behind the window |
| ThumbMeaning.RefusedExactly | library/src/main/Substrate/SubstrateHook.cpp:474-490 | only an ADD with the PC and a high register is refused |
| ThumbMeaning.FreeBranchCopied | library/src/main/Substrate/SubstrateHook.cpp:503-508 | a narrow B without a condition is copied, and goes where the original goes only from the same address |
| ThumbHook.CbzOutOfReach | library/src/main/Substrate/SubstrateHook.cpp:418-418 | in every window that is full of CBZ the first one is out of reach |
| ThumbHook.BuildTrampoline | library/src/main/Substrate/SubstrateHook.cpp:159-516 | both passes over any window yield a complete buffer of at most 143 halfwords |
| ThumbHook.PatchJumps | library/src/main/Substrate/SubstrateHook.cpp:533-547 | the overwritten function goes to the replacement |
| Relocate.Expand16 | library/src/main/inline32/relocate.c:173-281 | a 16-bit instruction becomes an even number of halfwords, 2 to 8 |
| Relocate.Expand32 | library/src/main/inline32/relocate.c:283-445 | a 32-bit one becomes an even number, 2 to 14 |
| Relocate.Target16Exact | library/src/main/inline32/relocate.c:179-205 | the destination of a 16-bit B, B<c>, CBZ or CBNZ is right, that of BX PC is not |
| Relocate.BxPcMissed | library/src/main/inline32/relocate.c:201-204 | BX PC gets the Thumb bit |
| Relocate.CallNumberKept | library/src/main/inline32/relocate.c:77-79 | UDF and SVC, which the code takes for B<c>, keep their number exactly if it is zero |
| Relocate.Types16 | library/src/main/inline32/relocate.c:75-102 | the classifier finds exactly the 16-bit encodings of DDI 0406C, section A8.8; UDF and SVC are taken for B<c> |
| Relocate.Types32 | library/src/main/inline32/relocate.c:104-139 | the same for 32-bit encodings; of the control instructions all but the barriers are taken for B<c>.W |
| Relocate.TypesArm | library/src/main/inline32/relocate.c:141-171 | the same for ARM encodings |
| Relocate.ControlDestroyed | library/src/main/inline32/relocate.c:312-315 | what is taken for B<c>.W becomes a conditional branch of the same condition exactly if it is one, and otherwise UDF #0 or SVC #0 |
| Relocate.MrsDestroyed | library/src/main/inline32/relocate.c:106-119 | MRS R0, APSR becomes SVC #0 |
| Relocate.Target32Exact | library/src/main/inline32/relocate.c:319-341 | the destination of a 32-bit branch is right exactly for BLX or an aligned PC |
| Relocate.WideBranchOffBoundary | library/src/main/inline32/relocate.c:319-338 | a B.W that goes wrong |
| Relocate.BoundsIncrease | library/src/main/inline32/relocate.c:460-462 | both boundary tables are strictly increasing |
| Relocate.ThumbThreads | library/src/main/inline32/relocate.c:447-483 | for every Thumb window, moving a thread into the trampoline and back is the identity, and so the other way round |
| Relocate.ArmThreads | library/src/main/inline32/relocate.c:501-507 | the same for ARM windows |
| Relocate.ThereAndBack | library/src/main/inline32/inlineHook.c:92-120 | for strictly increasing tables the two directions undo each other |
| Relocate.MovedAtBoundaries | library/src/main/inline32/inlineHook.c:92-120 | a thread is moved exactly when it is at the beginning of an instruction |
| Relocate.ProcessThreadPc | library/src/main/inline32/inlineHook.c:92-120 | the search in the table |
| Relocate.ResumePastPatch | library/src/main/inline32/relocate.c:464-491 | the trampoline resumes at or behind the last overwritten byte; it resumes inside the window exactly when a 32-bit instruction straddles its end |
| Relocate.BranchesLand | library/src/main/inline32/relocate.c:173-445 | the jump of every moved B, B<c>, CBZ, CBNZ, BL and BLX goes to the destination of that branch exactly unless the PC of a B.W, B<c>.W or BL is not aligned; that of BX PC never does |
| Relocate.ConditionalsLand | library/src/main/inline32/relocate.c:179-274 | a moved conditional branch makes the same test; taken it reaches the jump, and otherwise the place behind its block |
| Relocate.ReturnsBehind | library/src/main/inline32/relocate.c:309-312 | a moved BL or BLX puts the address behind its block, with the Thumb bit, into LR |
| Relocate.OwnLiteral | library/src/main/inline32/relocate.c:205-208 | because all blocks are even, the aligned PC points to the literal behind the load |
| Relocate.ArmBranchesLand | library/src/main/inline32/relocate.c:515-549 | the jump of every moved ARM branch goes to its destination, and BL and BLX return behind their block |
| Relocate.ConditionKept | library/src/main/inline32/relocate.c:515-524 | a moved ARM branch keeps its condition exactly if it has none |
| Relocate.BeqAlwaysTaken | library/src/main/inline32/relocate.c:524-524 | a moved BEQ is always taken |
| Relocate.TailLiteral | library/src/main/inline32/relocate.c:487-491 | so does the jump back |
| Relocate.RelocateInThumb | library/src/main/inline32/relocate.c:447-492 | the loop writes the trampoline and the two tables; it fits a page |
| Relocate.RelocateInArm | library/src/main/inline32/relocate.c:494-611 | the same for ARM windows |
| Relocate.BoundaryCount | library/src/main/inline32/relocate.c:460-462 | a boundary for each halfword but the second ones of the 32-bit instructions that are moved |
| Relocate.SlotsSuffice | library/src/main/inline32/inlineHook.c:45-45 | the four slots of an item hold the boundaries of a Thumb window exactly if it has two such instructions, and those of every ARM window |
| Relocate.FourSlotsAreFew | library/src/main/inline32/inlineHook.c:45-45 | a window of six NOPs has six boundaries |
| RelocatedCode.BlocksFollowCode | library/src/main/inline32/relocate.c:447-483 | there is a block for each instruction of the window, by the widths of the instructions, and for nothing else |
| RelocatedCode.PlainStands16 | library/src/main/inline32/relocate.c:274-278 | in every trampoline, a 16-bit instruction that is neither a branch nor uses the PC stands unchanged, with a NOP behind it |
| RelocatedCode.LoadStands16 | library/src/main/inline32/relocate.c:234-257 | a moved LDR literal loads what the original loads into its own register, MOV Rd, PC the PC of the window into register Rd modulo 8, and ADR the address that the code computes into its own |
| RelocatedCode.MovExact16 | library/src/main/inline32/relocate.c:238-241 | MOV Rd, PC loads the right register exactly if that is a low one |
| RelocatedCode.HighMovMissed | library/src/main/inline32/relocate.c:238-241 | MOV R8, PC loads R0 |
| RelocatedCode.AdrExact16 | library/src/main/inline32/relocate.c:242-245 | the address that the code computes for ADR is right exactly if the aligned PC is zero |
| RelocatedCode.AddStands16 | library/src/main/inline32/relocate.c:211-233 | a moved ADD with the PC saves a register that it does not use, loads the PC into it, adds it and restores the register |
| RelocatedCode.PlainStands32 | library/src/main/inline32/relocate.c:438-442 | a 32-bit instruction that is neither a branch nor uses the PC stands unchanged |
| RelocatedCode.LoadStands32 | library/src/main/inline32/relocate.c:360-394 | a moved LDR.W literal loads what the original loads into its own register |
| RelocatedCode.AdrExact32 | library/src/main/inline32/relocate.c:348-366 | ADR.W loads the right address exactly if its immediate is zero |
| RelocatedCode.PlainStandsArm | library/src/main/inline32/relocate.c:603-605 | in ARM code, an instruction that is neither a branch nor uses the PC stands unchanged |
| RelocatedCode.LoadStandsArm | library/src/main/inline32/relocate.c:567-602 | a moved ARM load of a literal loads what the original loads, MOV the PC of the window, each into its own register |
| RelocatedCode.LoadConditionKept | library/src/main/inline32/relocate.c:599-599 | these loads keep their condition exactly if they have none |
| RelocatedCode.AddStandsArm | library/src/main/inline32/relocate.c:546-566 | a moved ARM ADD with the PC saves a register that it does not use, adds with it in place of the PC, and restores it |
| RelocatedCode.AdrExactArm | library/src/main/inline32/relocate.c:573-582 | ARM ADR loads the right address exactly if its constant is not rotated |
| ThumbMachine.TableKept | library/src/main/inline32/relocate.c:396-437 | run on a machine of registers and a stack, the block of TBB or TBH goes where the original goes and changes one register, which the original does not |
| ThumbMachine.AddKept | library/src/main/inline32/relocate.c:211-233 | the block of ADD with the PC adds the PC of the window to its register, changes nothing else, and goes on behind itself |
| Threads.ProcessThread | library/src/main/inline32/inlineHook.c:122-143 | the loop over all items: the first one that has the PC in its table moves it |
| Threads.OneMoves | library/src/main/inline32/inlineHook.c:122-143 | if windows and trampolines do not overlap, at most one item moves a thread |
| Threads.AllThereAndBack | library/src/main/inline32/inlineHook.c:122-143 | hooking and unhooking all items brings every thread that was moved back to where it was |
| Threads.BuiltItems | library/src/main/inline32/relocate.c:447-611 | the tables of every window are such that the above holds for it |
| InlineRegistry.TargetsUnique | library/src/main/inline32/inlineHook.c:252-271 | no two items have the same target |
| InlineRegistry.Hook | library/src/main/inline32/inlineHook.c:342-369 | patching a registered window keeps the memory as the statuses say |
| InlineRegistry.UnHook | library/src/main/inline32/inlineHook.c:291-299 | restoring a window and the swap-delete keep the memory as the statuses of the remaining items say |
| InlineRegistry.NothingHooked | library/src/main/inline32/inlineHook.c:325-340 | without hooked items the memory is the original |
| InlineRegistry.HookedGoes | library/src/main/inline32/inlineHook.c:342-367 | in every state of the registry each hooked target goes to its new address, by the bytes in memory |
| InlineRegistry.Registry.RegisterInlineHook | library/src/main/inline32/inlineHook.c:252-289 | adds exactly one registered item, or reports what the target is already |
| InlineRegistry.Registry.InlineHook | library/src/main/inline32/inlineHook.c:374-408 | hooks exactly the item of the target if it is registered |
| InlineRegistry.Registry.InlineHookAll | library/src/main/inline32/inlineHook.c:410-424 | hooks all items |
| InlineRegistry.Registry.DoInlineUnHook | library/src/main/inline32/inlineHook.c:246-302 | the last item takes the place of the removed one |
| InlineRegistry.Registry.InlineUnHook | library/src/main/inline32/inlineHook.c:304-323 | unhooks exactly the item of the target if it is hooked |
| InlineRegistry.Registry.InlineUnHookAll | library/src/main/inline32/inlineHook.c:325-340 | the loop ends with exactly the registered items, and the memory is the original |
| X86Hook.EmitFits | library/src/main/Substrate/SubstrateHook.cpp:768-889 | no instruction writes more bytes than the size pass counts for it, wherever the buffer is |
| X86Hook.WriteJump | library/src/main/Substrate/SubstrateX86.hpp:135-144 | a jump is as long as the size function says |
| X86Hook.CallLands | library/src/main/Substrate/SubstrateHook.cpp:862-866 | the call of a relocated CALL and its skip land where they should, for near and far destinations |
| X86Hook.CondLands | library/src/main/Substrate/SubstrateHook.cpp:876-881 | the same for a relocated Jcc |
| X86Hook.PushKept | library/src/main/Substrate/SubstrateX86.hpp:85-96 | PushPointer pushes its address exactly unless it is one from 2 GB to 4 GB in 64-bit code |
| X86Hook.RipMovePushes | library/src/main/Substrate/SubstrateHook.cpp:842-849 | a relocated RIP-relative move pushes and pops the address that it reads, with that exception |
| X86Hook.CallOfNextPushes | library/src/main/Substrate/SubstrateHook.cpp:857-860 | a CALL of the next instruction pushes the address of that instruction, with that exception |
| X86Hook.MovedGoes | library/src/main/Substrate/SubstrateHook.cpp:856-888 | the jump of a moved JMP, CALL or Jcc goes where its bytes say, with that exception, and an instruction that is none of these is written unchanged |
| X86Hook.MoveExact | library/src/main/Substrate/SubstrateX86.hpp:157-194 | the address is popped into the register of the move, and what is there loaded into it, exactly unless it is RSP, RBP, R12 or R13 |
| X86Hook.JumpKept | library/src/main/Substrate/SubstrateX86.hpp:85-96 | a written jump goes to its target except in the far form for addresses from 2 GB to 4 GB |
| X86Hook.FarJumpMissed | library/src/main/Substrate/SubstrateX86.hpp:85-96 | a jump that goes wrong |
| X86Hook.SizePass | library/src/main/Substrate/SubstrateHook.cpp:766-815 | the length computed by adjusting is the sum over the instructions |
| X86Hook.EmitPass | library/src/main/Substrate/SubstrateHook.cpp:833-892 | the second pass never leaves the buffer |
| XdlCache.ElfIsMatch | library/src/main/xDL/xdl.c:570-584 | the loop over the load segments |
| XdlCache.Handle.SymByAddr | library/src/main/xDL/xdl.c:642-679 | with tables loaded once, the answer is that of the tables of the image |
| XdlCache.Handle.DsymByAddr | library/src/main/xDL/xdl.c:681-702 | the same for the other symbol table |
| XdlCache.NamedCovers | library/src/main/xDL/xdl.c:634-640 | the symbol that is named covers the address, and if none is named no symbol within the address space does |
| XdlCache.Cache.FindHandle | library/src/main/xDL/xdl.c:709-713 | the first cached handle that the address belongs to |
| XdlCache.Cache.OpenByAddr | library/src/main/xDL/xdl.c:586-624 | the first image that the address belongs to |
| XdlCache.Cache.Addr | library/src/main/xDL/xdl.c:704-744 | whatever was asked before, the answer is that of a fresh search, and no image gets a second handle |

## Left out

* System calls and files: memory mapping and protection, ptrace, fork, the process map file, iteration over loaded
  objects, cache flushes, logging. Their results are inputs or successful steps.
* JNI, Java, Gradle and ART code, and the proxies for dlopen and pthread_create: plumbing.
* The path filter of a refresh (xh_core.c:359-380) and the choice of hooks per path (xh_core.c:257-280), with their regular
  expressions: a refresh starts from the accepted lines, and hooking a library is one event.
* The SIGSEGV protection (xh_core.c:85-119, 223-302): the protected calls are plain calls.
* Failures of malloc, calloc, strdup, mmap and pthread mutexes; that of pthread_create is modelled.
* MapRegistry.XhCore.RefreshImpl: does not say what `free` does to the records, only which records are freed, and how often.
* RefreshProtocol.RunKeeps: does not cover runs in which a clear clashes with a creation or another clear, because the code does not keep the promise there.
* RefreshRequests.ServedSoon: does not state a fairness assumption; it counts the steps of the thread.
* xh_core_init_once (xh_core.c:496-527), which installs the signal handler: the callers are taken as past it.
* Sleb128.Decoder.Next: takes bits shifted beyond the width of a word as lost, which C leaves undefined.
* PackedRelocations.Iterator.Next: takes the addend modulo the word, where C leaves the overflow of a signed sum undefined.
* GnuHash.Lookup: does not model the SysV hash table, which is used when there is no GNU table.
* HookSlots.Elf.Hook: takes the slots as whole words that do not overlap, and a relocation outside the mapped words changes nothing, where the code would fault; the parsing of the dynamic section is not part of this model.
* XdlCache.Cache.Addr: does not model the export filter at xdl.c:630 and 634, whose expressions have no effect, nor how the tables of an image are read from its file.
* A64Runs.RunKept: does not run literal loads, ADR and ADRP, whose blocks A64Loads describes one by one, and does not claim the meaning of instructions that branch to a register.
* A64Hook.FixInstructions: takes the window as at most five instructions and the row as apart from it and from what literal loads read.
* ThumbHook.BuildTrampoline: does not model the short cut for a function that is hooked already (SubstrateHook.cpp:171-185); the ARM variant of the hook (lines 558-692) is not modelled.
* ThumbMeaning.InstructionsKept: describes each emitted instruction by where it goes or what it loads, not by a machine that runs whole blocks; ADR, TBB, TBH, MOV and B with the PC that the hook copies are not made right by it.
* X86Hook.EmitPass: takes the decoder as given, with the operand size of a RIP-relative move not among what it says; an instruction that is copied although it uses RIP is not made right by it, and the short cuts for functions that begin with a jump (SubstrateHook.cpp:756-764) are not modelled.
* Relocate.RelocateInThumb: keeps the tables as lists that grow as needed and takes the count of boundaries as zero at the beginning, as relocate.c expects (inlineHook.c:233-244 keeps it when an item is used again).
* ThumbMachine.AddKept: does not cover an ADD into SP, which the block uses for its stack, or into the PC; TBB and TBH with an index in SP or PC are unpredictable.
* InlineRegistry.Registry.RegisterInlineHook: asks for windows that do not overlap and for a free item, as the code does of its callers; the pages of the trampolines and *proto_addr are not modelled.
* The splay tree of tree.h, the queues, and the LZMA, libbacktrace, libcorkscrew and libc++ wrappers.
