# IrisOS in Dafny

IrisOS is a capability system. Every right a program has is a capability in a slot; capabilities
are derived from one another and form a forest; revoking one destroys everything derived from it.
This project models the parts of the system where most depends on getting the details right, and
proves what their design promises, for every input and every run.

**The capability tree.** `Authority` is the state: slots with their object, rights, badge, parent
and ordered children, the objects with their liveness and pending bits, the frame table and the
mappings. `Theory` is the abstract text (derive, delete, revoke, move, renaming) on slot maps.
`Operations` gives every operation as a function with its refusals in order. `Model` is the mutable
model: a class whose methods do what the executable model does, field by field and loop by loop,
each proved equal to its operation. `Preservation` and `Runs` prove the charter's checks over every
run and any depth. `Outcomes` says of every
operation when it gives which answer and what it changes, directly of slots, objects and mappings.
`Ancestry` says what each operation does to the ancestor relation, to the set of
capabilities and to mappings. `History` follows birth rights, lineage and first capabilities through
runs, for the reclamation of Untyped memory. `Notifications` is conservation of signalled bits.
`Noninterference` is the two-subject statement with its unwinding relation. `TheoryCheck` relates
the model to the abstract text and proves the closure and the acyclicity test exact. `Witnesses` holds
the runs that show conditions are needed.

**Memory of a program.** `ProgMem` is `brk`, `mmap`, `munmap` and `mprotect` over a kernel whose
retype, map and unmap succeed or fail at will.

**The filesystem.** `FileSystem` is the disk, the sector writes of a write and of a mount, and what
any prefix of them leaves; `FileService` is the service over a device that may fail at any sector.

**Layout and wire formats.** `ProgStack`, `StackBuilder` and `Hello` are the initial stack of section
3.4.1 of the System V AMD64 psABI, its builder and the program that reads it. `ElfReloc` is the
relative-relocation pass. `Checksum`, `Udp` and `IpService` are the internet checksum (section 1 of
RFC 1071), IPv4 (section 3.1 of RFC 791) and UDP (RFC 768).

Choices a reader should know:

- Rights are sets of bit positions, so intersection and inclusion are those of sets. Slot numbers,
  mapping pseudo-slots and the swap's temporary slot are the three constructors of `SlotId`.
- Where an operation works in place, so does its model: its loops are loops with their invariants,
  and the lists and buffers it changes are fields and arrays. `subtree` and `observations` of the
  non-interference check are functions.
- What comes from outside is a parameter or free: whether the kernel grants a frame, whether a
  sector reads or writes, which route and buffer a send gets. Refusals and device faults are counted
  in a ghost field, so that contracts say exactly when a call fails and for which reason.
- `services/common/elf_reloc.h:13-18` says a second relocation pass adds the base twice. The code
  never reads the site, so it does not: a second pass is harmless, which is what is proved.
- `services/hello/main.c:57-61` reads as a limit of 64 environment strings. The bound is tested
  before counting, so 65 are accepted.
- The filesystem's overwrite and its format are not transactions. What a crash leaves is stated
  exactly, with the condition under which it is still what was meant (`OverwriteCutShort`,
  `FormatCutShort`).
- A reset granted on a copy of an Untyped's capability proves nothing about what was carved from it
  (`ResetThroughCopyIsUnsafe`); on the capability it was installed with, it does (`ResetIsSafe`).
- One capability stands for all the mappings a space has of a frame, and hangs where the first was
  made. So the promise that revoking a slot mapped through keeps the page holds for a first mapping
  and can fail for a later one; `MapThenRevoke` is the exact condition, `Witnesses` has the run.
- `prog_stack_build` indexes auxiliary words in 32 bits. From 2^31 pairs on they overwrite one another;
  what is then found is stated (`BuiltReads`).
- `ip_poll_once` does not check either checksum; that the sender's check to zero is proved separately.
- `dafny verify dfyconfig.toml` checks the whole project.

## Model

| member | source | states |
|---|---|---|
| `Runs.ReachableInv` | spec/authority_model.py:961-1111 | every state any sequence of operations reaches satisfies the whole invariant |
| `Runs.StepReachable` | spec/authority_model.py:118-863 | one more operation of any kind, refused or not, leads from a reachable state to a reachable state |
| `Runs.ChecksHold` | spec/authority_model.py:961-1111 | A7, A8, A9, link symmetry, O2, D-7 and D-13 in both directions hold in every reachable state, each mapped address has one frame, and only notifications carry bits |
| `Runs.InvChecks` | spec/authority_model.py:961-1111 | the invariant implies each of the checks |
| `Runs.WalkEnds` | spec/authority_model.py:1005-1019 | in an acyclic forest the walk up from any slot ends at a root, at any depth |
| `Preservation.StepInv` | spec/authority_model.py:118-863 | every operation preserves the invariant |
| `Preservation.DeleteInv` | spec/authority_model.py:649-667 | deleting with reparenting preserves it, across derivation and creation edges |
| `Preservation.RevokeInv` | spec/authority_model.py:730-757 | so does revoking a whole subtree |
| `Preservation.SeedInv` | spec/authority_model.py:318-351 | so does overwriting a slot |
| `Preservation.RetypeInv` | spec/authority_model.py:263-316 | so does carving an object from an Untyped |
| `Preservation.MintInv` | spec/authority_model.py:353-443 | so does deriving a capability |
| `Preservation.MoveInv` | spec/authority_model.py:445-493 | so does moving one |
| `Preservation.RotateInv` | spec/authority_model.py:669-728 | so does rotating or swapping, pivot a parent or child of the source included |
| `Preservation.ConjugateInv` | spec/prove.py:779-804 | renaming slots by a swap or a three-cycle that fixes mapping capabilities preserves the invariant |
| `Preservation.VMapInv` | spec/authority_model.py:784-834 | mapping a frame preserves it |
| `Preservation.VUnmapInv` | spec/authority_model.py:836-863 | unmapping preserves it, the last unmap in a space included |
| `Preservation.SettleInv` | spec/authority_model.py:189-231 | recomputing liveness and sweeping mappings after slots are emptied restores D-7 and D-13 |
| `Model.AuthorityModel.constructor` | spec/authority_model.py:127-151 | a fresh model is in the initial state, which satisfies the invariant |
| `Model.AuthorityModel.Descendants` | spec/authority_model.py:173-181 | the child-list depth-first search ends and lists every strict descendant once and nothing else |
| `Model.AuthorityModel.Unlink` | spec/authority_model.py:183-187 | takes one slot out of its parent's list and keeps the order of the rest |
| `Model.AuthorityModel.Clear` | spec/authority_model.py:189-209 | empties one slot; for a mapping capability the space's mappings of that frame go with it |
| `Model.AuthorityModel.FinaliseOrphans` | spec/authority_model.py:211-231 | an object is alive afterwards exactly when a slot names it |
| `Model.AuthorityModel.Delete` | spec/authority_model.py:649-667 | the in-place delete is the delete with reparenting of the abstract text, liveness and mappings settled |
| `Model.AuthorityModel.ReparentChildren` | spec/authority_model.py:649-667 | each child goes to the deleted slot's parent, in order, at the end of its list |
| `Model.AuthorityModel.Seed` | spec/authority_model.py:318-351 | overwriting is a delete followed by a fresh object in a parentless slot |
| `Model.AuthorityModel.InstallUntyped` | spec/authority_model.py:258-261 | seeds an Untyped with its birth rights |
| `Model.AuthorityModel.Retype` | spec/authority_model.py:263-316 | every refusal in order; a success adds one object, one capability with its birth rights and one edge |
| `Model.AuthorityModel.Mint` | spec/authority_model.py:353-443 | every refusal in order; a success is the text's derive |
| `Model.AuthorityModel.SyscallMint` | spec/authority_model.py:495-518 | the system call's own refusals come first |
| `Model.AuthorityModel.Revoke` | spec/authority_model.py:730-757 | the in-place loop over victims is the text's revoke, and the victim count is recorded |
| `Model.AuthorityModel.SyscallRevoke` | spec/authority_model.py:626-637 | answers the number of victims |
| `Model.AuthorityModel.UtReset` | spec/authority_model.py:759-768 | granted exactly on an occupied slot that names an Untyped and has no children; each refusal in order |
| `Model.AuthorityModel.Relocate` | spec/authority_model.py:700-713 | copying a slot's fields and patching its parent's list and its children one by one is the renaming of two slot names |
| `Model.AuthorityModel.Move` | spec/authority_model.py:445-493 | the in-place move is the transposition, up to the moved slot going last in its parent's list |
| `Model.AuthorityModel.Rotate` | spec/authority_model.py:669-728 | two relocations, or three through a temporary slot, are one simultaneous renaming of the whole state, child order included |
| `Model.AuthorityModel.ResolveNotification` | spec/authority_model.py:553-566 | the refusals of an invocation on a notification, in order |
| `Model.AuthorityModel.Signal` | spec/authority_model.py:574-579 | merges the pattern into the notification's word |
| `Model.AuthorityModel.Poll` | spec/authority_model.py:581-589 | takes the whole word, or would block on zero |
| `Model.AuthorityModel.VFrame` | spec/authority_model.py:770-782 | a frame enters the frame table with its capability |
| `Model.AuthorityModel.VMap` | spec/authority_model.py:784-834 | every refusal; a success adds one mapping and, if the space has none, its capability beside or below the slot mapped through |
| `Model.AuthorityModel.VUnmap` | spec/authority_model.py:836-863 | removes one mapping, and the space's capability with its last one |
| `Model.DeleteBySteps` | spec/authority_model.py:649-667 | unlink, reparent one child after another, clear: the steps compose to the text's delete |
| `Model.RevokeTurn` | spec/authority_model.py:730-757 | one turn of the victim loop keeps the loop's invariant: what is cleared, what is settled, what remains |
| `Model.RelocateBySteps` | spec/authority_model.py:700-713 | the five writes of a relocation equal the conjugation by a transposition |
| `Model.ConjugateTwice` | spec/prove.py:779-804 | two renamings one after the other are the renaming by their composition |
| `Model.SwapThroughTemp` | spec/prove.py:841-909 | three relocations through the temporary slot are the transposition, and the temporary is empty again |
| `Model.CycleInTwo` | spec/prove.py:779-804 | pivot to destination, then source to pivot, is the three-cycle |
| `Model.MoveBySteps` | spec/authority_model.py:483-493 | the writes of a move equal the text's move |
| `Outcomes.MintAnswers` | spec/authority_model.py:353-443 | each answer of a mint exactly; success exactly for distinct existing slots, a source that holds DUPLICATE and shares a right, a badge inherited, equal or fresh on an endpoint or notification, and an empty destination |
| `Outcomes.MintEffect` | spec/authority_model.py:353-443 | a success adds a leaf with the common rights and the stamped or inherited badge, last under the source; a refusal changes nothing |
| `Outcomes.SyscallMintAnswers` | spec/authority_model.py:495-518 | the system call refuses the null slot and an empty source before the mint does |
| `Outcomes.RetypeAnswers` | spec/authority_model.py:263-316 | each answer of a retype exactly |
| `Outcomes.RetypeEffect` | spec/authority_model.py:251-316 | a success makes one idle live object and one unbadged capability below the Untyped, with the rights of its type |
| `Outcomes.SeedEffect` | spec/authority_model.py:258-351 | what was there is deleted and a fresh parentless capability with the rights asked for takes its place |
| `Outcomes.VFrameEffect` | spec/authority_model.py:770-782 | a frame is a seed plus one unmapped entry in the frame table |
| `Outcomes.DeleteEffect` | spec/authority_model.py:649-667 | the slot is emptied, its children get its parent and follow in its list in order, and no other slot changes |
| `Outcomes.MoveAnswers` | spec/authority_model.py:445-482 | each answer of a move exactly |
| `Outcomes.MoveEffect` | spec/authority_model.py:483-493 | the destination has all the source had, the links follow, the source is empty, and no other slot changes |
| `Outcomes.RotateAnswers` | spec/authority_model.py:669-699 | each answer of a rotate exactly |
| `Outcomes.RotateEffect` | spec/authority_model.py:715-728 | the pivot's capability is in the destination, the source's in the pivot, the source empty or, as destination, traded; every other slot holds what it held |
| `Outcomes.RotateLinks` | spec/authority_model.py:700-728 | every parent and ordered child list follows the capabilities |
| `Outcomes.RevokeAnswers` | spec/authority_model.py:626-637 | each answer of a revoke and of the system call that is not a count |
| `Outcomes.UtResetAnswers` | spec/authority_model.py:759-768 | each answer of a reset exactly, and it changes nothing |
| `Outcomes.SignalEffect` | spec/authority_model.py:553-579 | each refusal; otherwise a bit is set afterwards exactly when it was or the pattern has it, and nothing else changes |
| `Outcomes.PatternIs` | spec/authority_model.py:572-572 | the four patterns by value |
| `Outcomes.PollEffect` | spec/authority_model.py:553-589 | each refusal; otherwise the whole word is answered, or would-block for zero, and the word is zero |
| `Outcomes.VMapAnswers` | spec/authority_model.py:784-811 | each answer of a map exactly |
| `Outcomes.VMapEffect` | spec/authority_model.py:812-834 | one pair more, and at most one capability more: what the slot holds, below its parent or, for a root, below it |
| `Outcomes.VUnmapAnswers` | spec/authority_model.py:836-854 | each answer of an unmap exactly |
| `Outcomes.VUnmapEffect` | spec/authority_model.py:855-863 | that pair is gone and no other; the space's capability stays exactly while another address maps the frame, and only its parent's list changes |
| `Ancestry.DeleteKeepsAncestry` | spec/prove.py:501-559 | a delete keeps the strict-ancestor relation exactly on the slots that survive |
| `Ancestry.RotateTransportsAncestry` | spec/prove.py:779-804 | a rotate carries the relation along, pivot to destination, source to pivot, destination to source, both ways |
| `Ancestry.MoveTransportsAncestry` | spec/authority_model.py:445-493 | a move carries it along the transposition |
| `Ancestry.MoveIsRenaming` | spec/authority_model.py:483-493 | a move is the renaming up to the order of one child list, and leaves the source empty |
| `Ancestry.SwapTwice` | spec/prove.py:872-909 | a swap done twice is the identity on the whole state, child order included |
| `Ancestry.RevokeExact` | spec/theory_check.py:169-199 | exactly the strict descendants end empty; the root keeps all but its children; nobody else changes |
| `Ancestry.RevokeCount` | spec/authority_model.py:626-637 | the count the system call returns is the number of slots emptied |
| `Ancestry.RevokeUnmaps` | spec/prove.py:988-1073 | a revoke removes a frame's mappings from exactly the spaces whose capability descends from the revoked slot |
| `Ancestry.DeleteKeepsMappings` | spec/authority_model.py:649-667 | a delete never takes a mapping away |
| `Ancestry.MapThenRevokeAny` | spec/authority_model.py:784-834 | after any successful map, revoking any slot keeps the page exactly when the space's capability, old or just granted, is not below that slot |
| `Ancestry.MapThenRevoke` | spec/authority_model.py:784-834 | revoking the slot mapped through keeps the page exactly when, on a space's first mapping, that slot has a parent, and on a later one, the capability the space had is not below it |
| `Ancestry.MapThenRevokeParent` | spec/authority_model.py:784-834 | revoking its parent takes the page of a first mapping; of a later one exactly when the capability the space had is below that parent |
| `Ancestry.SecondMappingTaken` | spec/authority_model.py:784-834 | map through a child first and then through its parent: revoking that parent takes the page it was mapped through, root or not |
| `Witnesses.HolderLosesPage` | spec/authority_model.py:784-834 | such a state is reached by vframe and two mints on any configuration with room |
| `Forest.SpliceAnc` | spec/prove.py:501-559 | splicing a node out of any forest changes ancestry only where that node is an end |
| `Forest.RenameAnc` | spec/prove.py:779-804 | renaming nodes transports ancestry exactly |
| `History.FollowInv` | spec/authority_model.py:118-863 | every operation keeps the history's invariant: birth rights, lineage and where first capabilities are |
| `History.ChronicleOfRun` | spec/authority_model.py:118-863 | the tracked history is that of the run itself |
| `History.NoRightBeyondBirth` | spec/authority_model.py:251-256 | in every run no slot holds a right its object was not born with, even when all its ancestors are gone |
| `History.ChildlessMeansReclaimed` | spec/authority_model.py:759-768 | while an Untyped's first capability is in place and childless, nothing carved from it through any copy is alive |
| `History.ResetIsSafe` | spec/authority_model.py:759-768 | a reset granted on that capability frees nothing that is in use |
| `History.RevokeReclaims` | spec/authority_model.py:730-768 | one revoke on it makes that so, and the reset is then granted |
| `History.ResetThroughCopyIsUnsafe` | spec/authority_model.py:759-768 | on a copy the promise fails: from any state, four steps lead to a granted reset with a carved object alive |
| `Notifications.StepPending` | spec/authority_model.py:553-589 | each operation changes a notification's word as its event says; no other operation moves bits |
| `Notifications.PendingIsOwed` | spec/prove.py:1307-1340 | in every run the pending word is the OR of what was signalled since the last poll |
| `Notifications.PollDelivers` | spec/authority_model.py:581-589 | a poll that resolves answers exactly that, and would block exactly when it is zero |
| `Notifications.PollsAreExact` | spec/prove.py:1307-1340 | every poll in a run's log returned exactly what was owed at that moment |
| `Notifications.BitsConserved` | spec/prove.py:1307-1340 | after any run a bit is pending exactly when a successful signal carried it and no poll has taken it since, from the operations alone |
| `Notifications.PollReturnsBits` | spec/authority_model.py:574-589 | a poll answers exactly those bits, and would block exactly when there are none |
| `Noninterference.NonInterference` | spec/noninterference.py:104-214 | for every well-formed state, two object-disjoint full subtrees and any interleaving, A observes what it would observe alone |
| `Noninterference.Unwinding` | spec/noninterference.py:186-214 | the same for any two closed, object-disjoint slot sets, with the unwinding relation at every point |
| `Noninterference.StepConfined` | spec/noninterference.py:172-183 | a subject's operation leaves everything outside its slots and objects alone |
| `Noninterference.StepSame` | spec/noninterference.py:172-183 | from states that look the same to a subject, its operation gets the same answer and leads to states that look the same |
| `Noninterference.SubtreeClosed` | spec/noninterference.py:67-77 | no parent or child link crosses the boundary of a root's full subtree |
| `Noninterference.SharedNotificationInterferes` | spec/noninterference.py:217-266 | whenever one slot may signal and another poll the same idle notification, the signal changes what the poll answers |
| `Witnesses.DisjointnessNeeded` | spec/noninterference.py:217-266 | six operations reach two roots with disjoint subtrees that share a notification; every hypothesis but object-disjointness holds and A observes what B signals |
| `TheoryCheck.MintRefines` | spec/theory_check.py:63-111 | mint answers what can_derive answers and makes the slots derive makes |
| `TheoryCheck.DeleteRefines` | spec/theory_check.py:114-131 | delete makes the slots of the abstract delete, child order included |
| `TheoryCheck.RevokeRefines` | spec/theory_check.py:152-166 | revoke makes the slots of the closure-based revoke |
| `TheoryCheck.CSpaceAncestors` | spec/theory_check.py:226-238 | leaving the mapping capabilities out hides no ancestry |
| `TheoryCheck.Closure` | spec/theory_check.py:134-149 | the layer-by-layer fixed point ends and is the set of strict descendants, on any slot map, cyclic or not |
| `TheoryCheck.IsForest` | spec/theory_check.py:202-223 | the walk decides acyclicity: true exactly when no slot is its own ancestor and no link dangles |
| `ProgMem.ProgramMemory.constructor` | services/common/prog_mem_plan.c:19-45 | the regions are laid out and the manager is valid |
| `ProgMem.ProgramMemory.Reserve` | services/common/prog_mem_plan.c:52-66 | moves the right cursor by whole pages, or refuses and moves neither |
| `ProgMem.ProgramMemory.Chunk` | services/common/prog_mem_plan.c:70-86 | at least what is needed, doubling unless the region ends, zero exactly when the need does not fit |
| `ProgMem.ProgramMemory.TakeSlot` | services/common/prog_mem_plan.c:88-93 | hands out each slot number once |
| `ProgMem.ProgramMemory.Find` | services/common/prog_mem_plan.c:95-106 | the record containing the range, or none exactly when no record does |
| `ProgMem.ProgramMemory.Record` | services/common/prog_mem_plan.c:108-118 | appends any record unless the table is full; one that overlaps nothing and has its own slot keeps the table sound |
| `ProgMem.ProgramMemory.Forget` | services/common/prog_mem_plan.c:120-127 | the last record moves into the hole and exactly one is gone; an index not in use changes nothing |
| `ProgMem.ProgramMemory.Add` | services/common/prog_mem.c:35-57 | succeeds exactly when a slot number and a table entry are left and the kernel refuses nothing; else kernel and table are as before |
| `ProgMem.ProgramMemory.Drop` | services/common/prog_mem.c:60-66 | removes one record with its frame and its pages |
| `ProgMem.ProgramMemory.Grow` | services/common/prog_mem.c:74-98 | one chunk is always enough; exactly when it fails, and then only the slot cursor has moved |
| `ProgMem.ProgramMemory.Shrink` | services/common/prog_mem.c:100-131 | removes exactly the heap records at or above the new break, and the rest still tile |
| `ProgMem.ProgramMemory.Brk` | services/common/prog_mem.c:68-135 | exactly which calls succeed; the heap stays exactly tiled with break <= top <= end; a failed call changes only the slot cursor |
| `ProgMem.ProgramMemory.Mmap` | services/common/prog_mem.c:137-147 | exactly when it fails; the returned range overlaps no range ever returned; failing restores the cursor |
| `ProgMem.ProgramMemory.Munmap` | services/common/prog_mem.c:149-158 | removes exactly the non-heap mapping that starts there, and answers each case exactly |
| `ProgMem.ProgramMemory.Mprotect` | services/common/prog_mem.c:160-206 | each answer exactly; everything stays valid exactly unless the kernel refused both the new map and the restoring one, and then one record is gone and its frame leaked |
| `ProgMem.DoublingCosts` | services/common/prog_mem.h:104-116 | k heap records grown by doubling span at least 2^(k-1) minimal chunks, the last up to the end of the region aside |
| `ProgMem.HeapFitsTable` | services/common/prog_mem.h:104-116 | so the whole heap region takes at most 14 records |
| `ProgMem.ProgramMemory.HeapRecordsFit` | services/common/prog_mem.h:104-116 | in every valid manager the heap takes at most 14 of the 32 table entries |
| `ProgMem.TilesShrink` | services/common/prog_mem.c:100-131 | dropping the heap records above a cut leaves a tiling up to the lowest of them |
| `ProgMem.PagesLeast` | services/common/prog_mem_plan.c:47-50 | rounding up gives the least whole number of pages that holds the bytes |
| `FileSystem.WriteKeepsWellFormed` | services/fs/main.c:345-401 | after any prefix of a write's sector writes used names are still unique |
| `FileSystem.OthersUnchanged` | services/fs/main.c:345-401 | after any prefix every other file reads as before |
| `FileSystem.NewNameAtomic` | services/fs/main.c:345-401 | after any prefix a new name is absent or reads exactly the bytes written |
| `FileSystem.WrittenReads` | services/fs/main.c:345-420 | after all of it a read returns the bytes written |
| `FileSystem.OverwriteCutShort` | services/fs/main.c:345-401 | an overwrite cut in the middle shows the new sector under the old size: the new file exactly when the sizes agree, the old one exactly when the sectors do |
| `FileSystem.MountKeepsFiles` | services/fs/main.c:151-235 | a remount, cut short or not, changes no file and advances the generation modulo 2^32 |
| `FileSystem.MountLeavesMark` | services/fs/main.c:151-235 | from its first write on a mount has changed the disk, and a whole mount leaves it as it was exactly when it has neither superblock nor token |
| `FileSystem.FormatEmpties` | services/fs/main.c:151-235 | a completed format is an empty filesystem that may be formatted again |
| `FileSystem.FormatCutShort` | services/fs/main.c:151-235 | a format cut after the superblock is empty exactly when the old directory sector was |
| `FileSystem.Durable` | services/fs/main.c:151-401 | through any later remounts, writes and crashes that do not write that name, an acknowledged file reads the same |
| `FileSystem.AcknowledgedSurvives` | services/fs/main.c:345-420 | from the OK reply on, that file reads the written bytes through any such life of the disk |
| `FileSystem.ReadIs` | kernel/include/iris/fs_ep_proto.h:42-74 | which bytes of which sectors a name is read from |
| `FileSystem.SectorZeroTests` | services/fs/main.c:151-181 | the bytes a mount looks for in sector 0 |
| `FileSystem.UsedCountIs` | services/fs/main.c:239-246 | the count is the number of entries with a size |
| `FileSystem.SetEntryReads` | kernel/include/iris/fs_ep_proto.h:42-74 | writing a directory entry reads back and leaves the other entries as they were |
| `FileSystem.NamePackInjective` | services/fs/main.c:250-253 | different name words are different names |
| `FileService.Service.Mount` | services/fs/main.c:151-235 | the disk is left after a prefix of the mount's writes, all of them when mounted; without a device fault it mounts exactly our disks and disposable ones |
| `FileService.Service.CountFiles` | services/fs/main.c:239-246 | counts the used entries, or zero on a device fault |
| `FileService.Service.DirFind` | services/fs/main.c:263-277 | the entry of a name, else the first free one if wanted, else none; unreadable exactly on a device fault |
| `FileService.Service.Write` | services/fs/main.c:345-401 | each reply exactly; whatever the device does, the disk is left after a prefix of the write's steps, and OK means all of them |
| `FileService.Service.Read` | services/fs/main.c:402-420 | the size and sector of the first entry of that name, and an error exactly when unmounted, absent or on a device fault |
| `ElfReloc.ApplyRelative` | services/common/elf_reloc.c:50-92 | the in-place pass leaves the memory and the answer of the pass on values, with bias plus addend at every site not overwritten later, and refuses a missing or short-entried table untouched |
| `ElfReloc.PassOnlySites` | services/common/elf_reloc.c:50-92 | bytes outside the relative sites keep their value |
| `ElfReloc.SiteHolds` | services/common/elf_reloc.c:81-88 | a site no later relocation overlaps ends up holding bias plus addend modulo 2^64 |
| `ElfReloc.PassForgetsSites` | services/common/elf_reloc.c:50-92 | the result does not depend on what the sites held, and success does not depend on the bias |
| `ElfReloc.LastBiasWins` | services/common/elf_reloc.c:50-92 | a pass at one bias and then at another is one pass at the second, overlapping sites and passes that stop early included |
| `ElfReloc.AcceptsInside` | services/common/elf_reloc.c:73-78 | short of a wrap a segment accepts exactly the sites whose eight bytes it holds |
| `ElfReloc.PassCounts` | services/common/elf_reloc.c:50-92 | a pass that gets to the end answers the number of relative entries |
| `ElfReloc.SitesDone` | services/common/elf_reloc.c:81-88 | after a success every site not overwritten later holds bias plus addend modulo 2^64, in terms of the raw table |
| `ElfReloc.PassStops` | services/common/elf_reloc.c:50-92 | a pass that meets an unlocatable site has applied exactly the entries before it |
| `ElfReloc.RelocateIdempotent` | services/common/elf_reloc.h:13-18 | the same pass twice is the pass once, whether or not it reaches the end |
| `ElfReloc.AcceptedIsInside` | services/common/elf_reloc.c:73-78 | an accepted site lies inside its segment exactly when its end does not wrap |
| `ElfReloc.ContainedIff` | services/common/elf_reloc.c:73-78 | the pass stays inside the segments exactly when no accepted site wraps |
| `ElfReloc.WrappedSiteAccepted` | services/common/elf_reloc.c:73-78 | and a wrapping site can be accepted: the last address, in an eight-byte segment at zero |
| `ElfReloc.FindRela` | services/common/elf_reloc.c:30-48 | what the last entry of each tag before the terminator says, and found exactly when there is a size and entries are long enough |
| `Checksum.Csum16` | services/ip/main.c:135-141 | no 32-bit overflow for up to 65535 bytes, folding ends, and the result is the complement of the folded true sum |
| `Checksum.SumLaws` | services/ip/main.c:135-141 | the sum is of big-endian words, an odd last byte padded with zero |
| `Checksum.FilledVerifies` | services/ip/main.c:135-141 | exactly which values of a zeroed aligned field make the message check to zero |
| `Checksum.ComputedVerifies` | services/ip/main.c:389-395 | the computed value does, and so does 0xFFFF in place of zero |
| `Checksum.ChangeNoticed` | services/ip/main.c:135-141 | changing one aligned word of a message that checks is noticed unless the words agree modulo 65535 |
| `Checksum.PatchSum` | services/ip/main.c:135-141 | rewriting an aligned word moves the sum by the difference |
| `Udp.RoundTrip` | services/ip/main.c:252-304 | every frame built is taken by exactly the hosts with that address waiting on that port, and yields sender, port and payload |
| `Udp.FrameVerifies` | services/ip/main.c:351-398 | both checksums of every frame built check to zero, the second over the twelve bytes of the pseudo-header and the datagram |
| `Udp.FrameBytes` | services/ip/main.c:166-398 | the frame byte by byte: addresses, type, length, hops, protocol, ports and payload |
| `Udp.ParseExact` | services/ip/main.c:252-304 | exactly which frames are taken, byte by byte, and what is taken from one |
| `Udp.FrameReads` | services/ip/main.c:351-398 | every field the dispatcher reads has the value that was sent |
| `IpService.Wr16` | services/ip/main.c:124-124 | two bytes in network order, nothing else |
| `IpService.Wr32` | services/ip/main.c:125-128 | four bytes in network order, nothing else |
| `IpService.Service.Send` | services/ip/main.c:351-398 | the buffer holds the frame, nothing beyond it is written, and nothing at all when refused |
| `IpService.Service.Poll` | services/ip/main.c:252-304 | takes exactly what the parse says and otherwise changes nothing |
| `IpService.Deliver` | services/ip/main.c:232-398 | one service sends and another polls: it has the payload bytes and knows who sent them |
| `Bytes.LeAt` | services/common/elf_reloc.c:85-88 | byte i of a stored number counts 256 to the i |
| `StackBuilder.Build` | services/common/prog_stack.c:28-97 | refuses exactly when it must and then writes nothing; else 16-byte aligned, vectors below strings inside the region, rest untouched |
| `StackBuilder.BuiltReads` | services/common/prog_stack.c:28-97 | walking up from the pointer gives back the count, the argument and environment strings, and the auxiliary pairs in order exactly when there are fewer than 2^31 |
| `StackBuilder.FitsIff` | services/common/prog_stack.c:45-63 | contents fit exactly when some aligned offset has the strings above it and the vectors below, in 64 bytes or more |
| `StackBuilder.Measure` | services/common/prog_stack.c:40-43 | the measuring pass gives the room the strings take, a null one as empty |
| `StackBuilder.PlaceStrings` | services/common/prog_stack.c:71-86 | strings from the cursor up and their addresses in the vector |
| `StackBuilder.PlaceAux` | services/common/prog_stack.c:88-93 | each pair and the terminator at its 32-bit index, wrap included |
| `ProgStack.VectorReads` | services/hello/main.c:46-82 | walking any vector gives back what it was made of, up to its first null pair |
| `ProgStack.JoinedReads` | services/common/prog_stack.c:71-86 | following the stored addresses gives the strings |
| `Hello.HelloMain` | services/hello/main.c:37-88 | which exit status, decided in order by the count, the arguments, the environment's length and the pairs |
| `Hello.CheckAux` | services/hello/main.c:62-87 | of the pairs looked at: the first wrong one, else the first thing missing, else success |
| `Hello.ScanOfPairs` | services/hello/main.c:62-87 | stopping at the first wrong pair gives the status all the pairs deserve |
| `Hello.DeservesOne` | services/hello/main.c:62-87 | a list of pairs deserves one status only |
| `Hello.SpawnHello` | services/hello/main.c:37-88 | on a built stack the status depends only on the two counts and the pairs that can be found there |

## Left out

- The C kernel itself: the model is of the executable specification, and no claim is made about `kcnode.c` or `kvspace.c`.
- `same_object`, `identify` and the state dump of the authority model, and its canonical numbering: reporting only.
- Random trace generation, the solver plumbing of `spec/prove.py`, and the differential and exhaustive drivers.
- The rights algebra as a finite table: intersection is used inside the tree proofs.
- Noninterference.NonInterference: subjects mint, move, rotate, delete, revoke, reset, signal and poll; making objects and mapping frames draw on the global object counter and frame table and are not subject operations, as in the source.
- ElfReloc.ApplyRelative: a relative site that a segment accepts although its end wraps around 64 bits is excluded, because the store would leave the segment's memory; `ContainedIff` says when that is, `WrappedSiteAccepted` gives one. Segment windows share no memory and the table lies outside them.
- `elf_image_has_interp`: a one-line scan.
- ProgMem.ProgramMemory.Brk: the smallest signed 64-bit amount is excluded, because its negation is undefined in C.
- ProgMem.ProgramMemory.Mprotect: when the restoring map fails the manager is no longer valid; the contract says exactly that and what is lost.
- Page tables: mapping a frame is one step that succeeds or fails.
- StackBuilder.Build: strings to be copied are not null (measuring a null one is modelled, copying it has no meaning in C), and the child's base is non-zero and 16-byte aligned. From 2^31 auxiliary pairs on the source's 32-bit index wraps; the contract says what is then built, and `BuiltReads` that exactly fewer than 2^31 pairs round-trip: of 2^31 pairs none is found.
- Hello.HelloMain: a null stack pointer; and every word the walk looks at is readable.
- IpService.Service.Poll: of ARP only that a reply ends an ARP wait; the address cache, the answer to a request, retries and timeouts are not modelled.
- IpService.Service.Send: the route lookup and the driver's buffer handover are parameters.
- The block driver, the capability handover inside services, consoles, boot, scheduling, IPC and locking.
