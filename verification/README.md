# Models of the configuration language, the kernel and the small algorithm cores

This directory models parts of the repository in Dafny and proves properties of the models. Each
module is one file of the same name; `dafny verify dfyconfig.toml` checks them all.

**The configuration language** (`KconfigExpr`, `KconfigEq`, `KconfigForms`, `KconfigDups`,
`KconfigTransform`, `KconfigInPlace`, `KconfigSlots`). Dependency expressions have the values n, m and y, with AND as
minimum, OR as maximum and NOT as 2 - x. The rewriting functions are modelled as functions on
expressions, proved to keep the value under every valuation, to end, and to reach their normal
forms; the last two modules do the same on the nodes of the tree, in place, and are proved to do
what the functions do. Symbols are the constants n, m and y or declared symbols with a type. How
two symbols compare is part of the valuation; for symbols whose values are n, m or y it agrees with
equality of values.

**Three heaps.** `SmallMemLayout` and `SmallMem` are the address-ordered heap, `MemHeapPool` and
`MemHeap` the pool with a circular block list and a separate free list, `PageRuns`, `PageList`,
`ZoneIndex` and `SlabZones` the page allocator with the slab allocator on top. In each case the
first module says what the heap looks like and what an operation means for its callers, and the
second does the work on headers and links in place. Addresses are offsets from the start of the
heap; `rt_size_t` is 32 bits wide and wraps around where the source's does.

**The kernel.** `Rings` and `KernelLists` are the circular lists, `TimerSpec` and `TimerWheel` the
timers, `WaitLists`, `Semaphores`, `Mutexes`, `Events`, `MessageQueue`, `MessageQueueRuns`,
`MessageQueueBytes` and `MessageQueueCalls` the objects that threads wait for, `Bitmaps` and `Scheduler` the ready queues. A region with
interrupts off is one atomic step. The kernel is modelled with heap, mutexes, events and message
queues switched on, and the conditions of `RT_ASSERT`, which expands to nothing unless `RT_DEBUG`
is defined, are preconditions. A node's links are maps from node to node, one map for each field
of the structure. A 32-bit event set is modelled as the set of its bits, a word of a bitmap or a
checksum as the sequence of its bits.

**Algorithm cores.** `StableSort` and `ListSort` are the list sort of CoreMark, `Folds` and `Crc`
the CRC-16 of MODBUS (MODBUS over Serial Line V1.02, section 6.2.2) in its two implementations,
`Sieve` the two ways of counting primes. `Arith`, `Seqs` and `Sizes` hold what several
modules share.

## What the code does that its documentation does not say

- `expr_eq` is not what the comment above it says, in either direction. Where no y or n stands
  below an operator it asks that the operands of the two sides pair off, so that A && A && B and
  A && B are not equal to it (`KconfigForms.RepeatUnrecognised`); code and comment agree exactly if
  every operand is repeated as often on one side as on the other (`KconfigForms.CommentExactly`).
  With a y or n below an operator, (A || n) && B is equal to A && B although A || n equals no
  operand of the other side (`KconfigForms.NestedConstantAccepted`).
- The comment on `(a!='m') && (a!='n')` in `expr_join_and` promises `a='m'`; the code gives `a='y'`,
  which is right.
- `expr_trans_bool` below a negation does not in general preserve whether a value is n
  (`KconfigTransform.TransBoolBelowNot`); it is only applied where no test stands there, which is
  sufficient (`KconfigTransform.TransBoolSound`).
- In the address-ordered heap a request above 2^32 - 4 bytes rounds to zero and is granted the
  minimal block (`SmallMemLayout.GrantExact`); the two tests of `plug_holes` that would move `lfree`
  off a block that disappears never hold (`SmallMemLayout.RemoveLowest`).
- In the pool allocator the test for growing in place wraps around for requests that round to
  2^32 - 12 bytes or more (`MemHeap.GrowTestExact`), and then succeeds whenever the block behind is
  free (`MemHeap.GrowTestWraps`); one allocation leads to such a pool (`MemHeap.WrapReachable`).
- A periodic timer whose own timeout function makes it a one-shot timer stays marked as activated
  without being in any list (`TimerSpec.FireStray`, `TimerSpec.CheckStray`).
- A mutex with a first-come list does not pass on inherited urgency when it is handed over
  (`Mutexes.FifoInverts`).
- The sieve counts 4 in place of 2; the two counts differ for table sizes 2 and 3 only
  (`Sieve.CountsAgree`).

## Model

| member | source | states |
|---|---|---|
| `KconfigExpr.EliminateYnSound` | nemu/tools/kconfig/expr.c:316-397 | removing n and y below operators keeps the n/m/y value under every valuation |
| `KconfigExpr.EliminateYnNormal` | nemu/tools/kconfig/expr.c:316-397 | afterwards no y or n stands below an operator reached through operators; a second removal changes nothing; the tree gets smaller exactly if there was something to remove; negation normal form is kept |
| `KconfigEq.WalkSound` | nemu/tools/kconfig/expr.c:150-190 | the walk over pairs of operands leaves two residuals and one common part, with which each original is the operator applied to its residual and that part |
| `KconfigEq.WalkExhaustive` | nemu/tools/kconfig/expr.c:150-190 | the walk leaves no operand of one tree equal to an operand of the other, as far as removal by y or n goes |
| `KconfigEq.EliminateEqSound` | nemu/tools/kconfig/expr.c:221-241 | there are one connective and one common part by which both originals are recovered in value from what is left of them |
| `KconfigEq.ExprEqSound` | nemu/tools/kconfig/expr.c:252-303 | a positive answer means equal value under every valuation, through the mutual recursion with the elimination |
| `KconfigForms.ExprEqForms` | nemu/tools/kconfig/expr.c:252-303 | where no y or n stands below an operator, expr_eq decides equality up to grouping and order of operands at every level, each operand counted as often as it occurs |
| `KconfigForms.ExprEqEquivalence` | nemu/tools/kconfig/expr.c:252-303 | so it is reflexive, symmetric and transitive there, although it works on two copies from left to right |
| `KconfigForms.ExprEqExactly` | nemu/tools/kconfig/expr.c:221-303 | with y and n among the operands themselves: two expressions of one operator are equal exactly if both have the absorbing constant, or the operands other than the unit pair off one to one |
| `KconfigForms.ExprEqPairsOff` | nemu/tools/kconfig/expr.c:246-303 | without y and n they are equal exactly if the operands pair off one to one |
| `KconfigForms.CommentExactly` | nemu/tools/kconfig/expr.c:246-303 | when that is what the comment above expr_eq says: exactly if each operand is repeated as often on either side, or the comment denies equality too; if no operand of one side is repeated, none of the other may be |
| `KconfigForms.RepeatUnrecognised` | nemu/tools/kconfig/expr.c:246-303 | repeating any operand of any such expression keeps its value and meets the comment, and is never recognised |
| `KconfigForms.NestedConstantAccepted` | nemu/tools/kconfig/expr.c:246-303 | with n below an operator inside an operand expr_eq accepts a pair that the comment excludes |
| `KconfigDups.JoinSound` | nemu/tools/kconfig/expr.c:431-587 | every rule of expr_join_or and expr_join_and replaces two operands by one expression of the same value |
| `KconfigDups.JoinExactly` | nemu/tools/kconfig/expr.c:431-587 | the rules apply exactly to equal operands, to = or != tests of one tristate symbol against different constants, to opposed tests under &&, to a symbol and its test for y, not n or not m under &&, and to a boolean symbol and its negation under ||; all other pairs remain |
| `KconfigDups.JoinShape` | nemu/tools/kconfig/expr.c:431-587 | what a rule can produce: a symbol, a comparison, a negated symbol or a constant, never a larger tree; in particular negation normal form is kept |
| `KconfigDups.RebuildLeaves` | nemu/tools/kconfig/expr.c:596-651 | a level of one operator is determined by its shape and its sequence of operands, which is how the two pointers into one tree are modelled |
| `KconfigDups.WalkPairsSound` | nemu/tools/kconfig/expr.c:596-651 | the pair walk keeps the value of the whole level although both its arguments alias one tree, and recursion rewrites operands under way |
| `KconfigDups.WalkPairsKept` | nemu/tools/kconfig/expr.c:596-651 | each successful join puts a y or n into a slot and leaves it there, and sizes do not grow |
| `KconfigDups.JoinsLeaveConstants` | nemu/tools/kconfig/expr.c:664-686 | a round that joined something leaves something for the removal of y and n, so that the loop to a fixpoint ends |
| `KconfigDups.EliminateDupsSound` | nemu/tools/kconfig/expr.c:664-686 | expr_eliminate_dups keeps the n/m/y value under every valuation |
| `KconfigDups.EliminateDupsSettled` | nemu/tools/kconfig/expr.c:664-686 | in the result no two operands of one level are equal to expr_eq, or redundant in any other of these ways, at any level reached through operators |
| `KconfigDups.EliminateDupsFixed` | nemu/tools/kconfig/expr.c:664-686 | the expressions without such operands are exactly those that are left alone |
| `KconfigDups.EliminateDupsNnf` | nemu/tools/kconfig/expr.c:664-686 | it keeps negation normal form |
| `KconfigTransform.DeMorganLighter` | nemu/tools/kconfig/expr.c:760-820 | pushing a negation inwards lowers a weight although it adds nodes, which is why expr_transform ends |
| `KconfigTransform.TransformNormal` | nemu/tools/kconfig/expr.c:694-849 | the result is in negation normal form, negations standing above non-constant symbols only, and has no test of a boolean symbol against a constant |
| `KconfigTransform.TransformFixed` | nemu/tools/kconfig/expr.c:694-849 | the expressions that expr_transform leaves alone are exactly those of that form |
| `KconfigTransform.TransformSound` | nemu/tools/kconfig/expr.c:694-849 | expr_transform keeps the n/m/y value under every valuation |
| `KconfigTransform.TransBoolSound` | nemu/tools/kconfig/expr.c:402-426 | expr_trans_bool may turn y into m but neither makes nor unmakes n, unless a test it rewrites stands below a negation |
| `KconfigTransform.TransBoolDrops` | nemu/tools/kconfig/expr.c:402-426 | afterwards no tristate symbol is tested for not being n |
| `KconfigTransform.TransBoolBelowNot` | nemu/tools/kconfig/expr.c:402-426 | that condition cannot be dropped: for a single comparison below a negation the rewrite is faithful exactly when the comparison is not such a test; for larger expressions the condition is sufficient |
| `KconfigTransform.NnfHasNoTestBelowNot` | nemu/tools/kconfig/expr.c:402-426 | the output of expr_transform always meets the condition |
| `KconfigTransform.RewriteMSound` | nemu/tools/kconfig/menu.c:82-105 | rewrite_m gives the value that the expression has when m counts as m && MODULES |
| `KconfigTransform.PropagateSound` | nemu/tools/kconfig/menu.c:356-360 | a menu entry's rewritten dependency has the value of the conjunction of its own, with m capped by MODULES, and its parent's |
| `KconfigTransform.NestedSound` | nemu/tools/kconfig/menu.c:313-360 | so it has along every path of nested menus, where a choice puts its symbol in the place of what it depends on |
| `KconfigTransform.PropertyConditionSound` | nemu/tools/kconfig/menu.c:356-405 | the condition of a property tells n from not n as the plain conjunction does, and for tristate symbols has its value |
| `KconfigInPlace.ExprNode.EliminateYnNode` | nemu/tools/kconfig/expr.c:316-397 | the removal in place, on the nodes of the tree: the tree becomes the one that the functional form gives, within its own nodes |
| `KconfigInPlace.ExprNode.TransBoolNode` | nemu/tools/kconfig/expr.c:402-426 | the boolean rewrite in place |
| `KconfigInPlace.ExprNode.TransformNode` | nemu/tools/kconfig/expr.c:694-849 | the transformation in place, with its overwriting of nodes by De Morgan's rule |
| `KconfigInPlace.ExprNode.CopyNode` | nemu/tools/kconfig/expr.c:66-105 | a copy is a tree of fresh nodes with the same expression |
| `KconfigInPlace.WalkNodes` | nemu/tools/kconfig/expr.c:150-190 | the pair walk in place on two trees that share no node; it answers how many pairs it removed |
| `KconfigInPlace.EliminateEqNodes` | nemu/tools/kconfig/expr.c:221-241 | expr_eliminate_eq in place on two trees |
| `KconfigInPlace.ExprEqNodes` | nemu/tools/kconfig/expr.c:252-303 | expr_eq on copies, leaving its arguments alone and saving the count of changes |
| `KconfigSlots.WalkPairsInPlace` | nemu/tools/kconfig/expr.c:596-651 | the pair walk that overwrites slots of one level, both cursors in the same level |
| `KconfigSlots.ExprEliminateDups` | nemu/tools/kconfig/expr.c:664-686 | the loop to a fixpoint: the result equals the argument in value and is settled |
| `MessageQueue.Queue.constructor` | libs/_kernel/src/ipc.c:1824-1874 | a new queue has all max_msgs nodes on the free list and none queued |
| `MessageQueue.Queue.GrabFree` | libs/_kernel/src/ipc.c:2118-2122 | the region that takes a node off the free list; the queue is untouched |
| `MessageQueue.Queue.LinkTail` | libs/_kernel/src/ipc.c:2130-2153 | the region that links a filled node last and counts it; the message cannot be lost and the bound on entry is never met |
| `MessageQueue.Queue.LinkHead` | libs/_kernel/src/ipc.c:2239-2259 | the urgent send links the node first |
| `MessageQueue.Queue.TakeHead` | libs/_kernel/src/ipc.c:2391-2404 | the receiver's first region takes the head of the queue and moves the tail pointer when it was the last |
| `MessageQueue.Queue.PutFree` | libs/_kernel/src/ipc.c:2412-2416 | the receiver's second region gives the node back to the free list |
| `MessageQueue.Queue.Reset` | libs/_kernel/src/ipc.c:2451-2499 | a reset moves every queued node to the free list, leaves nodes in flight alone and sets entry to zero |
| `MessageQueue.Queue.EntryHasRoom` | libs/_kernel/src/ipc.c:2144-2153 | with a node in flight entry is below max_msgs, so the overflow return cannot lose it |
| `MessageQueueRuns.StepInv` | libs/_kernel/src/ipc.c:2014-2499 | every region of every thread keeps free, queued and in-flight nodes a partition of all nodes, entry the length of the queue, and wait lists and thread states in agreement |
| `MessageQueueRuns.RunInv` | libs/_kernel/src/ipc.c:2014-2499 | so do all interleavings of them |
| `MessageQueueRuns.StepRefines` | libs/_kernel/src/ipc.c:2014-2499 | each region is one legal event of a bounded deque or none; pushes happen at the link, pops where the node is taken |
| `MessageQueueRuns.RunRefines` | libs/_kernel/src/ipc.c:2014-2499 | every interleaving refines a run of the bounded deque |
| `MessageQueueBytes.PoppedWasPushed` | libs/_kernel/src/ipc.c:2014-2439 | over any run that begins with an empty queue, what is popped was pushed by an earlier step, with the same bytes |
| `MessageQueueBytes.PoppedOnce` | libs/_kernel/src/ipc.c:2014-2439 | two pops never come from the same push: no message is received twice |
| `MessageQueueBytes.BytesArrive` | libs/_kernel/src/ipc.c:2014-2439 | over any interleaving, what a receiver copies out outside the lock begins the node that one sender filled outside the lock and linked before, as does that sender's buffer, and the message is the one that was popped |
| `MessageQueueCalls.SendOutcome` | libs/_kernel/src/ipc.c:2014-2122 | a send gets a node while one is free; without one it waits if it is ordinary and may, and is over otherwise; nobody else moves |
| `MessageQueueCalls.SendAgainOutcome` | libs/_kernel/src/ipc.c:2060-2122 | the same for a sender that has been woken, with the message it waited to send |
| `MessageQueueCalls.RecvOutcome` | libs/_kernel/src/ipc.c:2320-2404 | a receive gets the first message while there is one; without one it waits if it may |
| `MessageQueueCalls.RecvAgainOutcome` | libs/_kernel/src/ipc.c:2330-2404 | the same for a receiver that has been woken, for the buffer it waited with |
| `MessageQueueCalls.LinkWakesFirst` | libs/_kernel/src/ipc.c:2130-2172 | a link wakes the first receiver on the list and nobody else |
| `MessageQueueCalls.ReturnWakesFirst` | libs/_kernel/src/ipc.c:2412-2431 | giving a node back wakes the first sender on the list and nobody else |
| `MessageQueueCalls.ResetMeans` | libs/_kernel/src/ipc.c:2451-2499 | a reset empties the queue and ends every wait; threads with a node in flight keep it |
| `MessageQueueCalls.CopyInMeans` | libs/_kernel/src/ipc.c:2126-2128 | the buffer is put at the beginning of the node, and nothing else is written |
| `MessageQueueCalls.LinkedAsCalled` | libs/_kernel/src/ipc.c:2014-2259 | over any interleaving a message is linked first exactly if the call that began its send was urgent, last otherwise, and begins with that call's data, whether the sender has waited or not |
| `MessageQueueCalls.FromCallToCall` | libs/_kernel/src/ipc.c:2014-2439 | over any interleaving what a receiver copies out is as long as its own call allows and agrees with the data of one earlier call to send |
| `MessageQueueRuns.QuietMeansBlocked` | libs/_kernel/src/ipc.c:2014-2439 | when nobody is about to move, waiting senders mean a full queue and waiting receivers an empty one: no wake-up is lost |
| `Sizes.AlignExact` | libs/_kernel/src/mem.c:289-296 | RT_ALIGN gives at least the size asked for exactly up to 2^32-4; above that it wraps around to zero |
| `Sizes.RequestExact` | libs/_kernel/src/mem.c:289-300 | the size looked for is the least multiple of 4 that holds the request and is at least 12, or 12 where rounding wraps around |
| `SmallMemLayout.GrantExact` | libs/_kernel/src/mem.c:272-410 | rt_malloc hands out at least n bytes exactly for n up to 2^32-4 |
| `SmallMemLayout.GrantBounded` | libs/_kernel/src/mem.c:314-370 | what is handed out is at least the size looked for and less than that plus a header and a minimal payload; the rest of a larger block stays free |
| `SmallMemLayout.OccupyTiles` | libs/_kernel/src/mem.c:305-379 | an allocation keeps the blocks tiling the heap with no two free neighbours |
| `SmallMemLayout.ReleaseTiles` | libs/_kernel/src/mem.c:549-612 | so does a free, with its merging |
| `SmallMemLayout.ShrinkTiles` | libs/_kernel/src/mem.c:470-503 | and a shrinking realloc |
| `SmallMemLayout.OccupyUsed` | libs/_kernel/src/mem.c:349-370 | used_mem grows by the span of the block taken, header included |
| `SmallMemLayout.ReleaseUsed` | libs/_kernel/src/mem.c:605-607 | and falls by that of the block freed |
| `SmallMemLayout.ShrinkUsed` | libs/_kernel/src/mem.c:473-475 | and by the bytes that a shrink cuts off |
| `SmallMemLayout.OccupyLive` | libs/_kernel/src/mem.c:305-379 | an allocation adds one extent, inside the chosen free block, and leaves all other live extents in place |
| `SmallMemLayout.ReleaseLive` | libs/_kernel/src/mem.c:549-612 | a free takes away exactly the extent of its block |
| `SmallMemLayout.ShrinkLive` | libs/_kernel/src/mem.c:470-503 | a shrink keeps the start of the extent and moves its end |
| `SmallMemLayout.LayoutDetermined` | libs/_kernel/src/mem.c:156-194 | what callers own determines the whole chain: free space is merged as far as it goes |
| `SmallMemLayout.ReleaseUndoesOccupy` | libs/_kernel/src/mem.c:549-612 | freeing right after allocating restores the partition, and with it lfree and used_mem |
| `SmallMemLayout.FailureExact` | libs/_kernel/src/mem.c:305-311 | the search fails exactly when no free block fits, the last one counting only if something would be left over |
| `SmallMemLayout.LiveApart` | libs/_kernel/src/mem.c:305-379 | live extents never overlap and are a header apart |
| `SmallMemLayout.OccupyLowest` | libs/_kernel/src/mem.c:380-387 | taking a block moves the lowest free block only if it was that block |
| `SmallMemLayout.LowestAfterFreeing` | libs/_kernel/src/mem.c:599-603 | a block freed or split off becomes the lowest free one exactly if it lies below it |
| `SmallMemLayout.RemoveLowest` | libs/_kernel/src/mem.c:163-193 | while neighbours are joined lfree never points at the block that disappears: the two tests for it in plug_holes never hold |
| `SmallMem.StoredInsert` | libs/_kernel/src/mem.c:329-348 | linking a block in keeps next and prev in agreement with the row, except for the end sentinel's prev |
| `SmallMem.StoredRemove` | libs/_kernel/src/mem.c:163-193 | so does joining two blocks |
| `SmallMem.SmallHeap.constructor` | libs/_kernel/src/mem.c:204-257 | the initial heap is one free block in front of the sentinel |
| `SmallMem.SmallHeap.Search` | libs/_kernel/src/mem.c:305-311 | the search from lfree finds the first fit in the whole heap |
| `SmallMem.SmallHeap.ChoiceExact` | libs/_kernel/src/mem.c:272-311 | an allocation takes the lowest free block that is large enough and does not end the heap exactly, and fails exactly if there is none or nothing is asked for |
| `SmallMem.SmallHeap.AdvanceLfree` | libs/_kernel/src/mem.c:380-387 | the loop leaves lfree at the lowest free block or at the end |
| `SmallMem.SmallHeap.Malloc` | libs/_kernel/src/mem.c:272-410 | the new layout, the pointer, max_mem and the bytes of all live payloads, or failure with nothing changed |
| `SmallMem.SmallHeap.PlugHoles` | libs/_kernel/src/mem.c:156-194 | both merges, keeping headers, tiling and lfree |
| `SmallMem.SmallHeap.Free` | libs/_kernel/src/mem.c:549-612 | the new layout for an owned pointer; null and pointers outside the heap change nothing |
| `SmallMem.SmallHeap.ShrinkInPlace` | libs/_kernel/src/mem.c:470-503 | the block is cut, the rest joined with what follows, and no live byte overwritten |
| `SmallMem.SmallHeap.Move` | libs/_kernel/src/mem.c:506-514 | a new block, the first bytes copied, the old block freed; on failure nothing changes |
| `SmallMem.SmallHeap.Realloc` | libs/_kernel/src/mem.c:420-515 | which of its seven outcomes a call has, and that what a caller owned and still owns keeps its bytes |
| `Rings.InsertRing` | libs/_kernel/include/rtservice.h:58-80 | linking a node in behind another keeps a circular doubly linked list, with the node in that place |
| `Rings.RemoveRing` | libs/_kernel/include/rtservice.h:86-92 | unlinking a node keeps the circle without it |
| `KernelLists.Lists.Init` | libs/_kernel/include/rtservice.h:47-50 | a list head alone is a circle |
| `KernelLists.Lists.InsertAfter` | libs/_kernel/include/rtservice.h:58-65 | the node comes right behind, and disjoint lists do not notice |
| `KernelLists.Lists.InsertBefore` | libs/_kernel/include/rtservice.h:73-80 | the node comes right before, that is last when the head is meant |
| `KernelLists.Lists.Remove` | libs/_kernel/include/rtservice.h:86-92 | the node leaves its list and becomes a list of its own; removing it again changes nothing |
| `KernelLists.Lists.IsEmpty` | libs/_kernel/include/rtservice.h:98-101 | true exactly for a head alone |
| `KernelLists.Lists.Len` | libs/_kernel/include/rtservice.h:107-118 | the nodes besides the head |
| `MemHeapPool.TakeSound` | libs/_kernel/src/memheap.c:153-268 | an allocation keeps the blocks tiling the pool, the free list listing free blocks once each, and no two free blocks neighbours |
| `MemHeapPool.TakeBlocks` | libs/_kernel/src/memheap.c:176-258 | it replaces one free block by a used one and perhaps a free rest, and nothing else |
| `MemHeapPool.TakeCounts` | libs/_kernel/src/memheap.c:228-241 | available_size falls by the payload and, for a split, one header; other owners keep their blocks |
| `MemHeapPool.TakeBounded` | libs/_kernel/src/memheap.c:176-241 | what is handed out is at least the size looked for and less than that plus a header and a minimal payload; the rest of a larger block comes first in the free list |
| `MemHeapPool.GiveSound` | libs/_kernel/src/memheap.c:531-587 | a free keeps the structure; the block and its free neighbours become one |
| `MemHeapPool.GiveCounts` | libs/_kernel/src/memheap.c:533-561 | available_size grows by the payload and a header for each neighbour joined |
| `MemHeapPool.CutsSound` | libs/_kernel/src/memheap.c:331-487 | growing into the next block and shrinking, with or without a merge, keep the structure |
| `MemHeapPool.CutsCounts` | libs/_kernel/src/memheap.c:331-487 | and account for exactly the bytes moved; the block keeps its start |
| `MemHeapPool.ShrinkBounded` | libs/_kernel/src/memheap.c:425-486 | what a shrinking block gives up, with a free block behind it, comes first in the free list |
| `MemHeapPool.GiveUndoesTake` | libs/_kernel/src/memheap.c:491-591 | freeing right after allocating restores the row; the block is then first in the free list |
| `MemHeapPool.FailureExact` | libs/_kernel/src/memheap.c:153-181 | an allocation fails exactly when no free block has the room, or the only free block is an exact fit |
| `MemHeap.GrowTestExact` | libs/_kernel/src/memheap.c:347-347 | the test for growing in place is right exactly while newsize + 12 does not wrap around |
| `MemHeap.GrowTestWraps` | libs/_kernel/src/memheap.c:347-347 | in every pool, a request so large that the right-hand side wraps around passes the test though there is never so much room |
| `MemHeap.WrapReachable` | libs/_kernel/src/memheap.c:347-347 | one allocation in a new pool of 104 bytes leads to a used block of 16 bytes before a free one of 16, where the test wraps |
| `MemHeap.Heap.constructor` | libs/_kernel/src/memheap.c:50-121 | the initial pool: one free block and the used tailer |
| `MemHeap.Heap.Search` | libs/_kernel/src/memheap.c:164-178 | the search along the free list finds the first block with enough room |
| `MemHeap.Heap.ChoiceExact` | libs/_kernel/src/memheap.c:137-181 | an allocation takes the first block of the free list that has the room, and fails exactly if none has or the only free block is an exact fit |
| `MemHeap.Heap.Alloc` | libs/_kernel/src/memheap.c:136-279 | the new pool, the pointer and max_used_size, or failure with nothing changed |
| `MemHeap.Heap.Free` | libs/_kernel/src/memheap.c:491-591 | both lists, flags and counters after the merges; null changes nothing |
| `MemHeap.Heap.TryGrow` | libs/_kernel/src/memheap.c:326-399 | a block grows in place exactly when the free block behind it leaves a minimal block |
| `MemHeap.Heap.ShrinkInPlace` | libs/_kernel/src/memheap.c:416-488 | a block is cut and the rest merged with a free neighbour |
| `MemHeap.Heap.Realloc` | libs/_kernel/src/memheap.c:281-489 | which outcome a call has: freed, allocated, kept, shrunk, grown in place or moved |
| `PageRuns.Determined` | libs/_kernel/src/slab.c:270-320 | the page list is a function of the set of free pages: sorted, disjoint, merged as far as it goes |
| `PageRuns.AllocPages` | libs/_kernel/src/slab.c:234-268 | an allocation takes exactly its n pages out of the free ones |
| `PageRuns.AllocLowest` | libs/_kernel/src/slab.c:234-268 | it finds the lowest n free pages in a row and fails only if there are none |
| `PageRuns.AllocSorted` | libs/_kernel/src/slab.c:234-268 | it keeps the list sorted and separated |
| `PageRuns.FreePages` | libs/_kernel/src/slab.c:270-320 | a free adds exactly its pages |
| `PageRuns.FreeSorted` | libs/_kernel/src/slab.c:270-320 | it keeps the list sorted, disjoint and merged |
| `PageRuns.FreeUndoesAlloc` | libs/_kernel/src/slab.c:234-320 | freeing a run just allocated restores the list |
| `PageRuns.FreesCommute` | libs/_kernel/src/slab.c:270-320 | the order of two frees does not matter |
| `PageList.Pages.constructor` | libs/_kernel/src/slab.c:325-332 | the initial list of one run |
| `PageList.Pages.Alloc` | libs/_kernel/src/slab.c:234-268 | the loop with its pointer to the link: the result and the new list |
| `PageList.Pages.Free` | libs/_kernel/src/slab.c:270-320 | the loop with its merges in front, behind and both: the new list |
| `ZoneIndex.ZoneIndex` | libs/_kernel/src/slab.c:399-457 | the index and chunk size for every size, including those too large |
| `ZoneIndex.IndexFits` | libs/_kernel/src/slab.c:399-457 | every small request gets a chunk that holds it, and the index alone determines the chunk size |
| `ZoneIndex.IndexStable` | libs/_kernel/src/slab.c:700-712 | a chunk size asked for again gets the same zone, as realloc needs |
| `ZoneIndex.SizesGrow` | libs/_kernel/src/slab.c:399-457 | different indices mean different, growing chunk sizes |
| `ZoneIndex.IndexTight` | libs/_kernel/src/slab.c:399-457 | no zone of smaller chunks would have held the request |
| `SlabZones.ChunksApart` | libs/_kernel/src/slab.c:600-625 | chunks of a zone do not overlap, stay clear of its header and inside its pages |
| `SlabZones.NewZoneOk` | libs/_kernel/src/slab.c:600-632 | a new zone holds at least two chunks and its counters agree |
| `SlabZones.NewZoneFull` | libs/_kernel/src/slab.c:614-640 | what is left at the end of a new zone is less than a chunk |
| `SlabZones.OffsetExact` | libs/_kernel/src/slab.c:614-636 | chunks begin at the first place behind the header that is a multiple of their size if that is a power of two, and of eight otherwise |
| `SlabZones.TakenOk` | libs/_kernel/src/slab.c:541-567 | taking a chunk keeps z_nfree = (z_nmax - 1 - z_uindex) + length of z_freechunk and hands out a chunk not in use |
| `SlabZones.TakenExactly` | libs/_kernel/src/slab.c:549-566 | chunks never used come first, in order; then the one given back last, and giving it back again restores the zone |
| `SlabZones.ReturnedOk` | libs/_kernel/src/slab.c:824-841 | giving one back keeps it too |
| `SlabZones.AllFreeExactly` | libs/_kernel/src/slab.c:849-850 | z_nfree equals z_nmax exactly if no chunk is in use |
| `SlabZones.LiveApart` | libs/_kernel/src/slab.c:476-665 | nothing that two callers hold overlaps, small or large |
| `SlabZones.Slab.LimitIs` | libs/_kernel/src/slab.c:360-379 | from which size on a request is a large one |
| `SlabZones.Slab.Malloc` | libs/_kernel/src/slab.c:476-665 | for every 32-bit size: a pointer not in use before with room for the request, all others unmoved; null exactly if there are no pages and no zone for it, or rounding up to pages wraps around to none; no page is lost and each zone is on its list once exactly if something is left in it |
| `SlabZones.Slab.TakeChunk` | libs/_kernel/src/slab.c:537-576 | a chunk from the first zone of the list, which leaves the list with its last chunk |
| `SlabZones.Slab.OpenZone` | libs/_kernel/src/slab.c:585-658 | a parked zone or new pages become a zone; its first chunk is handed out |
| `SlabZones.Slab.Free` | libs/_kernel/src/slab.c:766-899 | the pointer is no longer in use and all others are untouched; a zone that had nothing left returns to the front of its list, one all free beside another is parked, and beyond two parked its pages go back |
| `SlabZones.Slab.FreeChunk` | libs/_kernel/src/slab.c:820-850 | the zone goes back on its list when it had nothing left |
| `SlabZones.Slab.Park` | libs/_kernel/src/slab.c:849-869 | an empty zone that is not the only one of its list is parked |
| `TimerSpec.StartKeeps` | libs/_kernel/src/timer.c:311-424 | a start keeps the line ordered by deadline with each timer once, and the new deadline in the future |
| `TimerSpec.InsertPlace` | libs/_kernel/src/timer.c:346-378 | insertion puts a timer behind all that run out no later and before all that run out later, and keeps the others in order: first come, first out among equals |
| `TimerSpec.InsertKeeps` | libs/_kernel/src/timer.c:346-378 | the line stays ordered by deadline, each timer once |
| `TimerSpec.FireKeeps` | libs/_kernel/src/timer.c:535-581 | firing keeps the invariant whatever the timeout function starts or stops, and leaves fewer expired timers, so the check ends |
| `TimerSpec.CheckEnds` | libs/_kernel/src/timer.c:522-589 | after a check nothing is expired; it fires only expired timers, each once |
| `TimerSpec.CheckExact` | libs/_kernel/src/timer.c:522-589 | a timer that no timeout function touches fires in a check exactly if it has expired; a periodic one is then due one period after the check |
| `TimerSpec.PeriodicOnTime` | libs/_kernel/src/timer.c:522-589 | over any run of ticks, with other timeout functions doing something else at every tick, and of calls by threads between them, a periodic timer that nobody touches fires at its deadline and every period after, for ever, and at no other tick |
| `TimerSpec.OneShotOnce` | libs/_kernel/src/timer.c:522-589 | over any such run a one-shot timer fires once, at its deadline, and is then out of the list |
| `TimerSpec.StartsAsSet` | libs/_kernel/src/timer.c:338-338 | a timer set to d and started runs out d ticks later |
| `TimerSpec.StepSettings` | libs/_kernel/src/timer.c:468-514 | the time set for a timer, and whether it is periodic, stay through every tick and call that does not set them |
| `TimerSpec.FiresAsSet` | libs/_kernel/src/timer.c:311-589 | over any run, a timer last set to d and started at tick n, then left alone, fires at n+d, n+2d and so on if it was last set to be periodic, and at n+d only otherwise |
| `TimerSpec.FireStray` | libs/_kernel/src/timer.c:552-581 | which timers are marked activated without being listed after a firing: those that were and were not dealt with, and a periodic one that its own timeout function makes one-shot and neither starts nor stops |
| `TimerSpec.FireNoStray` | libs/_kernel/src/timer.c:552-581 | a firing leaves none such exactly if the timer fired does not do that |
| `TimerSpec.CheckStray` | libs/_kernel/src/timer.c:522-589 | the same for a whole check and a timer touched by no timeout function but its own |
| `TimerSpec.CheckNoStray` | libs/_kernel/src/timer.c:522-589 | and for all timers at once |
| `TimerSpec.StrayExample` | libs/_kernel/src/timer.c:552-581 | a timeout function that does that to its own timer |
| `TimerWheel.WrapCompare` | libs/_kernel/src/timer.c:370-377 | the comparison of wrapping ticks is that of true time for deadlines less than half the range apart |
| `TimerWheel.WrapTooFar` | libs/_kernel/src/timer.c:370-377 | and fails at half the range |
| `TimerWheel.KeepInsert` | libs/_kernel/src/timer.c:348-378 | scanning a row of the skip list finds the place that scanning the bottom row would find |
| `TimerWheel.Timers.Remove` | libs/_kernel/src/timer.c:136-144 | off every row, and off the check's own list |
| `TimerWheel.Timers.Search` | libs/_kernel/src/timer.c:346-380 | for any number of levels the descent ends in each row where a linear scan of it would |
| `TimerWheel.Timers.InsertRows` | libs/_kernel/src/timer.c:383-404 | into the bottom row always and into higher ones by the counter; each row stays an ordered sublist of the next |
| `TimerWheel.Timers.Start` | libs/_kernel/src/timer.c:311-424 | rt_timer_start on wrapping ticks and rows does what the specification does in true time on one line |
| `TimerWheel.Timers.Stop` | libs/_kernel/src/timer.c:433-457 | the same for rt_timer_stop, which fails exactly for a timer not activated |
| `TimerWheel.Timers.SetTime` | libs/_kernel/src/timer.c:468-514 | setting the period leaves a running deadline alone |
| `TimerWheel.Timers.SetPeriodic` | libs/_kernel/src/timer.c:468-514 | switching between periodic and one-shot |
| `TimerWheel.Timers.Check` | libs/_kernel/src/timer.c:522-589 | the same for the check with arbitrary timeout functions: same state, same timers fired in the same order |
| `TimerWheel.Timers.Tick` | libs/_kernel/src/clock.c:67-89 | and for the wrapping tick with its check |
| `TimerWheel.Timers.Run` | libs/_kernel/src/timer.c:522-589 | over any run of wrapping ticks and calls between them the skip list does what the specification does, so that every timer left alone fires on time across the wrap-around, periodic ones every period |
| `WaitLists.InsertPlace` | libs/_kernel/src/ipc.c:96-124 | a waiter goes behind all that are as urgent and before all that are less urgent; the others keep their order |
| `WaitLists.InsertKeeps` | libs/_kernel/src/ipc.c:96-124 | a list by priority stays in order |
| `WaitLists.WaitList.Suspend` | libs/_kernel/src/ipc.c:83-129 | the caller is suspended in its place with its error reset, its timer running exactly for a positive time |
| `WaitLists.WaitList.Resume` | libs/_kernel/src/ipc.c:140-153 | the first waiter becomes ready and its timer is stopped |
| `WaitLists.WaitList.ResumeAll` | libs/_kernel/src/ipc.c:163-191 | everybody becomes ready with an error |
| `WaitLists.WaitList.Timeout` | libs/_kernel/src/thread.c:796-818 | a thread whose time is up leaves the list with -RT_ETIMEOUT |
| `Semaphores.StepInv` | libs/_kernel/src/ipc.c:326-524 | waiters are suspended, each listed once; only suspended threads have their timers running; while somebody waits the value is 0 |
| `Semaphores.RunInv` | libs/_kernel/src/ipc.c:326-524 | in every reachable state |
| `Semaphores.TakeAnswer` | libs/_kernel/src/ipc.c:326-432 | success is told exactly if the value falls by one, a timeout exactly if it is 0 and the caller will not wait, nothing exactly if the caller is then on the list |
| `Semaphores.ReleaseAnswer` | libs/_kernel/src/ipc.c:443-481 | success is told exactly if somebody is woken or the value grows by one, full exactly at 65535 with nobody waiting |
| `Semaphores.ResetMeans` | libs/_kernel/src/ipc.c:492-524 | the value set modulo 65536, every waiter going on with an error and nobody else noticing |
| `Semaphores.Conserved` | libs/_kernel/src/ipc.c:326-481 | between resets value plus successful takes equals initial value plus successful releases |
| `Semaphores.WaitEnds` | libs/_kernel/src/ipc.c:326-524 | a waiter goes on exactly if a step ends its wait: a release (RT_EOK), a reset (-RT_ERROR) or its timeout (-RT_ETIMEOUT), which it finds in its error |
| `Semaphores.EndsExactlyOnce` | libs/_kernel/src/ipc.c:326-524 | over any run every wait begun has ended once, except one still going on |
| `Semaphores.FifoTurn` | libs/_kernel/src/ipc.c:433-481 | in a first-come list nobody overtakes and every release brings a waiter one place forward |
| `Semaphores.PrioOrder` | libs/_kernel/src/ipc.c:96-124 | a list by priority stays in order as long as no waiter's priority is changed |
| `Semaphores.Semaphore.constructor` | libs/_kernel/src/ipc.c:205-226 | rt_sem_init |
| `Semaphores.Semaphore.Take` | libs/_kernel/src/ipc.c:326-411 | the take up to the schedule: the new state and what the caller is told |
| `Semaphores.Semaphore.Release` | libs/_kernel/src/ipc.c:433-481 | the release, full at 65535 |
| `Semaphores.Semaphore.Reset` | libs/_kernel/src/ipc.c:492-524 | the reset, its value cut to 16 bits |
| `Mutexes.StepInv` | libs/_kernel/src/ipc.c:658-912 | value is 1 exactly if there is no owner exactly if hold is 0; waiters imply an owner, who is not one of them |
| `Mutexes.RunInv` | libs/_kernel/src/ipc.c:658-912 | in every reachable state |
| `Mutexes.TakeAnswer` | libs/_kernel/src/ipc.c:658-800 | success is told exactly if the caller owns the mutex once more, full exactly if it owns it 255 times, a timeout exactly if another owns it and it will not wait, nothing exactly if it is then on the list |
| `Mutexes.TakeRaises` | libs/_kernel/src/ipc.c:700-760 | in lists of either order a thread that waits raises a less urgent owner to its own priority, and no other priority changes |
| `Mutexes.ReleaseAnswer` | libs/_kernel/src/ipc.c:812-912 | refused exactly to others than the owner; the last release restores the priority noted and gives the mutex to the first waiter, or to nobody |
| `Mutexes.ExpireMeans` | libs/_kernel/src/thread.c:796-834 | the same for a mutex, whose owner keeps what it has inherited |
| `Mutexes.HoldCounts` | libs/_kernel/src/ipc.c:658-912 | hold is successful takes minus successful releases, over any run |
| `Mutexes.OwnerKeeps` | libs/_kernel/src/ipc.c:805-912 | a mutex changes hands only by its owner's last release, and then goes to the first waiter, who runs |
| `Mutexes.StepInherits` | libs/_kernel/src/ipc.c:658-912 | with a list by priority, one mutex per thread and no other changes of priority, the owner is at least as urgent as every waiter and all others have their own priorities |
| `Mutexes.RunInherits` | libs/_kernel/src/ipc.c:658-912 | in every reachable state |
| `Mutexes.ReleaseRestores` | libs/_kernel/src/ipc.c:843-854 | the last release gives the owner its own priority back |
| `Mutexes.HandOverExact` | libs/_kernel/src/ipc.c:856-884 | handing on does not hand on what was inherited: the new owner covers the other waiters exactly if it did while waiting |
| `Mutexes.FifoInverts` | libs/_kernel/src/ipc.c:856-884 | with a first-come list it need not |
| `Mutexes.Mutex.constructor` | libs/_kernel/src/ipc.c:538-558 | rt_mutex_init |
| `Mutexes.Mutex.Take` | libs/_kernel/src/ipc.c:658-795 | the take up to the schedule, with recursion and inheritance |
| `Mutexes.Mutex.Release` | libs/_kernel/src/ipc.c:805-912 | the release with its hand-over; refused to anyone but the owner |
| `Events.SatisfiedMeans` | libs/_kernel/src/ipc.c:1090-1110 | a receiver's condition bit by bit: all of its bits are in the set, or some are |
| `Events.ScanLeavesNobody` | libs/_kernel/src/ipc.c:1076-1140 | nobody is left on the list whose condition is met by what is left of the set, although clearing receivers shrink it under the scan |
| `Events.ScanFair` | libs/_kernel/src/ipc.c:1087-1109 | everybody woken gets all it asked for, or some of it, from what was there |
| `Events.TakenOnce` | libs/_kernel/src/ipc.c:1119-1125 | what a clearing receiver has taken goes to nobody behind it and is gone from the set |
| `Events.ScanBits` | libs/_kernel/src/ipc.c:1100-1130 | a bit is gone after the scan exactly if a clearing receiver has got it |
| `Events.ScanParts` | libs/_kernel/src/ipc.c:1076-1140 | everybody on the list is either woken or stays, and both parts keep the order of the list |
| `Events.StepInv` | libs/_kernel/src/ipc.c:1054-1316 | no waiter's condition is met by the set |
| `Events.RunInv` | libs/_kernel/src/ipc.c:1054-1316 | in every reachable state: no wake-up is lost |
| `Events.NobodyLeftBehind` | libs/_kernel/src/ipc.c:1054-1277 | in every reachable state no waiter that wants all of its bits has them all in the set, and none that wants some has any |
| `Events.SendMeans` | libs/_kernel/src/ipc.c:1054-1140 | after a send: which bits are in the set, who stays and who goes on, and that those find the bits they got |
| `Events.RecvAnswer` | libs/_kernel/src/ipc.c:1158-1277 | refused exactly if it asks for nothing, served exactly if its condition is met bit by bit, timed out at once exactly if not and it will not wait, on the list exactly otherwise |
| `Events.ResetMeans` | libs/_kernel/src/ipc.c:1288-1316 | a reset empties the set and wakes everybody with an error |
| `Events.ExpireMeans` | libs/_kernel/src/thread.c:796-834 | a thread whose time is up leaves the list with that code, alone |
| `Events.WaitingIsTransparent` | libs/_kernel/src/ipc.c:1054-1277 | a receiver that waits behind everybody on the list ends up, with set, list, threads and bits received, exactly as if it had come after the next send, whether that satisfies it or not |
| `Events.Event.Send` | libs/_kernel/src/ipc.c:1054-1143 | the send and its scan in place |
| `Events.Event.Recv` | libs/_kernel/src/ipc.c:1158-1277 | the receive up to the schedule |
| `Events.Event.Reset` | libs/_kernel/src/ipc.c:1288-1316 | the reset wakes everybody and empties the set |
| `Bitmaps.EntryLowest` | libs/_kernel/src/kservice.c:1267-1285 | __lowest_bit_bitmap gives the lowest set bit of every byte but zero |
| `Bitmaps.FfsLowest` | libs/_kernel/src/kservice.c:1297-1311 | __rt_ffs finds the lowest set bit of every word and answers 0 for 0 |
| `Bitmaps.SetRight` | libs/_kernel/src/scheduler.c:307-313 | setting a priority's bit, with one level or two, sets that bit only and keeps the group right |
| `Bitmaps.ClearRight` | libs/_kernel/src/scheduler.c:350-363 | clearing one clears that bit only, and the group's when its byte becomes zero |
| `Bitmaps.HighestRight` | libs/_kernel/src/scheduler.c:206-213 | the search gives the lowest number whose bit is set, in both variants |
| `Scheduler.Scheduler.constructor` | libs/_kernel/src/scheduler.c:123-150 | rt_system_scheduler_init |
| `Scheduler.Scheduler.Insert` | libs/_kernel/src/scheduler.c:280-317 | last on the list of its priority; a thread is on list p exactly if it is ready with priority p, and a bit set exactly if its list is not empty |
| `Scheduler.Scheduler.Remove` | libs/_kernel/src/scheduler.c:326-366 | off its list, and the bit off with the last |
| `Scheduler.Scheduler.Schedule` | libs/_kernel/src/scheduler.c:194-271 | unlocked and with some thread ready, the head of the most urgent non-empty list runs; locked, nothing changes |
| `Scheduler.Scheduler.Startup` | libs/_kernel/src/thread.c:266-298 | a new thread becomes ready, and runs if it is the most urgent |
| `Scheduler.Scheduler.ChangePriority` | libs/_kernel/src/thread.c:626-700 | a ready thread moves to the end of its new list; another only changes |
| `Scheduler.Scheduler.Suspend` | libs/_kernel/src/thread.c:712-745 | a ready thread leaves its list; for another an error and no change |
| `Scheduler.Scheduler.Resume` | libs/_kernel/src/thread.c:754-788 | a suspended thread goes last on its list; for another an error and no change |
| `Scheduler.Scheduler.Yield` | libs/_kernel/src/thread.c:455-489 | to the end of its list if it is not alone there, and a schedule |
| `Scheduler.Scheduler.TickIncrease` | libs/_kernel/src/clock.c:67-85 | a slice used up is renewed and the thread yields, so that the most urgent thread runs next |
| `Scheduler.Scheduler.OneTurn` | libs/_kernel/src/thread.c:455-489 | the most urgent thread yields and the next of its peers runs, its list being rotated by one |
| `Scheduler.Scheduler.TakeTurns` | libs/_kernel/src/thread.c:455-489 | n yields among the most urgent threads let the first n of their list run once each, in order; as many as there are of them restore the lists and who runs |
| `StableSort.SortIsDetermined` | sim/coremark/core_list_join.c:426-496 | a sorted list with every class in its order is unique |
| `StableSort.MergeSorted` | sim/coremark/core_list_join.c:459-484 | merging sorted runs gives a sorted run |
| `StableSort.MergeStable` | sim/coremark/core_list_join.c:466-476 | and keeps equally ranked nodes in order, those of the first run first |
| `StableSort.PassSorts` | sim/coremark/core_list_join.c:432-494 | a pass doubles the length of the sorted runs |
| `StableSort.PassStable` | sim/coremark/core_list_join.c:432-494 | and keeps every class in order |
| `ListSort.Cells.MergeRuns` | sim/coremark/core_list_join.c:459-484 | the inner loop, relinking nodes behind the tail without touching what is still to come |
| `ListSort.Cells.MergePass` | sim/coremark/core_list_join.c:437-490 | one pass in place; one merge or none means a single run |
| `ListSort.Cells.MergeSort` | sim/coremark/core_list_join.c:426-496 | for every non-empty list and every comparison that is a total preorder: it ends with the same nodes, sorted and stable |
| `ListSort.Cells.Reverse` | sim/coremark/core_list_join.c:395-404 | the nodes in reverse order |
| `ListSort.ReversedTwice` | sim/coremark/core_list_join.c:395-404 | reversing twice restores the list |
| `ListSort.Cells.Remove` | sim/coremark/core_list_join.c:316-327 | the node behind leaves the list and the infos are swapped |
| `ListSort.Cells.UndoRemove` | sim/coremark/core_list_join.c:345-355 | the links and infos after putting it back |
| `ListSort.RemoveUndone` | sim/coremark/core_list_join.c:316-355 | removing and undoing restores all links and infos |
| `Crc.BitStepIs` | sim/bin-creater/crc.h:10-22 | a bit step is a division step by x^16 + x^15 + x^2 + 1 on the word with its highest power first, and the CRC of no bytes is 0xFFFF |
| `Crc.BitStepInjective` | sim/bin-creater/crc.h:14-19 | one bit step loses nothing |
| `Crc.ByteStepKeeps` | sim/bin-creater/crc.h:12-20 | the update of a byte is injective in the state, in the byte and in two bytes in a row |
| `Crc.OneByteDetected` | sim/bin-creater/crc.h:10-22 | changing exactly one byte of a message of any length changes its CRC |
| `Crc.TwoBytesDetected` | sim/bin-creater/crc.h:10-22 | so do changes confined to two neighbouring bytes |
| `Crc.FrameIsZero` | sim/bin-creater/crc.h:10-22 | a message followed by its CRC, low byte first, has CRC zero |
| `Crc.Crc16Modbus` | sim/bin-creater/crc.h:10-22 | the loops compute that CRC |
| `Crc.Crcu8` | sim/coremark/core_util.c:142-165 | crcu8 is the same update of a byte |
| `Crc.Crcu16` | sim/coremark/core_util.c:166-170 | crcu16 updates by the low byte, then the high byte |
| `Crc.RunCrcTest` | sim/bin-creater/crc.h:25-52 | the built-in test answers 1: all its corruptions are detected and all repairs recognised |
| `Sieve.TestPrime` | sim/bin-creater/prime.h:7-12 | trial division up to the root decides primality for every number |
| `Sieve.StandsExactly` | sim/bin-creater/prime.h:20-27 | when its turn comes a number stands exactly if it is an odd prime or 4 |
| `Sieve.CountBySieve` | sim/bin-creater/prime.h:20-27 | the sieve counts the odd primes and 4 |
| `Sieve.CountsAgree` | sim/bin-creater/prime.h:14-29 | that count equals the number of primes exactly for table sizes below 2 and from 4 on |
| `Sieve.Validate` | sim/bin-creater/prime.h:14-29 | the function answers true for exactly those sizes |

## Left out

- Kconfig: constants other than n, m and y, lists and ranges of expressions, `expr_trans_compare`, `expr_contains_symbol`, the printing of expressions; symbol.c is not part of this model.
- Kconfig: the in-place modules cover trees without shared nodes, which is how the program builds them; the slots of one level in `KconfigSlots` are a sequence rather than pointers into the tree.
- MessageQueue.Queue.Reset: the waking of suspended senders is part of the run model, not of the class.
- Message queues: messages are given by their contents; the byte array behind a node, mailboxes and detaching a queue are not modelled.
- SmallMem.SmallHeap.Realloc: a moving realloc drops the heap lock between allocating, copying and freeing; here the call is one step, since no other caller may touch a block that is owned. Block magic, memory tracing and hooks are left out, and so is `rt_calloc`.
- MemHeap.Heap.Realloc: the bytes copied by a moving realloc are not modelled (they are for the other heap), nor is a request that wraps the growth test around for a block with a free one behind it, after which the pool is no longer one; `max_used_size` is stated for allocating and growing only.
- MemHeap: the magic numbers, the pool pointer in each block, the alignment of the pool's start and detaching.
- SlabZones.Slab.Malloc: pointers are pairs of zone and chunk number, so the look-up of a zone through the page usage table is not modelled; neither are `used_mem` and `rt_realloc` on zones. Chunks larger than a page are only page aligned, as in the source.
- TimerWheel.Timers.Start: delays of half the tick range or more are excluded by the source's assertion; a delay of zero, which it admits, is excluded too, since a periodic timer with it never leaves the check; soft timers, whose list and thread are separate, are left out. A timeout function is a sequence of starts, stops and control calls, and does not let the tick advance.
- TimerWheel.Timers.SetTime: the period set is one that can be started, as above; the source stores any.
- MemHeap.Heap.TryGrow: not called with a size that wraps the growth test around, see MemHeap.Heap.Realloc.
- Scheduler.Scheduler.Suspend: the stopping of the thread's own timer is part of the wait lists, not of the scheduler.
- Scheduler.Scheduler.Resume: the same.
- KernelLists: the waiting lists, ready lists and timer rows of the other modules are sequences; that links carry such a sequence is shown for the primitives.
- Semaphores, Mutexes, Events: each is modelled as one object among threads that may also sleep elsewhere; what a thread does after it has been resumed is to return its error. Deleting and detaching wake everybody as a reset does and are not repeated.
- Mutexes.StepInherits: with more than one mutex held by a thread, or with priorities changed by others, the inherited priority is not restored in order; the statement is for one mutex per thread and no other changes.
- Semaphores.PrioOrder: the kernel does not sort a wait list again when a waiter's priority is changed, so the order is claimed only while it is not.
- Events: a waiter with neither AND nor OR, which the source's assertion excludes.
- Scheduler: context switches, the idle thread's work, thread deletion, stack checks and the scheduler hook; exit from a critical section is a schedule with the lock count at zero.
- Bitmaps.EntryLowest: the table is given by the first entries of its sixteen rows and the fifteen others that all rows share, not as 256 numbers.
- ListSort.Cells.MergeSort: the comparison is a function of the two infos; `cmp_complex` also caches a result in them, which does not disturb its order once cached. Run lengths are unbounded integers.
- Crc: the golden values of CoreMark, which are single computations, and `crcu32`.
- Devices, SDL, emulation, differential testing, the menu programs, file formats and printf formatting are not part of this model.
