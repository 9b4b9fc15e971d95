# A verified model of the system-programming exercises

The repository holds C solutions to system-programming exercises. This project models
the ones that contain a data structure or a protocol, and proves what they promise:

- a free-list memory allocator over `sbrk` (`AllocatorSpec`, `AllocatorProofs`, `Allocator`);
- a binary search tree with a lock in every node: one thread on linked nodes
  (`BinaryTree`, and `WrittenDelete` for the relinking as it stands), and any number of
  threads running add, lookup and delete (`KeyTree`, `TreeThreads`, `TreeRuns`,
  `TreeHistory`, `TreeProgress`); `SearchTree` and `Sums` hold what both have in common;
- a file transfer between two processes through one shared buffer and two semaphores,
  in three versions (`Transfer`);
- a buffered line reader (`Readline`);
- pathname resolution with symbolic links (`Paths`, `Resolution`, `Standard`, `Realpath`,
  `PathCursor`);
- a process tree indexed by parent and printed depth first (`ProcessTree`);
- a file tree walk with a callback (`Nftw`);
- a forking echo server that counts its children (`EchoServer`);
- two processes taking turns with a signal (`SigExchange`);
- `execlp` on top of `execve` (`Execlp`).

Objects the programs update in place are classes whose methods are proved to act as a
function on values says; lemmas then prove the properties of that function. Programs
that run concurrently are systems of steps, and their properties are proved of every
state of every run. What the operating system decides (the answers of `sbrk` and
`sbrk(0)`, the sizes `read` delivers, what `lstat` finds, when a child exits or a
signal arrives, what `execve` answers) is an argument or an arbitrary choice.

## Where the code falls short of its purpose

Several programs do not do what their comments say. The model keeps the code as it is
where a condition a caller can check separates the good calls from the bad ones, and
proves that condition exact; beside it stands the repaired reading, proved without
condition.

- Allocator, lines 59-60, 68, 73-74 and 149-151: the merge test computes in units of
  24 bytes, a chunk may have no room for its header, and memory is given back without
  shrinking the block. `MallocSafe` and `FreeSafe` are the exact conditions. A block
  smaller than its two links breaks the list when it is freed, so the repaired reading
  hands out at least 16 bytes. The program's own `main` breaks its heap.
- Tree, line 75: `add` locks the parent where it means to unlock it. It finishes exactly
  if the root has its key or no child on its side; otherwise it hangs, and with it every
  call that still needs the root. Lines 267 and 301-305: a deletion crashes exactly if
  its node has no left subtree, loses the sibling's keys exactly if the node is a left
  child without right subtree, and leaves all links right only for a right child without
  one.
- Pathnames, lines 39-58 and 97: slashes at the end of a pathname or of a link's target
  are dropped, and the null pathname stands for the working directory. `Standard` says
  when this makes the answer differ from section 4.13 of IEEE Std 1003.1-2017.
- Pathnames, lines 115-117, 138, 145 and 150: the cursor into the result buffer goes
  astray on `..` that reaches the root, on a link to the root and on a link whose name is
  longer than one character; with the root as working directory it is off from the
  start. `PathCursor` says exactly when the string returned is right for all runs through
  links named by one character.
- Server, lines 121-132: changing `sa_mask` does not block the signal in `main`, so the
  increment at 126 can lose a decrement. The limit is still never exceeded, but each
  loss costs a place for good.
- File walk, lines 38-40, 67 and 168-172: the base index is that of the slash, a
  directory told last is told as `FTW_D`, and only a directory's nonzero answer stops
  the walk.

## Model

| member | source | states |
|---|---|---|
| AllocatorSpec.FirstFit | Section_7/mymalloc_myfree.c:50-55 | The search stops at the first free block that is large enough; every block before it is too small. |
| AllocatorSpec.Position | Section_7/mymalloc_myfree.c:114-119 | The place a freed block goes: all blocks before it start at or below it, the next one above. |
| AllocatorProofs.ChunkSuffices | Section_7/mymalloc_myfree.c:59-60 | A chunk is a multiple of 1024 and at most 1024 bytes more than it is meant to hold; without its header it holds the request exactly when `size % 1024 <= 1016`, with the header counted in always. |
| AllocatorProofs.MergeValid | Section_7/mymalloc_myfree.c:67-70 | A chunk that continues the last free block and is merged into it leaves the heap well-formed. |
| AllocatorProofs.MisMergeLosesBytes | Section_7/mymalloc_myfree.c:68-70 | A chunk merged into a block it does not continue always breaks the tiling: a byte held belongs to no block, or a free block starts where a live one does. |
| AllocatorProofs.TakeValid | Section_7/mymalloc_myfree.c:84-101 | When split and unlink of a free block keep the heap well-formed: blocks stay disjoint, coalesced and tiling the memory held. |
| AllocatorProofs.MallocValid | Section_7/mymalloc_myfree.c:45-104 | One `my_malloc` keeps the heap well-formed (address order, strict gaps between free blocks, disjointness, exact tiling, room for links) if and only if a condition on the arguments holds; in the repaired reading it always does. |
| AllocatorProofs.ReleasedValid | Section_7/mymalloc_myfree.c:113-145 | Ordered insertion with merging on both sides keeps the heap well-formed, as written, for every live block. |
| AllocatorProofs.ShrinkValid | Section_7/mymalloc_myfree.c:147-152 | Giving memory back keeps the heap well-formed exactly when nothing is given back, or the block shrinks with it. |
| AllocatorProofs.FreeValid | Section_7/mymalloc_myfree.c:111-153 | One `my_free` of a live block keeps the heap well-formed if and only if it gives no memory back; in the repaired reading always. |
| AllocatorProofs.FreeGivesBack | Section_7/mymalloc_myfree.c:147-152 | How much a free gives back: nothing unless the last free block ends at the break, and then every whole step of 1024 bytes that fits into it, or into what it has beside its links in the repaired reading; just these bytes at the top go, and as written the block keeps its size. |
| AllocatorProofs.MallocResult | Section_7/mymalloc_myfree.c:58-104 | The block handed out is new, at least as large as asked for and less than 24 bytes larger (than 16, for a smaller request in the repaired reading), and no other live block changes. |
| AllocatorProofs.FitKeepsOwned | Section_7/mymalloc_myfree.c:49-56 | A request served from the list obtains no memory. |
| AllocatorProofs.FreeUndoesMalloc | Section_7/mymalloc_myfree.c:84-145 | Freeing what a request served from the list returned restores the heap block for block: the split is undone and nothing else merges. |
| AllocatorProofs.AllFreeIsOneBlockPerRegion | Section_7/mymalloc_myfree.c:121-145 | With nothing live, each free block is a whole contiguous region of the memory held. |
| AllocatorProofs.SafeRunsValid | Section_7/mymalloc_myfree.c:45-153 | Any sequence of safe calls keeps the heap well-formed. |
| AllocatorProofs.RepairedRunsValid | Section_7/mymalloc_myfree.c:45-153 | In the repaired reading every sequence of calls from a fresh heap does. |
| AllocatorProofs.MainBreaksHeap | Section_7/mymalloc_myfree.c:155-167 | The program's own allocate and free, as written, ends with the break 1024 bytes above the start and one free block of 11256 bytes reaching past it. |
| AllocatorProofs.NoRoomForHeader | Section_7/mymalloc_myfree.c:59-60 | A first request of 1020 bytes breaks the heap as written. |
| AllocatorProofs.MergesWithWrongBlock | Section_7/mymalloc_myfree.c:68-70 | A run of four calls, each safe, reaches a well-formed heap whose last free block ends below the break; growing it merges the chunk into that block all the same and breaks the heap. |
| Allocator.FreeListAllocator.constructor | Section_7/mymalloc_myfree.c:32-37 | An empty circular list holding no memory. |
| Allocator.FreeListAllocator.Search | Section_7/mymalloc_myfree.c:49-55 | The walk over the `next` links finds the first fit, or ends at the list head. |
| Allocator.FreeListAllocator.Append | Section_7/mymalloc_myfree.c:73-78 | The four link writes put the chunk last in a list that stays circular in both directions. |
| Allocator.FreeListAllocator.Extend | Section_7/mymalloc_myfree.c:58-82 | The heap after growing, merged or not. |
| Allocator.FreeListAllocator.Split | Section_7/mymalloc_myfree.c:85-97 | The tail follows the block it was cut from; the list stays circular and in order. |
| Allocator.FreeListAllocator.Unlink | Section_7/mymalloc_myfree.c:99-101 | The list is as before without that block. |
| Allocator.FreeListAllocator.MyMalloc | Section_7/mymalloc_myfree.c:45-104 | The pointer program on headers and links does to the heap what the specification says, for every list and every answer of `sbrk`, and keeps the invariant exactly under the safety condition. |
| Allocator.FreeListAllocator.Locate | Section_7/mymalloc_myfree.c:113-122 | The neighbours between which a freed block belongs. |
| Allocator.FreeListAllocator.Merge | Section_7/mymalloc_myfree.c:121-145 | In all four cases of touching neighbours the list stays circular and stands for the heap with the block inserted and merged. |
| Allocator.FreeListAllocator.Trim | Section_7/mymalloc_myfree.c:147-152 | Exactly the whole steps that fit into the last block, if it ends at the break, are given back from the top. |
| Allocator.FreeListAllocator.MyFree | Section_7/mymalloc_myfree.c:111-153 | The pointer program does to the heap what the specification says, giving back exactly those steps, and keeps the invariant exactly under its safety condition. |
| BinaryTree.Initialize | Section_30/binary_tree.c:34-49 | A tree of one node with key 100 and value 0. |
| BinaryTree.PutContents | Section_30/binary_tree.c:84-143 | On search trees, adding updates the map the tree stands for at that key and nowhere else. |
| BinaryTree.PutKeys | Section_30/binary_tree.c:84-143 | Adding keeps the search order and adds just that key. |
| BinaryTree.AddLinks | Section_30/binary_tree.c:59-148 | The recursion on the nodes leaves child and parent links of the tree with the key put in. |
| BinaryTree.Add | Section_30/binary_tree.c:59-148 | Afterwards the map is updated at the key, and order, links and the node above are intact. |
| BinaryTree.Lookup | Section_30/binary_tree.c:362-419 | 0 exactly when the key is present, whatever the value asked for. |
| BinaryTree.RemovedShape | Section_30/binary_tree.c:219-305 | Exactly the node that holds the key goes; the others stay distinct and in order. |
| BinaryTree.RemovedContents | Section_30/binary_tree.c:219-305 | Exactly the key's entry disappears from the map. |
| BinaryTree.Walk | Section_30/binary_tree.c:222-270 | The walk down the left subtree never goes left (the branch of lines 225-246 is dead) and ends at its rightmost node. |
| BinaryTree.GraftRight | Section_30/binary_tree.c:221-270 | The intended relinking hangs the right subtree below that node, parent links included. |
| BinaryTree.Unhook | Section_30/binary_tree.c:219-305 | In all cases of missing subtrees the parent ends up with the grafted subtree in the node's place and its other child untouched. |
| BinaryTree.Delete | Section_30/binary_tree.c:157-353 | Deleting a key other than the root's removes exactly that key and keeps order, links and every other value. |
| WrittenDelete.UnhookAsWritten | Section_30/binary_tree.c:219-305 | Line by line: a null pointer is followed exactly without a left subtree; otherwise all links come out right exactly for a right child with no right subtree. |
| WrittenDelete.DeleteAsWritten | Section_30/binary_tree.c:157-353 | The whole call as written crashes exactly if the key's node has no left subtree, and otherwise leaves known child pointers. |
| WrittenDelete.WrittenFinds | Section_30/binary_tree.c:383-415 | Along these a lookup finds what it found before, without the key and without the keys of the sibling subtree of a left child that has no right subtree. |
| WrittenDelete.WrittenMap | Section_30/binary_tree.c:301-305 | The map loses just the key if and only if no such sibling keys go with it. |
| KeyTree.KeyBelowPath | Section_30/binary_tree.c:84-143 | A key of the tree lies in the subtree of every node its search passes. |
| KeyTree.NotFound | Section_30/binary_tree.c:383-408 | A search that ends at a node with another key and no child on its side may answer that the key is absent from the whole tree. |
| KeyTree.ReplaceContents | Section_30/binary_tree.c:84-143 | What a thread does to the key in the subtree it has locked is what happens to the whole map. |
| SearchTree.GraftDrops | Section_30/binary_tree.c:219-246 | Grafting a node's subtrees together drops that node's key and nothing else from the map, and keeps the order. |
| KeyTree.GraftRelied | Section_30/binary_tree.c:219-305 | A deletion moves no search that stands at a node outside those it has locked. |
| TreeThreads.PcStable | Section_30/binary_tree.c:64-147 | What a thread knows about its place survives the steps of the others as long as its own locked nodes are left alone. |
| TreeThreads.OneLockStep | Section_30/binary_tree.c:64-147 | A step locks the one node its thread waits for, which was free, or unlocks at most one, which was its own; no other lock changes hands. |
| TreeThreads.SpineEnd | Section_30/binary_tree.c:222-268 | The end of a walk that others may overlap in time is the rightmost node of the left subtree. |
| TreeThreads.SpliceEffect | Section_30/binary_tree.c:219-305 | A concurrent deletion removes exactly its key, keeps the order, and every search elsewhere still finds its way. |
| TreeThreads.AddEffect | Section_30/binary_tree.c:84-143 | So does a concurrent add, for the key it adds. |
| TreeThreads.StepInv | Section_30/binary_tree.c:59-419 | Every step of every thread, in any interleaving of add, lookup and delete with the intended locking, keeps order, lock ownership and every thread's place. |
| TreeRuns.RunInv | Section_30/binary_tree.c:59-419 | So every state of every run has them. |
| TreeRuns.AlwaysOrdered | Section_30/binary_tree.c:59-419 | At every moment of every run the tree is a search tree and no lock has two holders. |
| TreeRuns.AtMostTwoLocks | Section_30/binary_tree.c:64-147 | In every state of every run, a thread that is not deleting holds at most two locks, and two only of a parent and its child. |
| TreeRuns.StepEffect | Section_30/binary_tree.c:84-143 | Each add and each delete acts on the map at one step, and no other step changes it. |
| TreeRuns.AnswerExact | Section_30/binary_tree.c:383-415 | At the step that settles it, a lookup answers 0 exactly if the key is there, and a deletion takes a node out exactly if the key is there. |
| TreeRuns.KeyStays | Section_30/binary_tree.c:59-419 | A key stays in the tree until a deletion of that key acts. |
| TreeRuns.LookupAfterAdd | Section_30/binary_tree.c:383-415 | A lookup that settles after an add of its key acted never answers -1, unless a deletion of the key acted between. |
| TreeHistory.StepExplained | Section_30/binary_tree.c:59-419 | The step that settles a call does to the map what a map used by one thread would do, with the same answer; no other step changes the map. |
| TreeHistory.OwnStep | Section_30/binary_tree.c:59-419 | Each call settles exactly once between its start and its return, and returns what it settled. |
| TreeHistory.LogExplains | Section_30/binary_tree.c:59-419 | All answers of a run are those of one map run through in the order of settling, and the tree stands for what that map has become. |
| TreeHistory.Linearizable | Section_30/binary_tree.c:59-419 | At every moment, each thread's answers stand in that order as it got them, its calls as it made them, and what stands there stays. |
| TreeHistory.RealTime | Section_30/binary_tree.c:59-419 | A call answered before another is made comes before it in that order. |
| TreeRuns.HolderWaitsDeeper | Section_30/binary_tree.c:83-140 | Whoever holds the lock another waits for waits, if at all, for a node with a smaller subtree. |
| TreeRuns.NoDeadlock | Section_30/binary_tree.c:59-419 | In every reachable state, if some thread is in a call then some thread in a call can move. |
| TreeProgress.SettlesThere | Section_30/binary_tree.c:84-143 | At the node with its key, or with no child on its side, an add or a lookup settles at once, and so does a deletion with nothing to delete. |
| TreeProgress.WorkFalls | Section_30/binary_tree.c:59-419 | A step of a call that settles nothing leaves the tree as it is and has strictly less to do, by an explicit measure. |
| TreeProgress.StepLowers | Section_30/binary_tree.c:59-419 | Every step but a new call lowers a measure of the whole state: the calls not settled, and then the work they have left. |
| TreeProgress.CallRaises | Section_30/binary_tree.c:59-419 | A new call adds one to the calls not settled and leaves the tree alone. |
| TreeProgress.StepChanges | Section_30/binary_tree.c:59-419 | No step leaves the state as it was. |
| TreeProgress.NoEndlessRun | Section_30/binary_tree.c:59-419 | With finitely many calls made no run goes on for ever. |
| TreeProgress.StuckIsIdle | Section_30/binary_tree.c:59-419 | A run that cannot go on without a new call has answered all calls. |
| TreeProgress.CanComplete | Section_30/binary_tree.c:59-419 | From every state of every run, all calls under way can be answered without a new one. |
| TreeProgress.AnyCall | Section_30/binary_tree.c:59-419 | An idle thread may make any call but the deletion of the root's key. |
| TreeRuns.AddStuck | Section_30/binary_tree.c:73-81 | As written, an add that has locked a child stays at the same point for ever. |
| TreeRuns.AddsOnlyAtRoot | Section_30/binary_tree.c:73-81 | As written, an add is only ever at the root. |
| TreeRuns.AddAsWritten | Section_30/binary_tree.c:73-147 | There it finishes at once if the root has its key or no child on its side, and otherwise is still on its way to the child in every later state. |
| TreeRuns.NobodyEnters | Section_30/binary_tree.c:64-81 | From then on the root is locked by it, and a call that waits for the root never gets in. |
| TreeRuns.StuckRun | Section_30/binary_tree.c:59-148 | Any two adds of keys below the root's, one after the other, get a thread there. |
| Transfer.VersionsOrderly | Section_53/svshm_xfr_read.c:75-94 | All three versions meet what the theorems ask of the calls after the loops. |
| Transfer.WriterKeepsInv | Section_48/svshm_xfr_write.c:60-112 | Every writer step keeps the token count, the conservation of bytes and the relative positions. |
| Transfer.ReaderKeepsInv | Section_48/svshm_xfr_read.c:46-87 | Every reader step does. |
| Transfer.RunKeepsInv | Section_54/svshm_xfr_write.c:69-121 | So every state of every interleaving of any orderly version does. |
| Transfer.MutualExclusion | Section_48/svshm_xfr_write.c:62-84 | The two semaphores and the processes inside the buffer section always add up to one. |
| Transfer.BlockStable | Section_48/svshm_xfr_read.c:48-71 | The block does not change while the reader works on it. |
| Transfer.OutputIsPrefix | Section_48/svshm_xfr_read.c:57-62 | The output is always a prefix of what the writer has read. |
| Transfer.OrderlyTeardown | Section_53/svshm_xfr_write.c:80-106 | Semaphores and memory are removed only after the reader has detached and done its last semaphore operation. |
| Transfer.FinishedIsComplete | Section_48/svshm_xfr_read.c:89-90 | When both programs have finished, output equals input and both report the same bytes and transfers. |
| Transfer.ReportsAreRight | Section_48/svshm_xfr_write.c:60-114 | These are the bytes of the input and the number of blocks the writer has read in that run, none for empty input, each of between one and 1024 bytes. |
| Transfer.NothingLeft | Section_53/svshm_xfr_write.c:86-106 | When any of the three versions has finished, neither semaphores nor memory are left. |
| Transfer.NoDeadlock | Section_54/svshm_xfr_read.c:52-92 | Short of the end some program can always take a step. |
| Transfer.StuckRunsAreComplete | Section_48/svshm_xfr_write.c:86-114 | A run that cannot go on has moved the whole input, however `read` cut it up, with both reports right. |
| Transfer.StepDecreases | Section_48/svshm_xfr_write.c:60-112 | Every step lowers an explicit measure. |
| Transfer.RunsAreBounded | Section_53/svshm_xfr_write.c:55-106 | No run is longer than a bound given by the input alone. |
| Transfer.CompleteRun | Section_54/svshm_xfr_write.c:69-121 | Each version has a complete run on every input, and every run can be completed. |
| Readline.LinesSplit | Section_59/readline.c:28-35 | Splitting a stream into lines loses nothing, and each line but the last ends in its only newline. |
| Readline.LinesUnique | Section_59/readline.c:28-35 | There is only one such splitting. |
| Readline.Descriptor.Read | Section_59/readline.c:50 | What `read` may do: fail, or deliver between one byte and a buffer full of what is left, and nothing exactly at the end. |
| Readline.LineReader.constructor | Section_59/readline.c:21-26 | Initially exactly the stream is pending. |
| Readline.LineReader.NextByte | Section_59/readline.c:49-60 | The next byte is the first one pending, whether buffered or newly read; there is none exactly if a read failed or the stream has ended. |
| Readline.LineReader.Consume | Section_59/readline.c:48-68 | Buffered bytes and unread stream together are always the unconsumed suffix. |
| Readline.LineReader.ReadLine | Section_59/readline.c:36-71 | Each call consumes exactly one line, or the last partial one, whatever the sizes `read` delivers; it delivers the bytes that fit and touches nothing behind them. It answers -1 exactly if a read it made failed, after which it makes no other, and then loses bytes of one line only. |
| Readline.ReadToEnd | Section_59/readline.c:36-71 | Repeated calls return every line, cut to the buffer, and 0 only at the end; they fail exactly at the first failing read. |
| Paths.SplitAtSlash | Section_18/my_realpath.c:39-57 | What stands before and after a slash is split independently. |
| Paths.SplitRender | Section_18/my_realpath.c:25-62 | Splitting a path joined with slashes gives its components back. |
| Paths.NoComponents | Section_18/my_realpath.c:47-60 | A pathname has no components exactly when it is all slashes. |
| Paths.GetPartPath | Section_18/my_realpath.c:25-62 | The character loop produces that splitting, and nothing for a null pointer. |
| Resolution.DeeperIsSame | Section_18/my_realpath.c:109-164 | The limit on link depth in the reference only decides whether there is a result, not which. |
| Resolution.ResolveConcat | Section_18/my_realpath.c:141-149 | Resolving components in two parts is resolving them at once. |
| Resolution.RoundKeepsMeaning | Section_18/my_realpath.c:109-164 | One round of the worklist loop, splicing included, keeps what the recursive reference says of the state. |
| Resolution.RoundBack | Section_18/my_realpath.c:109-164 | And back: a result after the round is the result before it. |
| Resolution.RoundCosts | Section_18/my_realpath.c:109-164 | Each round uses up one unit of an explicit measure. |
| Resolution.LoopSound | Section_18/my_realpath.c:109-164 | Whatever the loop ends with is what the reference says. |
| Resolution.LoopComplete | Section_18/my_realpath.c:109-164 | The loop reaches whatever the reference gives. |
| Resolution.LoopIsResolution | Section_18/my_realpath.c:106-164 | The loop ends with a result if and only if resolution of the components, defined by recursion with links followed in place, has that result. |
| Standard.FollowIs | Section_18/my_realpath.c:106-164 | Resolution with the rules of section 4.13 of IEEE Std 1003.1-2017 on slashes after a name gives the same outcome but where slashes follow a file that is no directory, in the pathname or in the target of a link that leads there last; then it is an error. |
| Standard.LoopIsStandard | Section_18/my_realpath.c:76-164 | Whatever the loop ends with is the answer of section 4.13, errors included, if and only if the pathname is not null and does not put a slash after such a file. |
| Standard.NullPathname | Section_18/my_realpath.c:97-103 | The null pathname yields the working directory, where section 4.13 has it fail. |
| Standard.SlashAfterOneFile | Section_18/my_realpath.c:39-58 | `/f/` for a file f yields the file, where section 4.13 has it fail. |
| Realpath.WellFoundedEnds | Section_18/my_realpath.c:109-164 | With links ranked so that a target follows only lower ones every resolution has a result. |
| Realpath.EndsExactlyIfWellFounded | Section_18/my_realpath.c:109-164 | The loop, which counts no links, ends on every pathname from every directory if and only if the links can be so ranked. |
| Realpath.CycleNeverEnds | Section_18/my_realpath.c:127-152 | On a link to itself, in any directory, the loop ends with no result. |
| Realpath.ResultCanonical | Section_18/my_realpath.c:112-165 | A result has no empty, `.` or `..` component, its proper prefixes are directories and it is not a link. |
| Realpath.CanonicalIsFixed | Section_18/my_realpath.c:64-166 | Written out and resolved again such a path gives itself, without following a link. |
| Realpath.Worklist | Section_18/my_realpath.c:106-165 | The loop returns what resolution of the components gives. |
| Realpath.MyRealpath | Section_18/my_realpath.c:64-166 | Null pointers and long pathnames are errors; otherwise the result is that of the components, is the answer of section 4.13 exactly unless the pathname is null or puts a slash after a file, and is canonical on success. |
| PathCursor.CursorExact | Section_18/my_realpath.c:113-152 | One round keeps the cursor at the end of the path exactly when `..` does not reach the root and a link is named by one character and does not point to the root. |
| PathCursor.RunStandsFor | Section_18/my_realpath.c:109-164 | A run of such rounds leaves it there. |
| PathCursor.FrontExact | Section_18/my_realpath.c:113-152 | With links named by one character, a round changes the string only at its front: it begins as the path does, with nothing, with a slash too many, or is empty for good. |
| PathCursor.RunExact | Section_18/my_realpath.c:109-164 | A run through such links leaves the path's string in the buffer if and only if the front ends clean, or has a slash too many and the path is the root. |
| PathCursor.LinkFreeExact | Section_18/my_realpath.c:109-164 | Without links, from the root, that is if and only if no `..` reaches the root or the path ends there. |
| PathCursor.BufferExact | Section_18/my_realpath.c:93-165 | For every pathname, from every working directory, that the loop resolves through such links: the buffer holds the result if and only if its front ends right. |
| PathCursor.MovesArrive | Section_18/my_realpath.c:109-164 | The moves of the rounds of a whole run lead to the loop's result. |
| PathCursor.LooksUp | Section_18/my_realpath.c:119-123 | Whatever the front, a round that names an entry looks up that entry. |
| PathCursor.LongLinkLooksElsewhere | Section_18/my_realpath.c:148-152 | After a relative link with a longer name the next name is looked up in the wrong place. |
| PathCursor.MoveOfRound | Section_18/my_realpath.c:109-164 | The path the cursor should follow is the one of the worklist's rounds. |
| PathCursor.DoubledSlash | Section_18/my_realpath.c:113-119 | `/a/../b` comes out as `//b`. |
| PathCursor.RelativeToRoot | Section_18/my_realpath.c:97-103 | So does `b` with the root as working directory. |
| PathCursor.LinkLeavesBuffer | Section_18/my_realpath.c:148-152 | A relative link at the root with a name of two characters or more sends the pointer in front of the buffer. |
| ProcessTree.ChildIs | Section_12/my_pstree.c:90-107 | Every child listed for a parent was inserted with that parent. |
| ProcessTree.ChildrenComplete | Section_12/my_pstree.c:90-107 | Every process inserted is listed under its own parent. |
| ProcessTree.ChildrenDistinct | Section_12/my_pstree.c:90-107 | And only once. |
| ProcessTree.SiblingsReversed | Section_12/my_pstree.c:104-107 | Siblings stand in reverse order of insertion. |
| ProcessTree.InsertedRepresents | Section_12/my_pstree.c:90-107 | An insertion keeps one head per parent, each with exactly that parent's children. |
| ProcessTree.PidIndex.Insert | Section_12/my_pstree.c:83-108 | The index now stands for the processes inserted so far and this one. |
| ProcessTree.PidIndex.PrintDfs | Section_12/my_pstree.c:115-142 | On an acyclic relation the recursion over the index ends and prints the depth-first walk. |
| ProcessTree.PidIndex.PrintTree | Section_12/my_pstree.c:147-155 | The tree is printed from parent 0. |
| ProcessTree.PrintsDescendants | Section_12/my_pstree.c:115-142 | The walk prints a process if and only if its ancestor chain reaches the parent walked from. |
| ProcessTree.ChainUnique | Section_12/my_pstree.c:115-142 | There is one line of descent to each process. |
| ProcessTree.WalkNoRepeats | Section_12/my_pstree.c:115-142 | No process is printed twice. |
| ProcessTree.WalkNewlines | Section_12/my_pstree.c:120-132 | If the parent has children, as many newlines are printed as leaves. |
| ProcessTree.SubtreeContiguous | Section_12/my_pstree.c:126-132 | The walk below every process printed follows its name without a gap. |
| Nftw.Base | Section_18/my_nftw.c:38-40 | The index is that of the last slash, or 0. |
| Nftw.BaseRight | Section_18/my_nftw.c:38-40 | The index is where the name starts if and only if the path has no slash, and else one short of it. |
| Nftw.BaseAtSlash | Section_18/my_nftw.c:38-40 | For an entry it is the slash before the name. |
| Nftw.PlayConcat | Section_18/my_nftw.c:134-137 | A walk in two stretches goes on to the second exactly when the first returned 0. |
| Nftw.StopsAtFirst | Section_18/my_nftw.c:70-74 | The callback is told a prefix of the full listing, up to the first directory it answers nonzero to, and that answer is returned; answers about other files are not heard. |
| Nftw.Walker.Visit | Section_18/my_nftw.c:24-176 | The recursion with its static depth and device tells exactly that prefix of the listing, for every callback, and has the depth back on every return. |
| Nftw.ListedIsReached | Section_18/my_nftw.c:43-140 | The listing holds exactly the files reachable by names other than `.` and `..` through what `stat`, or `lstat` with `FTW_PHYS`, shows as directories, on the device walked with `FTW_MOUNT`; each is told with its path, its depth as level and its kind: directory, file, not shown, link that leads to something, link that leads to nothing. |
| Nftw.ToldOnce | Section_18/my_nftw.c:92-125 | No path is told twice. |
| Nftw.ParentsFirst | Section_18/my_nftw.c:69-75 | Without `FTW_DEPTH` every call but the first comes after its directory's, with only calls for what is below that directory between. |
| Nftw.PostOrderMirrorsPreOrder | Section_18/my_nftw.c:141-147 | With `FTW_DEPTH` the listing is the other one, of the tree with every directory reversed, read backwards. |
| EchoServer.StepKeepsInv | Section_60/is_echo_sv.c:95-136 | Every step of main loop, child and handler keeps count, owed children and losses equal modulo 2^32. |
| EchoServer.ReachableInv | Section_60/is_echo_sv.c:95-136 | So does every run, in any interleaving. |
| EchoServer.NeverTooMany | Section_60/is_echo_sv.c:102-105 | Unreaped children and children lost together never exceed two, however the increment is done. |
| EchoServer.CountModuloWord | Section_60/is_echo_sv.c:40-43 | Outside the increment the count is that of unreaped and lost children, less a fork not yet counted, modulo 2^32. |
| EchoServer.CountAtCheck | Section_60/is_echo_sv.c:102 | At the limit check it is exactly the unreaped children if and only if none was lost. |
| EchoServer.MaskedIsExact | Section_60/is_echo_sv.c:120-132 | With the signal blocked during the increment, as the comment intends, none is ever lost. |
| EchoServer.NoZombieLeft | Section_60/is_echo_sv.c:35-45 | Although signals merge, no exited child stays unreaped once no signal is pending and no handler at work. |
| EchoServer.CheckDecides | Section_60/is_echo_sv.c:102-108 | A child may be forked exactly if fewer than two are unreaped or lost; otherwise the connection is closed. |
| EchoServer.RoundEnds | Section_60/is_echo_sv.c:95-136 | Every step of the main loop brings it closer to accepting again, and every step of the handler brings it closer to its return. |
| EchoServer.RoundGoesOn | Section_60/is_echo_sv.c:95-136 | Until both wait there is such a step. |
| EchoServer.SignalArrives | Section_60/is_echo_sv.c:120-132 | A pending signal is delivered as soon as no handler runs and, in the masked reading only, no increment is under way. |
| EchoServer.DeafForEver | Section_60/is_echo_sv.c:102-105 | As written, after two losses nothing runs and no child is ever forked again. |
| EchoServer.PlainGoesDeaf | Section_60/is_echo_sv.c:120-132 | A concrete run gets there with two connections. |
| EchoServer.Server.GrimReaper | Section_60/is_echo_sv.c:35-45 | The handler's loop is a run of the handler's steps, whatever exits meanwhile; it leaves no zombie and keeps the distance between count and children. |
| SigExchange.StepKeepsInv | Section_22/sig_speed_sigsuspend.c:68-97 | Every step of either process keeps the rounds and the token in step. |
| SigExchange.OneTokenInFlight | Section_22/sig_speed_sigsuspend.c:68-97 | Until the exchange ends exactly one token is in flight, then none, for every `numSigs`. |
| SigExchange.NothingMerged | Section_22/sig_speed_sigsuspend.c:70-95 | No signal is sent to a process that has it pending. |
| SigExchange.PartnerAlive | Section_22/sig_speed_sigsuspend.c:70-95 | Each process is still there when it is signalled. |
| SigExchange.InStep | Section_22/sig_speed_sigsuspend.c:68-97 | The processes stay within one round of each other. |
| SigExchange.NoDeadlock | Section_22/sig_speed_sigsuspend.c:68-97 | Some process can move until both have finished. |
| SigExchange.StepsCounted | Section_22/sig_speed_sigsuspend.c:68-97 | Each step brings the end one closer, from a total fixed by `numSigs`. |
| SigExchange.StuckRunsAreComplete | Section_22/sig_speed_sigsuspend.c:68-97 | A run that cannot go on has both sides finished with all rounds done and no signal left over, after exactly 6 * numSigs + 2 steps (2 if `numSigs` is negative). |
| SigExchange.CompleteRun | Section_22/sig_speed_sigsuspend.c:68-97 | There is a complete run for every `numSigs`, and every run can be completed. |
| Execlp.BuildArgv | Section_27/my_execlp.c:70-97 | The array grows in time for every write and ends up with each argument in its slot and the null pointer behind the last; it fails exactly when the array is not to be had. |
| Execlp.PrefixesJoin | Section_27/my_execlp.c:131-153 | The prefixes joined with colons are PATH. |
| Execlp.PrefixesColonFree | Section_27/my_execlp.c:136-138 | No prefix holds a colon. |
| Execlp.PrefixesUnique | Section_27/my_execlp.c:131-153 | They are the only such way to cut PATH. |
| Execlp.NamesAre | Section_27/my_execlp.c:114-148 | However PATH is cut at its colons, the names are its parts in order, each with a slash and the filename, the working directory for an empty part or PATH; a filename with a slash stands alone. |
| Execlp.TriedInOrder | Section_27/my_execlp.c:134-176 | Names are tried in order up to the first that starts; if none does the error is `EACCES` if any gave it, else the last one's. |
| Execlp.BuildName | Section_27/my_execlp.c:140-148 | An empty prefix stands for the working directory, and name and terminator fill the buffer exactly. |
| Execlp.Search | Section_27/my_execlp.c:112-178 | The two moving pointers try exactly those names with those results, a name with a slash alone. |

## Left out

- Allocator: the answers of `sbrk` never lie below the last known break, all memory lies
  between 4096 and 2^63, and requests are small enough for the chunk to fit `intptr_t`;
  the static list head is a separate node below the heap.
- Allocator: what clients write into the header they are handed (line 103 returns the
  header's address), double frees and frees of other addresses.
- Tree: results of the mutex calls, `malloc` failing, memory of deleted nodes; the key
  type is unbounded because keys are only compared.
- Tree, as written: in the concurrent model only line 75 is taken as it stands, for `add`;
  `lookup` unlocking its own node instead of its parent's (375), `delete` locking the
  grandparent (172), exits that keep locks (195, 349, 395, 408) and the double unlock at
  273 and 316 are modelled as the comments there mean them.
- TreeThreads.SpliceEffect: the relinking of a deletion is one step, since every node it
  touches is locked; deleting the root is excluded, as the code has no parent to relink.
- Transfer: failing semaphore calls, partial writes of the reader, the overflow of the
  two `int` counters, and the creation of the objects before the loops.
- Readline: the values of `errno`.
- Standard.LoopIsStandard: where section 4.13 demands ELOOP, on a cycle of links, there is
  no answer on either side; two leading slashes count as one; the limits on the length of
  a pathname with the contents of links are not modelled.
- PathCursor.RunExact: runs through links with longer names, of which only single rounds
  are exact: such a run may come right again by a `..`, or look up other files.
- Realpath.MyRealpath: the file system does not change meanwhile; component names longer
  than `NAME_MAX`, results longer than `PATH_MAX`, permissions, and failing `getcwd`,
  `malloc` or `readlink` are not modelled; the resolved path is a sequence of names, and
  the character cursor is modelled apart, in `PathCursor`.
- Process tree: reading `/proc`, the tab drawing between siblings, and the freeing at
  lines 157-168, which reaches only part of the list.
- ProcessTree.PrintsDescendants: relies on distinct pids and an acyclic parent relation.
- File walk: `FTW_CHDIR`, directories that cannot be opened or read, cycles of links, the
  contents of `struct stat`, and a callback that itself starts a walk.
- Server: failing `accept` and `sigaction`, and the child's own loop.
- Signals: `EINTR` returns, which the code would count as rounds, and failing `kill`.
- `my_execlp`: running a script through the shell, whose argument copy overruns its
  array; an `ENOEXEC` answer counts as a failed attempt. Copying the environment.
- The remaining exercises, which are system-call plumbing or one-step facts.
