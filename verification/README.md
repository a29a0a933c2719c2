# LinuxSampler runtime: a verified model

LinuxSampler's `src/common` layer is a hand-written real-time runtime: protocols that hand data to
audio threads without blocking them, an intrusive balanced tree, an allocator without allocation, a
ring buffer. This project models that layer, the directory tree of the instruments database and the
option parser, and proves what they promise, for all inputs, all runs and any number of threads.

| modules | component |
|---|---|
| `SyncConfig`, `DoubleBuffer` | the wait-free reader protocol over two copies of the data, the double buffer and the condition server on top of it |
| `AvlShape`, `AvlMemory`, `AvlContents`, `RTAVLTree` | the non-recursive AVL multimap with parent links, incremental balance factors and twin rings |
| `PermuteArgs`, `GetoptSpec`, `GetoptLaws`, `Getopt` | the in-place block exchange by gcd cycles, what a run over a vector means, what that is for each form of an option, and the multi-call option parser that implements it |
| `RingBuffer`, `WrapBuffer` | the single-producer single-consumer ring, and the refill protocol with a mirror behind the end |
| `PoolLists`, `PoolIds`, `Pool` | the pool of list elements, iterators with fallback, element IDs |
| `DbPaths`, `DirTree`, `InstrumentsDb`, `DbEscapes` | the directory tree in the two tables of the instruments database, and the escaping of texts |
| `WorkerThread` | the job queue with its sleeping worker |
| `Path` | paths in POSIX and database notation |
| `ResourceManager` | life-times of shared resources |
| `Arithmetic`, `Strings`, `Sets`, `Wrappers` | division and bits, searching, enumeration and options, used above |

How the model is built:

- **Protocols are step machines.** A step is one atomic load, store or fence (`SyncConfig`), one copied
  element (`RingBuffer`), or one critical section (`WorkerThread`). In `SyncConfig` every thread has a
  store buffer that drains at any time, so the sequentially consistent runs are among the runs
  considered, and the two fences are shown to be necessary as well as sufficient. In `RingBuffer` each
  side may see old values of the other's pointer.
- **The tree is a memory of links** that represents an inductive tree; a zipper describes the place at
  which a loop works. `Rep` and `ContextRep` tie links to shape, `RingsOk` ties twin links to the sorted
  list of rings, and `Valid()` holds all of it: search order, exact balance factors within -1..1, agreeing
  parent and child links, well-formed rings, size.
- **Lists of the pool are a memory of links**, too. `Valid()` says that every element is at exactly one
  place of one list.
- **Tables are maps.** Each SQL statement has its set-level meaning. A path is a string, and the loops that
  scan it are modelled as loops.

- **Reference functions are tied to the words, counts and texts themselves** by laws that do not go through them:
  what each form of an option reports (`GetoptLaws`), how much a call of `read()` or `write()` transfers
  (`RingBuffer.WriteCall`), which counts a refill may have (`WrapBuffer.RefillPublishes`), which jobs are run
  (`WorkerThread.EveryJobIsRun`), who is told what (`ResourceManager.Manager.Update`).

Where a promise does not hold for all inputs, the exact condition is proved:

- A complete run of `getopt_long()` leaves the vector in order exactly if it meets none of three kinds of words
  (`GetoptSpec.EndsNormallyIff`, `Getopt.Parser.Run`). Without long options, and if `-` is no option letter, a
  word of letters without arguments that ends in `-` makes it return -1 in the middle of the word
  (`Getopt.StuckExample`). A long option without flag and with the value -1 makes it return that value if it is
  named behind `-W` (`Getopt.ReturnExample`), and go on with the letters of its name if it is named behind `--`.
- The all-ones element ID is never accepted (`PoolIds.FromIdOfGetId`, `PoolIds.AllOnesExample`); with the counter
  width that the int-width mask leaves it does not occur (`PoolIds.NarrowCounterNeverAllOnes`).
- `moveBefore()` destroys the lists exactly with the element itself or the begin of a list as destination,
  `moveAfter()` exactly with the element itself or the end of a list (`Pool.ElementPool.MoveBefore`,
  `Pool.ElementPool.MoveAfter`).
- `fromDbPath(toDbPath(p))` restores the names exactly if none contains a NUL (`Path.DbPathRoundTrip`).
- `SetCustomData(key, NULL)` loses a live resource exactly if its on-demand entry has no consumers
  (`ResourceManager.Manager.SetCustomData`, `ResourceManager.LeakingRun`).
- The comment of `RemoveDirectory` does not say so, but a forced remove fails beyond 1000 levels and
  what was deleted until then stays deleted (`InstrumentsDb.Database.RemoveDirectoryContent`,
  `InstrumentsDb.RemoveIff`, `InstrumentsDb.TooDeepExample`).
- `Update()` whose `Create()` throws leaves an entry with a destroyed resource
  (`ResourceManager.Manager.Update`, `ResourceManager.ThrowingUpdateRun`).
- `RenameDirectory` accepts the root directory (`InstrumentsDb.Database.RenameDirectory`).

`dafny verify dfyconfig.toml` checks the whole project.

## Model

| member | source | states |
|---|---|---|
| `SyncConfig.NextStamp` | src/common/SynchronizedConfig.h:77-82 | lock stamps stay odd through 32-bit wrap-around, so a locked reader never stores the value 0 that means unlocked |
| `SyncConfig.ReaderChangeKeepsInv` | src/common/SynchronizedConfig.h:77-94 | a reader may change its own part in any way that does not move an open region to the old copy: the protocol invariant of all other threads survives |
| `SyncConfig.ReaderStepKeepsInv` | src/common/SynchronizedConfig.h:77-94 | storing a stamp, loading the index, unlocking and draining a store keep the invariant, whatever the writer is doing |
| `SyncConfig.PollKeepsInv` | src/common/SynchronizedConfig.h:178-189 | when the writer finds a lock that differs from prevLock, the region it waited for has ended, so unlinking that reader is safe |
| `SyncConfig.WriterStepKeepsInv` | src/common/SynchronizedConfig.h:158-193 | every step of the writer, through scan, polling passes and return, keeps the invariant |
| `SyncConfig.StepKeepsInv` | src/common/SynchronizedConfig.h:77-193 | the invariant holds after any step of any thread, for any number of readers |
| `SyncConfig.RunKeepsInv` | src/common/SynchronizedConfig.h:77-193 | the invariant holds in every state of every run |
| `SyncConfig.ExclusiveUpdate` | src/common/SynchronizedConfig.h:36-58 | main safety theorem: over every interleaving and every delay of stores, while the writer is outside SwitchConfig() no reader between Lock() and Unlock() refers to the copy for update |
| `SyncConfig.SwitchReturns` | src/common/SynchronizedConfig.h:178-192 | from the start of a pass: once every reader on the list has left the region it was seen in, this pass ends SwitchConfig() and exchanges the copies |
| `SyncConfig.SwitchCompletes` | src/common/SynchronizedConfig.h:162-193 | from any state of the scan or the polling loop: once the readers it still looks at are outside their regions and their stores have drained, steps of the writer alone end SwitchConfig(); that such readers have lock 0 is part of the invariant |
| `SyncConfig.NeverBlocked` | src/common/SynchronizedConfig.h:77-193 | no step of a thread is excluded by a bound of the model: all accesses are to existing copies and readers |
| `SyncConfig.LaterRegionsDiffer` | src/common/SynchronizedConfig.h:78-83 | a stamp comes back only after 2^31 further regions of the reader, through any wrap-around |
| `SyncConfig.LockCountAfter` | src/common/SynchronizedConfig.h:78-83 | in every run the stamp of a reader is its first one advanced once for every Lock() |
| `SyncConfig.NewRegionIsNotWaitedFor` | src/common/SynchronizedConfig.h:162-193 | a reader that has begun a new region, fewer than 2^31 regions later, has another lock value than the one that SwitchConfig() may wait for |
| `SyncConfig.LockFenceNeeded` | src/common/lsatomic.h:28-59 | without the fence in Lock() there is a run in which a reader works on the copy the writer owns |
| `SyncConfig.SwitchFenceNeeded` | src/common/lsatomic.h:28-59 | without the fence in SwitchConfig() there is such a run, too |
| `SyncConfig.SafeIffFenced` | src/common/lsatomic.h:28-59 | all runs are safe if and only if both sequentially consistent fences are there |
| `DoubleBuffer.ReaderEventKeepsInv` | src/common/SynchronizedConfig.h:341-350 | beginSync() and endSync() of a front buffer keep the invariant of the double buffer |
| `DoubleBuffer.DrainKeepsInv` | src/common/SynchronizedConfig.h:316-320 | a store of the writer that reaches memory keeps it; the store of the index is the commit of a version |
| `DoubleBuffer.DataEventKeepsInv` | src/common/SynchronizedConfig.h:308-320 | beginSync(), edits, the begin of the switch and the assignment of the clone keep it |
| `DoubleBuffer.SwitchEventKeepsInv` | src/common/SynchronizedConfig.h:318-318 | the steps inside SwitchConfig() keep it |
| `DoubleBuffer.NeverBlocked` | src/common/SynchronizedConfig.h:304-350 | no event is excluded by a bound of the model |
| `DoubleBuffer.WriterEventKeepsInv` | src/common/SynchronizedConfig.h:308-320 | all events of the writer keep it |
| `DoubleBuffer.EventKeepsInv` | src/common/SynchronizedConfig.h:304-350 | every event of every thread keeps it |
| `DoubleBuffer.HistoryKeepsInv` | src/common/SynchronizedConfig.h:304-350 | it holds after every history |
| `DoubleBuffer.CopiesAgreeWhenIdle` | src/common/SynchronizedConfig.h:316-320 | outside a back-buffer section both copies are equal to the latest committed version |
| `DoubleBuffer.RegionStep` | src/common/SynchronizedConfig.h:341-350 | no event but the own unlock changes what an open region refers to or takes back a committed version |
| `DoubleBuffer.RegionIsFrozen` | src/common/SynchronizedConfig.h:341-350 | an open region keeps its copy and version through any history of the other threads |
| `DoubleBuffer.FrontSectionSeesOneVersion` | src/common/SynchronizedConfig.h:341-350 | the data a front-buffer section reads is one committed version, unchanged from its first to its last access |
| `DoubleBuffer.VersionsNeverGoBack` | src/common/SynchronizedConfig.h:304-350 | from any state that satisfies the invariant, the version number a reader finds never decreases |
| `DoubleBuffer.ReadersNeverGoBack` | src/common/SynchronizedConfig.h:304-350 | the same for every reachable state: committed versions are only added, and no reader ever sees an older one than before |
| `DoubleBuffer.LockFindsLatest` | src/common/SynchronizedConfig.h:77-82 | a Lock() finds the version that is the latest at the moment of its index load |
| `DoubleBuffer.PushStep` | src/common/ConditionServer.cpp:36-44 | nothing but a new push changes the progress of the current one |
| `DoubleBuffer.PushRun` | src/common/ConditionServer.cpp:36-44 | a started push goes through switch and copy with its value, over any history |
| `DoubleBuffer.PushedStep` | src/common/ConditionServer.cpp:36-44 | the value assigned to the copy for update stays there, seen through the store buffer, whatever other threads do |
| `DoubleBuffer.PushedRun` | src/common/ConditionServer.cpp:36-44 | the same over any history until the switch |
| `DoubleBuffer.SwitchesPushedValue` | src/common/ConditionServer.cpp:36-44 | what the switch commits, and the clone assigned afterwards, is the argument of Push() |
| `DoubleBuffer.PushTakesEffect` | src/common/ConditionServer.cpp:36-59 | after Push(b) has assigned b and switched, and until the next push, every real-time region that is open, whenever it was opened between Pop() and RttDone(), runs with b |
| `DoubleBuffer.PushReportsOldCondition` | src/common/ConditionServer.cpp:36-55 | the old condition a push reports is the latest committed value |
| `AvlShape.PlugElements` | src/common/RTAVLTree.h:735-785 | replacing a subtree leaves the items before and behind it in place: order is a property of the list of items only |
| `AvlShape.PlugAvl` | src/common/RTAVLTree.h:719-785 | a tree is balanced exactly if the subtree is and its surroundings fit the subtree's height |
| `AvlShape.DepthBound` | src/common/RTAVLTree.h:200-247 | no node is deeper than the height of the tree, so this bounds every descent and climb below |
| `AvlShape.HeightIsLogarithmic` | src/common/RTAVLTree.h:805-811 | a tree of height h has at least 2^(h/2)-1 and Fib(h+2)-1 distinct keys, whatever the number of twins: the height is logarithmic |
| `AvlShape.ElementsCount` | src/common/RTAVLTree.h:845-850 | the number of tree nodes is the number of distinct keys |
| `AvlShape.RotatedOnceOk` | src/common/RTAVLTree.h:735-754 | a single rotation of a node that leans by two gives a balanced subtree with exact balance factors and the reported height change |
| `AvlShape.RotatedTwiceOk` | src/common/RTAVLTree.h:756-785 | a double rotation does, for every balance of the inner node |
| `AvlShape.RotatedOnceElements` | src/common/RTAVLTree.h:735-754 | a single rotation keeps the order of all items |
| `AvlShape.RotatedTwiceElements` | src/common/RTAVLTree.h:756-785 | a double rotation keeps the order of all items |
| `AvlShape.GrowStep` | src/common/RTAVLTree.h:240-247 | one step of the climb after insert: the increase that is passed on is exactly the growth of the subtree |
| `AvlShape.ShrinkStep` | src/common/RTAVLTree.h:385-390 | one step of the climb after erase: the decrease that is passed on is exactly the loss of height |
| `AvlMemory.RotateOnceRep` | src/common/RTAVLTree.h:735-754 | the pointer writes of a single rotation turn links that represent a tree into links that represent the rotated tree, in any surroundings |
| `AvlMemory.RotateTwiceRep` | src/common/RTAVLTree.h:756-785 | the pointer writes of a double rotation do so |
| `AvlMemory.RenameRep` | src/common/RTAVLTree.h:291-302 | another node that takes over all links of a tree node represents the same tree with the new node |
| `AvlMemory.SpliceOut` | src/common/RTAVLTree.h:368-381 | linking the only child to the parent removes exactly one node from the tree |
| `AvlMemory.WriteTakeOver` | src/common/RTAVLTree.h:291-302 | the writes by which a twin takes over position and balance of its head, including the back links of children |
| `AvlMemory.WriteReplaceBySuccessor` | src/common/RTAVLTree.h:331-340 | the writes by which the successor takes over position and balance of the erased node |
| `AvlMemory.SideOfHole` | src/common/RTAVLTree.h:795-803 | the side on which a node hangs below its parent is found by comparing its down links |
| `AvlContents.WriteAddTwin` | src/common/RTAVLTree.h:211-218 | a new twin is linked into the circular ring right before the head, so the ring stays well-formed with the item at its end |
| `AvlContents.WriteDropTwin` | src/common/RTAVLTree.h:281-286 | unlinking a non-head twin leaves a well-formed ring without exactly that twin |
| `AvlContents.WriteDropHead` | src/common/RTAVLTree.h:287-305 | unlinking the head leaves a well-formed ring whose head is the next twin |
| `AvlContents.NewRingContents` | src/common/RTAVLTree.h:226-232 | a new leaf between smaller and larger keys gives the sorted list of the reference insertion and one more item in all |
| `AvlContents.TwinContents` | src/common/RTAVLTree.h:208-220 | a longer ring gives the list of the reference insertion |
| `AvlContents.DroppedContents` | src/common/RTAVLTree.h:281-306 | a ring without one of several twins gives the list of the reference removal, with that item alone no longer in the tree |
| `AvlContents.SingletonRemoved` | src/common/RTAVLTree.h:308-394 | removing a node without twins gives the list of the reference removal |
| `AvlContents.RemovedItems` | src/common/RTAVLTree.h:271-394 | the reference removal takes out exactly the one item |
| `AvlContents.InsertedItems` | src/common/RTAVLTree.h:200-260 | the reference insertion adds exactly the one item and keeps all others |
| `AvlContents.DescendLeft` | src/common/RTAVLTree.h:200-225 | going left keeps the item between the keys before and behind the subtree |
| `AvlContents.DescendRight` | src/common/RTAVLTree.h:200-225 | going right does so |
| `RTAVLTree.WriteRotateOnce` | src/common/RTAVLTree.h:735-754 | the assignments of rotateOnce() have the effect RotateOnceRep assumes, and touch no other node |
| `RTAVLTree.WriteRotateTwice` | src/common/RTAVLTree.h:756-785 | the assignments of rotateTwice() have the effect RotateTwiceRep assumes, for each of the three inner balances |
| `RTAVLTree.AvlTree.SetDownLink` | src/common/RTAVLTree.h:787-793 | exactly one of root, left or right changes, the one that pointed to the node |
| `RTAVLTree.AvlTree.RotateOnce` | src/common/RTAVLTree.h:735-754 | links represent the rotated tree afterwards, the reported height change is right, and one rotation is counted |
| `RTAVLTree.AvlTree.RotateTwice` | src/common/RTAVLTree.h:756-785 | links represent the doubly rotated tree afterwards, and one rotation is counted |
| `RTAVLTree.AvlTree.Rebalance` | src/common/RTAVLTree.h:719-733 | a subtree out of balance by two becomes balanced with the same items in the same order by one rotation, any other is left alone; the reported change is the loss of height |
| `RTAVLTree.AvlTree.GrowParent` | src/common/RTAVLTree.h:240-247 | one level of the climb after insert, on the links; if the climb goes on there was no rotation |
| `RTAVLTree.AvlTree.ClimbAfterInsert` | src/common/RTAVLTree.h:237-247 | the whole tree is balanced again with the same items, after at most one rotation and no more rounds than the start is deep |
| `RTAVLTree.AvlTree.ShrinkParent` | src/common/RTAVLTree.h:385-390 | one level of the climb after erase, on the links |
| `RTAVLTree.AvlTree.ClimbAfterErase` | src/common/RTAVLTree.h:385-390 | the whole tree is balanced again with the same items, after no more rounds than the start is deep |
| `RTAVLTree.AvlTree.Descend` | src/common/RTAVLTree.h:200-235 | the search ends at the node of the item's key, or at the node that has the free place for it, after as many rounds as that node is deep |
| `RTAVLTree.AvlTree.InsertTwin` | src/common/RTAVLTree.h:205-220 | an item with an existing key joins its ring; the shape of the tree is unchanged |
| `RTAVLTree.AvlTree.InsertFirst` | src/common/RTAVLTree.h:192-198 | the first item becomes the root of a valid tree |
| `RTAVLTree.AvlTree.InsertLeaf` | src/common/RTAVLTree.h:222-247 | an item with a new key becomes a leaf; the full invariant holds again |
| `RTAVLTree.AvlTree.Insert` | src/common/RTAVLTree.h:189-248 | every non-member is added, exactly once and at its place, with all invariants (search order, exact balance, links, rings, size) kept; a member changes nothing; at most one rotation, and at most 2h loop rounds where Fib(h+2)-1 does not exceed the number of distinct keys; nodes outside the tree are untouched |
| `RTAVLTree.AvlTree.EraseTwin` | src/common/RTAVLTree.h:281-286 | a non-head twin is removed, the tree keeps its shape |
| `RTAVLTree.AvlTree.TakeOver` | src/common/RTAVLTree.h:291-302 | the next twin replaces the head in the tree |
| `RTAVLTree.AvlTree.EraseHead` | src/common/RTAVLTree.h:287-305 | a head with twins is removed, the tree keeps its shape |
| `RTAVLTree.AvlTree.EraseLeaf` | src/common/RTAVLTree.h:358-367 | a leaf is cut off and the tree is balanced again |
| `RTAVLTree.AvlTree.HookOutBranch` | src/common/RTAVLTree.h:369-379 | the only child takes the place of the node |
| `RTAVLTree.AvlTree.EraseBranch` | src/common/RTAVLTree.h:368-390 | a node with one child is removed and the tree is balanced again |
| `RTAVLTree.AvlTree.FindSuccessor` | src/common/RTAVLTree.h:315-319 | the leftmost node of the right subtree, reached by left links only |
| `RTAVLTree.AvlTree.HangOut` | src/common/RTAVLTree.h:323-325 | the successor is taken out of its old place |
| `RTAVLTree.AvlTree.ReplaceBySuccessor` | src/common/RTAVLTree.h:331-340 | the successor takes the erased node's place |
| `RTAVLTree.AvlTree.SpliceSuccessor` | src/common/RTAVLTree.h:315-340 | the links represent the tree in which the successor stands for the erased node and its old place holds its right child |
| `RTAVLTree.AvlTree.ShrinkSpine` | src/common/RTAVLTree.h:342-350 | first phase of rebalancing: the right subtree is balanced again up to the successor's new place |
| `RTAVLTree.AvlTree.EraseInner` | src/common/RTAVLTree.h:312-390 | a node with two children is removed by splicing in its successor and rebalancing in two phases; all other items keep their order |
| `RTAVLTree.AvlTree.Detach` | src/common/RTAVLTree.h:308-390 | removal of a node without twins in every shape |
| `RTAVLTree.AvlTree.EraseLast` | src/common/RTAVLTree.h:352-357 | the last item leaves an empty tree |
| `RTAVLTree.AvlTree.EraseNode` | src/common/RTAVLTree.h:308-394 | a node without twins is removed and reset |
| `RTAVLTree.AvlTree.Erase` | src/common/RTAVLTree.h:271-394 | erasing any member removes exactly that item, resets its node and keeps all invariants, in all shapes, with at most 2h loop rounds where Fib(h+2)-1 does not exceed the number of distinct keys; a non-member changes nothing |
| `RTAVLTree.AvlTree.LogarithmicHeight` | src/common/RTAVLTree.h:805-811 | in every valid tree of height h there are at least 2^(h/2)-1 and Fib(h+2)-1 distinct keys |
| `RTAVLTree.AvlTree.Clear` | src/common/RTAVLTree.h:560-566 | all items are removed and their nodes are reset |
| `RTAVLTree.AvlTree.CountTwins` | src/common/RTAVLTree.h:80-84 | walking a ring counts its members |
| `RTAVLTree.AvlTree.CountFrom` | src/common/RTAVLTree.h:845-850 | the recursive count is the number of all items, twins included |
| `RTAVLTree.AvlTree.Count` | src/common/RTAVLTree.h:583-587 | count() equals size() in every valid tree |
| `RTAVLTree.AvlTree.constructor` | src/common/RTAVLTree.h:151-151 | an empty valid tree |
| `PermuteArgs.Gcd` | msvc/compat/getopt.h:156-168 | the result divides both numbers and is an integer combination of them |
| `PermuteArgs.CombinationIsGreatest` | msvc/compat/getopt.h:156-168 | such a number is the greatest common divisor |
| `PermuteArgs.OrbitInjective` | msvc/compat/getopt.h:191-205 | the positions visited from one start do not repeat before the cycle closes |
| `PermuteArgs.OrbitCovers` | msvc/compat/getopt.h:191-205 | every position of its residue class is on the cycle, so the cycles together cover the whole range |
| `PermuteArgs.OrbitCloses` | msvc/compat/getopt.h:189-205 | a cycle closes after cyclelen steps |
| `PermuteArgs.OrbitClass` | msvc/compat/getopt.h:191-205 | a cycle stays in its residue class modulo the gcd, so different cycles are disjoint |
| `PermuteArgs.MakeCycle` | msvc/compat/getopt.h:191-205 | each of the gcd cycles is a closed walk of distinct positions through one residue class |
| `PermuteArgs.RunCycle` | msvc/compat/getopt.h:193-204 | the inner loop moves every element of its cycle to its final place and no other element |
| `PermuteArgs.Permute` | msvc/compat/getopt.h:176-206 | for all adjacent blocks, the two blocks are exchanged, each in its old order, and everything else stays |
| `Getopt.PickPermutes` | msvc/compat/getopt.h:413-603 | consumed and skipped words together are the words of the vector, each once |
| `Getopt.SkipWord` | msvc/compat/getopt.h:488-500 | skipping a non-option keeps the arrangement of the vector |
| `Getopt.ConsumeWord` | msvc/compat/getopt.h:502-603 | consuming a word keeps it |
| `Getopt.ConsumeWords` | msvc/compat/getopt.h:502-603 | consuming an option with its argument keeps it |
| `Getopt.PermuteWords` | msvc/compat/getopt.h:488-497 | permuting puts all consumed words before all skipped ones, both in order |
| `Getopt.SettledIsInOrder` | msvc/compat/getopt.h:452-468 | after permuting, optind is the index of the first skipped word |
| `Getopt.InOrderPermutes` | msvc/compat/getopt.h:413-603 | the vector is a permutation of the original one |
| `Getopt.NonOptionsFromOptind` | msvc/compat/getopt.h:452-468 | in an ordered vector, optind is the first of the non-options |
| `Getopt.StuckExample` | msvc/compat/getopt.h:547-556 | "prog x -a-" with the option string "a" ends with the vector unchanged: optind at the option word, and the non-option before it |
| `Getopt.ReturnExample` | msvc/compat/getopt.h:564-580 | "prog y -W x" with a long option x of value -1 ends with the vector unchanged: optind behind all words, and the non-option before the option |
| `GetoptSpec.LetterEffect` | msvc/compat/getopt.h:547-602 | what a letter of an option word does, as a function of the words; it is stuck exactly at a lone '-' that is no option |
| `GetoptSpec.WordMarks` | msvc/compat/getopt.h:413-603 | an option word marks itself and the words it takes |
| `GetoptSpec.MarksMean` | msvc/compat/getopt.h:413-603 | the marked words are exactly the option words and the words they take, all others looked at are non-options, and all words up to the end or "--" are looked at |
| `GetoptSpec.WordEnds` | msvc/compat/getopt.h:547-602 | without long options, how a word ends in closed form: stuck, taking the next word, or neither |
| `GetoptSpec.StuckWithoutLong` | msvc/compat/getopt.h:547-556 | without long options a run is stuck exactly if it looks at a word of letters without arguments that ends in '-' |
| `GetoptSpec.NeverStuck` | msvc/compat/getopt.h:531-556 | with long options, or with '-' as an option letter, no run is stuck |
| `GetoptSpec.StuckIff` | msvc/compat/getopt.h:531-556 | the exact condition for a stuck run, on option string and vector |
| `GetoptSpec.EndsInWord` | msvc/compat/getopt.h:531-580 | with long options, in which words a run ends: those in which letters without arguments lead to a long option without flag and with value -1, behind '-' or behind -W, whose argument is not wrong |
| `GetoptSpec.ReturnsEndIff` | msvc/compat/getopt.h:531-580 | the exact conditions, on table and vector, for a run to return the value -1 of a long option, and for it to take that value for no long option |
| `GetoptSpec.EndsNormallyIff` | msvc/compat/getopt.h:413-603 | a run ends in order exactly if it meets none of the three kinds of words |
| `GetoptLaws.ExactNameWins` | msvc/compat/getopt.h:310-321 | an option of exactly that name is meant, the first one of several, whatever else the name abbreviates |
| `GetoptLaws.UnknownIff` | msvc/compat/getopt.h:310-339 | a name is unknown exactly if it is not the beginning of the name of any option |
| `GetoptLaws.AmbiguousIff` | msvc/compat/getopt.h:310-345 | a name is ambiguous exactly if no option has that name and two that it abbreviates differ in argument, flag or value |
| `GetoptLaws.AbbreviationMeans` | msvc/compat/getopt.h:310-339 | an abbreviation stands for the first of the options it begins, if all of these mean the same |
| `GetoptLaws.LongWithValue` | msvc/compat/getopt.h:346-402 | "--name=value" with a required or optional argument is reported as the option's value, or 0 with a flag, with exactly the argument "value", and takes no other word |
| `GetoptLaws.LongWithUnwantedValue` | msvc/compat/getopt.h:346-357 | "--name=value" without argument is reported as a bad argument with the option in optopt, and the run goes on behind it |
| `GetoptLaws.LongAlone` | msvc/compat/getopt.h:346-402 | "--name" with no or an optional argument is reported without one, and takes no other word |
| `GetoptLaws.LongThenValue` | msvc/compat/getopt.h:361-367 | "--name value" with a required argument is reported with exactly that argument, and takes both words |
| `GetoptLaws.LongWithoutValue` | msvc/compat/getopt.h:369-387 | "--name" at the end with a required argument is reported as a missing argument, ':' or '?' as the option string says |
| `GetoptLaws.LongRefused` | msvc/compat/getopt.h:340-402 | an unknown or ambiguous name is reported as '?', with or without an argument |
| `GetoptLaws.LetterAlone` | msvc/compat/getopt.h:582-584 | a letter without colon is reported without argument and leaves the rest of the word |
| `GetoptLaws.LetterWithRest` | msvc/compat/getopt.h:584-602 | a letter with one or two colons has the rest of the word for its argument |
| `GetoptLaws.LetterWithoutRest` | msvc/compat/getopt.h:584-602 | a letter with two colons and nothing behind it in the word has no argument |
| `GetoptLaws.LetterThenValue` | msvc/compat/getopt.h:588-602 | a letter with one colon and nothing behind it in the word takes the next word, or is reported as a missing argument |
| `GetoptLaws.LetterRefused` | msvc/compat/getopt.h:547-562 | a character that is no option letter, or a colon, is reported as '?' with that character in optopt, and leaves the rest of the word |
| `GetoptLaws.LongAfterW` | msvc/compat/getopt.h:563-581 | with "W;" in the option string, "-Wname" and "-W name" do what "--name" does, with one more word taken in the second case |
| `GetoptLaws.SameRest` | msvc/compat/getopt.h:547-602 | the rest of a word is read alike behind different beginnings |
| `GetoptLaws.Bundled` | msvc/compat/getopt.h:547-602 | letters without arguments can be bundled: "-ab" is reported as "-a" and then what "-b" is reported as |
| `GetoptLaws.LetterWord` | msvc/compat/getopt.h:547-602 | "-a" as a word, for a letter without argument or with one that may be left out |
| `GetoptLaws.LetterValueWords` | msvc/compat/getopt.h:584-602 | "-aVALUE" and "-a VALUE" are reported with exactly that argument and take one and two words; "-a" at the end misses it |
| `GetoptLaws.RefusedWord` | msvc/compat/getopt.h:547-562 | "-x" for a character that is no option letter, alone or before other letters |
| `GetoptLaws.OtherWords` | msvc/compat/getopt.h:461-530 | words that do not begin with a dash, and a lone dash, are skipped; "--" ends the run |
| `Getopt.SplitAtEqual` | msvc/compat/getopt.h:303-308 | a long option is split at its first '=' |
| `Getopt.FindLong` | msvc/compat/getopt.h:310-341 | the result is the reference meaning of the word: an option of exactly that name wins; otherwise the first one it abbreviates, unless another abbreviated one means something else |
| `Getopt.Parser.constructor` | msvc/compat/getopt.h:413-448 | the parser before the first call, for any option table: nothing is consumed, and the whole vector is still to be read |
| `Getopt.Parser.PermuteSkipped` | msvc/compat/getopt.h:491-497 | the skipped block moves behind the options that follow it |
| `Getopt.Parser.Finish` | msvc/compat/getopt.h:452-468 | at the end of the vector consumed words come first and optind is the first non-option |
| `Getopt.Parser.SkipNonOptions` | msvc/compat/getopt.h:470-501 | non-options are skipped and permuted until an option or the end |
| `Getopt.Parser.Scan` | msvc/compat/getopt.h:449-523 | finds the option word the reference reads next, or ends, also at "--", with exactly the words consumed that the reference marks |
| `Getopt.Parser.ParseLong` | msvc/compat/getopt.h:284-406 | returns the value of the option the word means, sets optarg and optopt, and consumes the next word exactly if the option requires an argument, none is given with '=' and there is a next word |
| `Getopt.Parser.OptionPart` | msvc/compat/getopt.h:525-603 | does what the reference says of a call at this place: value, optarg, optopt, rest of the word and number of words taken; -1 for a lone '-' that is no option and for the -1 of a long option behind -W; for the -1 of one behind "--", up to the point where the source goes on with the letters of its name |
| `Getopt.Parser.LetterPart` | msvc/compat/getopt.h:547-602 | the same for a single option letter |
| `Getopt.Parser.LongWordPart` | msvc/compat/getopt.h:564-580 | -W takes a long option from the rest of the word or from the next word, and the word behind that if the option needs it |
| `Getopt.Parser.ArgumentPart` | msvc/compat/getopt.h:584-600 | the next word is consumed exactly if the argument is neither in the word nor optional and there is a next word |
| `Getopt.Parser.AtOption` | msvc/compat/getopt.h:525-603 | a call that has found an option keeps reference and vector in step |
| `Getopt.Parser.Call` | msvc/compat/getopt.h:413-603 | one call gives the next report of the reference parse and keeps the arrangement, or ends as the reference ends |
| `Getopt.Parser.Run` | msvc/compat/getopt.h:413-603 | a complete run reports exactly the options of the reference parse with their arguments and consumes exactly the words it marks; at a normal end the vector is a permutation of the original, consumed words precede all skipped ones, both in original order, and from optind on there are the non-options; each of the other three endings has its exact condition on option string, table and vector, and leaves the skipped words before an option |
| `RingBuffer.AllocBuffer` | src/common/RingBuffer.h:452-468 | the size is the least power of two, from 2 on, that holds the elements and the wrap space |
| `RingBuffer.WriteSpace` | src/common/RingBuffer.h:269-282 | the space is one less than what is missing to the size |
| `RingBuffer.ReadSpace` | src/common/RingBuffer.h:284-295 | the space is the distance of the pointers on the ring |
| `RingBuffer.Spaces` | src/common/RingBuffer.h:269-295 | with the pointers as counts modulo the size, the spaces are the differences of the counts, and they sum up to size - 1 |
| `RingBuffer.Transfer` | src/common/RingBuffer.h:485-560 | the two pieces of a transfer touch exactly the cells of the next counts, also across the end of the buffer |
| `RingBuffer.WriteStartKeeps` | src/common/RingBuffer.h:533-549 | a stale read pointer only makes the producer see less space |
| `RingBuffer.WriteElementKeeps` | src/common/RingBuffer.h:551-557 | writing an element never touches an unread cell |
| `RingBuffer.WriteEndKeeps` | src/common/RingBuffer.h:551-560 | publishing the write pointer makes exactly the written elements readable |
| `RingBuffer.ReadElementKeeps` | src/common/RingBuffer.h:512-518 | reading gets the elements in the order they were written |
| `RingBuffer.StepKeepsInv` | src/common/RingBuffer.h:485-560 | every step of either side keeps the invariant |
| `RingBuffer.RunKeepsInv` | src/common/RingBuffer.h:485-560 | it holds in every run |
| `RingBuffer.NeverBlocked` | src/common/RingBuffer.h:485-560 | no step is excluded by a bound of the model: no access is outside the buffer or the caller's data |
| `RingBuffer.ReadIsPrefixOfWritten` | src/common/RingBuffer.h:485-560 | in every run with stale pointers, all data read is a prefix of all data accepted by write() |
| `RingBuffer.QuiescentSpaces` | src/common/RingBuffer.h:269-295 | in quiescent states read_space() and write_space() sum up to size - 1 |
| `RingBuffer.NothingIsLost` | src/common/RingBuffer.h:485-522 | a read that sees the current write pointer gets everything that was written and not read |
| `RingBuffer.WriteAccepts` | src/common/RingBuffer.h:533-549 | with c elements seen as released, write() accepts exactly min(given, size - 1 - (produced - c)) elements |
| `RingBuffer.ReadFetches` | src/common/RingBuffer.h:485-500 | with p elements seen as published, read() fetches exactly min(cnt, p - consumed) elements |
| `RingBuffer.WriteRun` | src/common/RingBuffer.h:533-560 | a write() under way adds all its elements when it returns, and none before, whatever the consumer does |
| `RingBuffer.ReadRun` | src/common/RingBuffer.h:485-522 | the same for read() |
| `RingBuffer.WriteCall` | src/common/RingBuffer.h:533-560 | a whole write() call, interleaved with any steps of the consumer, adds exactly the first min(given, free) elements to the channel |
| `RingBuffer.ReadCall` | src/common/RingBuffer.h:485-522 | a whole read() call, interleaved with any steps of the producer, returns exactly the next min(cnt, available) elements of what was sent |
| `WrapBuffer.RefillStartKeeps` | src/common/RingBuffer.h:193-242 | the adjusted count of a refill fits behind the write pointer without reaching unread data |
| `WrapBuffer.FillElementKeeps` | src/common/RingBuffer.h:168-177 | filling behind the write pointer, also into the wrap space, keeps all unread cells |
| `WrapBuffer.CopyElementKeeps` | src/common/RingBuffer.h:173-173 | copying one wrap cell to the start touches no unread element |
| `WrapBuffer.PublishLinearKeeps` | src/common/RingBuffer.h:168-177 | storing the write pointer after a refill without wrap publishes exactly the refill and keeps the mirror |
| `WrapBuffer.PublishWrapKeeps` | src/common/RingBuffer.h:168-177 | storing the write pointer after the wrap cells were copied publishes exactly the refill and establishes the mirror |
| `WrapBuffer.EventKeepsInv` | src/common/RingBuffer.h:168-242 | every event of producer and consumer keeps the invariant |
| `WrapBuffer.HistoryKeepsInv` | src/common/RingBuffer.h:168-242 | it holds after every history |
| `WrapBuffer.NeverBlocked` | src/common/RingBuffer.h:168-242 | no event is excluded by a bound of the model: no refill goes beyond the wrap cells |
| `WrapBuffer.LinearReadIsRingContent` | src/common/RingBuffer.h:168-242 | a linear read of the next unread elements, across the end of the buffer, equals the ring content |
| `WrapBuffer.WrapLandsExactly` | src/common/RingBuffer.h:168-177 | every wrapping refill puts the write pointer exactly on wrap_elements |
| `WrapBuffer.MirrorStays` | src/common/RingBuffer.h:168-177 | from the first wrap on, outside a wrapping refill, the cells past the size mirror the first ones |
| `WrapBuffer.NoUnreadOverwritten` | src/common/RingBuffer.h:193-242 | no unread element is ever overwritten |
| `WrapBuffer.SpaceIsLargestAllowed` | src/common/RingBuffer.h:193-216 | the space is the largest count that stays before the read pointer and either before the end, or fills all wrap cells with the new write pointer before the read pointer |
| `WrapBuffer.AdjustedIsLeastAllowed` | src/common/RingBuffer.h:235-242 | the adjusted count is the least allowed one that is not below the capped count |
| `WrapBuffer.WholeSpaceWraps` | src/common/RingBuffer.h:193-216 | with the read pointer behind the wrap cells and not behind the write pointer, a refill can use the space up to the last wrap cell, and wraps |
| `WrapBuffer.FillRun` | src/common/RingBuffer.h:168-177 | until the next refill begins, what the producer fills in is what is published, in order, whatever the consumer does |
| `WrapBuffer.RefillPublishes` | src/common/RingBuffer.h:168-242 | a whole refill publishes exactly the elements filled in, and their number is the least allowed one from the capped count on |
| `WrapBuffer.ConsumedIsReleased` | src/common/RingBuffer.h:146-148 | the elements counted as consumed are those the reader has released |
| `PoolLists.DetachOk` | src/common/Pool.h:566-572 | detaching a node leaves all lists well linked, without exactly that node |
| `PoolLists.AttachOk` | src/common/Pool.h:484-564 | linking a node in between two neighbours leaves all lists well linked, with it at that place |
| `PoolLists.SpliceOk` | src/common/Pool.h:496-510 | a whole list moved to the end of another leaves all lists well linked |
| `PoolLists.OnePlace` | src/common/Pool.h:484-579 | no element is at two places |
| `Pool.MoveOk` | src/common/Pool.h:270-373 | taking an element out of any place and putting it to any other place keeps every pool element in exactly one list, all lists doubly linked between their sentinels, and the lengths summing up to the pool size |
| `Pool.MovedLists` | src/common/Pool.h:270-373 | what a move does to the lists, within one list and from one list to another, as lists of elements |
| `Pool.MoveAllOk` | src/common/Pool.h:649-656 | moving a whole list to another one keeps all that |
| `Pool.NewListOk` | src/common/Pool.h:466-482 | a new list leaves all others as they are |
| `Pool.GrowOk` | src/common/Pool.h:905-908 | one more element in the freelist during construction |
| `Pool.KeepHolds` | src/common/Pool.h:643-647 | the filter holds exactly the elements with that test result |
| `Pool.KeepJoin` | src/common/Pool.h:643-647 | the filter keeps the elements in their order, also those that occur more than once |
| `Pool.FilteredStep` | src/common/Pool.h:643-647 | one round of a removing loop: taking a matching element out, or leaving it, advances the filter by one element |
| `Pool.FallbackStays` | src/common/Pool.h:270-276 | the fallback element is still at its place after the current one was taken out |
| `Pool.Bumped` | src/common/Pool.h:99-103 | the masked counter is the number of frees modulo its width |
| `Pool.MoveBeforeItselfBreaks` | src/common/Pool.h:334-340 | moveBefore() with the element itself as destination leaves links that form no lists |
| `Pool.MoveAfterItselfBreaks` | src/common/Pool.h:367-373 | the same for moveAfter() |
| `Pool.MoveBeforeBeginBreaks` | src/common/Pool.h:334-340 | moveBefore() the begin of a list leaves links that form no lists |
| `Pool.MoveAfterEndBreaks` | src/common/Pool.h:367-373 | moveAfter() the end of a list leaves links that form no lists |
| `Pool.LinkFreelist` | src/common/Pool.h:902-908 | all elements are in the freelist in order |
| `Pool.PoolSizeBits` | src/common/Pool.h:909-916 | the number of index bits is minimal and leaves room for the counter |
| `Pool.ElementPool.constructor` | src/common/Pool.h:902-912 | a pool with all elements free |
| `Pool.ElementPool.NewList` | src/common/Pool.h:466-482 | a new empty list; all others are unchanged |
| `Pool.ElementPool.Detach` | src/common/Pool.h:566-572 | the two link writes of detach() |
| `Pool.ElementPool.Append` | src/common/Pool.h:484-494 | the link writes of append() put a node before the end sentinel |
| `Pool.ElementPool.Prepend` | src/common/Pool.h:512-522 | the link writes of prepend() put a node behind the begin sentinel |
| `Pool.ElementPool.PrependBefore` | src/common/Pool.h:540-551 | the link writes of prependBefore() |
| `Pool.ElementPool.AppendAfter` | src/common/Pool.h:553-564 | the link writes of appendAfter() |
| `Pool.ElementPool.First` | src/common/Pool.h:436-438 | the iterator stands at the first element or the end, and falls back to the begin sentinel |
| `Pool.ElementPool.Next` | src/common/Pool.h:128-142 | the iterator moves to the next position and falls back to the current one |
| `Pool.ElementPool.MoveBefore` | src/common/Pool.h:334-340 | for every node as destination: the element is right before it, in the same or another list, exactly if the destination is neither the element itself nor the begin of a list; otherwise the links form no lists; the iterator is back at its fallback |
| `Pool.ElementPool.MoveAfter` | src/common/Pool.h:367-373 | for every node as destination: the element is right behind it exactly if the destination is neither the element itself nor the end of a list; otherwise the links form no lists |
| `Pool.ElementPool.MoveToEndOf` | src/common/Pool.h:270-276 | the element is the last of the destination list, which may be its own |
| `Pool.ElementPool.MoveToBeginOf` | src/common/Pool.h:301-307 | the element is the first of the destination list |
| `Pool.ElementPool.Alloc` | src/common/Pool.h:880-884 | the last free element is taken |
| `Pool.ElementPool.AllocAppend` | src/common/Pool.h:623-631 | the last free element becomes the last of the list, and all other lists are unchanged; with none free nothing changes and begin() is returned |
| `Pool.ElementPool.AllocPrepend` | src/common/Pool.h:633-641 | the last free element becomes the first of the list, and all other lists are unchanged; with none free nothing changes and end() is returned |
| `Pool.ElementPool.Bump` | src/common/Pool.h:99-103 | the element's counter stays its number of frees modulo 2^k |
| `Pool.ElementPool.Free` | src/common/Pool.h:643-647 | the element is the last of the freelist, also if it was in the freelist already, its counter is one up, the iterator is back at its fallback |
| `Pool.ElementPool.BumpAll` | src/common/Pool.h:891-897 | each element of the list is freed exactly once |
| `Pool.ElementPool.Clear` | src/common/Pool.h:649-656 | the whole list is at the end of the freelist, in order, and each element was freed once |
| `Pool.ElementPool.FreeRound` | src/common/Pool.h:643-647 | one round of the loop below |
| `Pool.ElementPool.FreeMatching` | src/common/Pool.h:643-647 | the loop with free() ends, tests each original element exactly once in order, leaves exactly the non-matching ones in order, and frees exactly the others, in order |
| `Pool.ElementPool.MoveRound` | src/common/Pool.h:270-276 | one round of the loop below |
| `Pool.ElementPool.MoveMatching` | src/common/Pool.h:270-276 | the same for the loop with moveToEndOf() another list |
| `Pool.ElementPool.IdLifetime` | src/common/Pool.h:813-859 | an ID leads back to its element exactly as long as the number of frees since then is a multiple of 2^k, and otherwise to nothing; only the all-ones ID is never accepted |
| `PoolIds.BitsForSize` | src/common/Pool.h:918-924 | the least b with n <= 2^b |
| `PoolIds.IdValue` | src/common/Pool.h:813-818 | IDs of elements are never zero and never overflow 64 bits |
| `PoolIds.IdsDistinct` | src/common/Pool.h:813-818 | different elements, and different counter values of one element, have different IDs |
| `PoolIds.FromIdOfGetId` | src/common/Pool.h:847-859 | fromID(getID(e)) is e exactly if the counter is unchanged and the ID is not all ones |
| `PoolIds.AllOnes` | src/common/Pool.h:848-850 | which element and counter have the all-ones ID |
| `PoolIds.AllOnesExample` | src/common/Pool.h:848-850 | with a counter of full width, a pool of one element whose current ID is all ones, and is not accepted |
| `PoolIds.NarrowCounterNeverAllOnes` | src/common/Pool.h:99-103 | a counter of less than the full width, as the int-width mask makes it, never gives the all-ones ID |
| `PoolIds.AcceptedIsCurrent` | src/common/Pool.h:847-859 | an accepted ID is the current ID of the element it leads to |
| `PoolIds.StaleIdRejected` | src/common/Pool.h:847-859 | a stale ID is rejected unless the frees since then are a multiple of the modulus |
| `DbPaths.CheckPathName` | src/db/InstrumentsDb.cpp:1721-1733 | throws exactly for two slashes in a row |
| `DbPaths.ToDbName` | src/db/InstrumentsDb.cpp:1803-1808 | every NUL becomes a slash |
| `DbPaths.ToDbRoundTrip` | src/db/InstrumentsDb.cpp:1803-1876 | names without slash and names without NUL are translated into each other without loss |
| `DbPaths.SplitNames` | src/db/InstrumentsDb.cpp:304-326 | the names in a proper path are non-empty and without slash |
| `DbPaths.ParentAndName` | src/db/InstrumentsDb.cpp:1713-1741 | a path leads along the names of its parent path and then its file name |
| `DbPaths.PrefixOfNames` | src/db/InstrumentsDb.cpp:618-623 | for proper paths, the comparison of strings agrees with the comparison of name lists |
| `DbPaths.StartsInsideIffLonger` | src/db/InstrumentsDb.cpp:618-623 | the string test of MoveDirectory() is true exactly if the destination's names begin with the directory's names and go on |
| `DbPaths.PathLeadsAlong` | src/db/InstrumentsDb.cpp:1797-1801 | every list of database names is the list of names of some path |
| `DirTree.RootAbove` | src/db/InstrumentsDb.cpp:304-326 | every directory is below the root |
| `DirTree.WalkFinds` | src/db/InstrumentsDb.cpp:304-326 | following names from the root finds the directory with exactly these names, or nothing |
| `DirTree.WalkComplete` | src/db/InstrumentsDb.cpp:304-326 | every directory is found by its names |
| `DirTree.BelowIffPrefix` | src/db/InstrumentsDb.cpp:618-623 | a directory is inside another exactly if its names begin with the other's names |
| `DirTree.AddKeepsTree` | src/db/InstrumentsDb.cpp:424-428 | a new row with a free name below an existing directory keeps the tree |
| `DirTree.AddKeepsNames` | src/db/InstrumentsDb.cpp:424-428 | all other directories keep their paths |
| `DirTree.MoveKeepsTree` | src/db/InstrumentsDb.cpp:633-636 | a new parent outside of the directory keeps the tree, with unique names |
| `DirTree.MoveIntoItselfBreaks` | src/db/InstrumentsDb.cpp:618-623 | a new parent inside of the directory would leave no tree, whatever the depths |
| `DirTree.MovedNames` | src/db/InstrumentsDb.cpp:633-636 | after a move the directories inside are found behind the new place, all others where they were |
| `DirTree.RootRenameKeepsTree` | src/db/InstrumentsDb.cpp:589-591 | renaming the root row keeps the tree |
| `DirTree.RemoveKeepsTree` | src/db/InstrumentsDb.cpp:474-500 | removing directories together with all that is in them keeps the tree |
| `DirTree.RemoveKeepsNames` | src/db/InstrumentsDb.cpp:474-500 | the remaining directories keep their paths |
| `DirTree.InsideByChild` | src/db/InstrumentsDb.cpp:461-472 | inside a directory is what is one of its children or inside one |
| `DirTree.SubtreesDisjoint` | src/db/InstrumentsDb.cpp:464-468 | the subtrees of different children have nothing in common |
| `DirTree.FitsByChild` | src/db/InstrumentsDb.cpp:461-468 | a subtree fits the level limit exactly if those of all children do, one level down |
| `DirTree.MakeChain` | src/db/InstrumentsDb.cpp:401-428 | a chain of any number of directories is a tree that adding leads to |
| `DirTree.ChainFits` | src/db/InstrumentsDb.cpp:461-468 | the first directory of a chain of n directories fits the limit exactly if n is at most the limit plus one |
| `InstrumentsDb.EveryDirectoryHasAPath` | src/db/InstrumentsDb.cpp:304-326 | for every directory there is a path string that leads to it |
| `InstrumentsDb.MoveTestIsExact` | src/db/InstrumentsDb.cpp:610-623 | the tests on ids and on path strings refuse exactly the destinations that are the directory or inside it |
| `InstrumentsDb.LookupLast` | src/db/InstrumentsDb.cpp:625-626 | the last name of the path is the name in the row, and the path does not lead to the root |
| `InstrumentsDb.TooDeepExample` | src/db/InstrumentsDb.cpp:461-463 | tables with 1002 nested directories, of which the first cannot be removed |
| `InstrumentsDb.AddIff` | src/db/InstrumentsDb.cpp:401-428 | in valid tables, a directory of any name can be added to any directory exactly if that has neither directory nor instrument of this name |
| `InstrumentsDb.RenameIff` | src/db/InstrumentsDb.cpp:564-591 | a directory can be renamed to any name exactly if that is not empty and is free in its parent |
| `InstrumentsDb.MoveIff` | src/db/InstrumentsDb.cpp:601-636 | a directory other than the root can be moved to another one exactly if that is not inside it and has its name free |
| `InstrumentsDb.RemoveIff` | src/db/InstrumentsDb.cpp:439-472 | a directory other than the root can be removed by force exactly if nothing is more than 1000 levels deeper, and without force exactly if nothing is in it |
| `InstrumentsDb.ChainRemoval` | src/db/InstrumentsDb.cpp:461-463 | the first directory of a chain of n can be removed by force exactly if n is at most 1001 |
| `InstrumentsDb.Database.constructor` | src/db/InstrumentsDb.cpp:70-71 | the new database is a tree of one directory |
| `InstrumentsDb.Database.SelectDirectory` | src/db/InstrumentsDb.cpp:328-335 | the one row with this parent and name, or -1 |
| `InstrumentsDb.Database.GetChildId` | src/db/InstrumentsDb.cpp:328-335 | the child of that name after translation of NULs |
| `InstrumentsDb.Database.GetInstrumentId` | src/db/InstrumentsDb.cpp:910-918 | the instrument of that directory and name, or -1 exactly if there is none; an empty name or unknown directory finds none |
| `InstrumentsDb.Database.GetDirectoryId` | src/db/InstrumentsDb.cpp:304-326 | the loop over the string follows the names in the path from the root, or throws for a double slash |
| `InstrumentsDb.Database.AddDirectory` | src/db/InstrumentsDb.cpp:401-437 | adds one row, found by the path afterwards, exactly if the path is proper, the parent exists and has neither directory nor instrument of that name; the tables stay a tree with unique names; the reason given for a refusal holds |
| `InstrumentsDb.Database.RenameDirectory` | src/db/InstrumentsDb.cpp:564-599 | changes one name, exactly if the directory exists and the new name is free among directories and instruments of the parent; the reason given for a refusal holds |
| `InstrumentsDb.Database.RenameRow` | src/db/InstrumentsDb.cpp:576-591 | the part on the tables |
| `InstrumentsDb.Database.MoveDirectory` | src/db/InstrumentsDb.cpp:601-645 | changes one parent, exactly if the destination is not inside the directory and the name is free there; the tables stay a tree; the reason given for a refusal holds |
| `InstrumentsDb.Database.MoveRow` | src/db/InstrumentsDb.cpp:628-636 | the part on the tables |
| `InstrumentsDb.Database.GetDirectoryIDs` | src/db/InstrumentsDb.cpp:256-262 | the children, each once, in any order |
| `InstrumentsDb.Database.IsDirectoryEmpty` | src/db/InstrumentsDb.cpp:502-510 | neither directories nor instruments inside |
| `InstrumentsDb.Database.RemoveAllDirectories` | src/db/InstrumentsDb.cpp:486-500 | all children are removed exactly if all of them are empty |
| `InstrumentsDb.Database.RemoveAllInstruments` | src/db/InstrumentsDb.cpp:956-962 | exactly the instruments of the directory are removed |
| `InstrumentsDb.Database.RemoveDirectoryContent` | src/db/InstrumentsDb.cpp:461-472 | succeeds exactly if nothing is deeper than level 1000, and then removes exactly what is inside; otherwise only rows inside are missing and the tables are still a tree |
| `InstrumentsDb.Database.RemoveSubtrees` | src/db/InstrumentsDb.cpp:464-468 | the loop over the children |
| `InstrumentsDb.Database.RemoveSubtree` | src/db/InstrumentsDb.cpp:466-468 | one round of it |
| `InstrumentsDb.Database.RemoveEmpty` | src/db/InstrumentsDb.cpp:474-484 | one empty directory is removed |
| `InstrumentsDb.Database.RemoveDirectory` | src/db/InstrumentsDb.cpp:439-459 | a forced remove deletes exactly the subtree and its instruments, for subtrees of at most 1000 levels; without force only an empty directory is removed; the root never |
| `InstrumentsDb.Database.RemoveById` | src/db/InstrumentsDb.cpp:450-451 | the part on the tables |
| `DbEscapes.ToEscapedText` | src/db/InstrumentsDb.cpp:1822-1831 | the in-place loop puts a backslash code for exactly the five special characters |
| `DbEscapes.ToNonEscapedText` | src/db/InstrumentsDb.cpp:1833-1854 | the loop resolves the codes from left to right, drops unknown ones, and throws exactly for a backslash at the end |
| `DbEscapes.TextRoundTrip` | src/db/InstrumentsDb.cpp:1822-1854 | every text is read back as it was written |
| `DbEscapes.EscapedLetters` | src/db/InstrumentsDb.cpp:1822-1831 | the escaping is character by character, with the five codes for backslash, the two quotes, carriage return and line feed |
| `DbEscapes.UnescapedCodes` | src/db/InstrumentsDb.cpp:1833-1854 | what each code stands for; unknown codes are dropped, and a lone backslash at the end throws |
| `DbEscapes.EscapedHasNothingBare` | src/db/InstrumentsDb.cpp:1822-1831 | an escaped text has no quote without its backslash and no line end, so it can stand between quotes |
| `WorkerThread.StepKeepsInv` | src/common/WorkerThread.cpp:30-90 | every critical section of any caller and of the worker keeps: jobs in order, and a non-empty queue has someone to look after it |
| `WorkerThread.RunKeepsInv` | src/common/WorkerThread.cpp:30-90 | it holds in every run |
| `WorkerThread.NoLostWakeup` | src/common/WorkerThread.cpp:30-90 | the jobs that Execute() was called with are run exactly once in that order, and whenever the worker sleeps with nobody about to wake it, the queue is empty and every given job was run |
| `WorkerThread.AcceptedIsGiven` | src/common/WorkerThread.cpp:30-34 | in every run the accepted jobs are those given to Execute(), in order, and each run job was run to its end once |
| `WorkerThread.WorkerStep` | src/common/WorkerThread.cpp:49-86 | the worker has a next step unless it sleeps unsignalled |
| `WorkerThread.WorkerCompletes` | src/common/WorkerThread.cpp:49-86 | from every reachable state without callers under way, the worker itself runs all accepted jobs within a bounded number of steps and then sleeps, without relying on spurious wake-ups |
| `WorkerThread.EveryJobIsRun` | src/common/WorkerThread.cpp:30-90 | after any run that leaves no call under way, the worker itself runs every job that was given, within a bounded number of steps |
| `WorkerThread.FlagFirstLoses` | src/common/WorkerThread.cpp:30-37 | setting the flag before queueing would lose a job in some run |
| `WorkerThread.LosesNothingIffQueueFirst` | src/common/WorkerThread.cpp:30-37 | no run leaves a given job behind if and only if the job is queued before the flag is set |
| `Path.ReplaceAll` | src/common/Path.cpp:69-77 | the search that goes on behind each replacement replaces every occurrence exactly once |
| `Path.ResolveEscapes` | src/common/Path.cpp:204-227 | the in-place loop computes the left-to-right decoding, including its treatment of broken escape sequences |
| `Path.DecodedEncoded` | src/common/Path.cpp:66-83 | decoding an encoded name gives the name back, and the encoded name has no slash |
| `Path.EncodedLetters` | src/common/Path.cpp:65-80 | the encoding is character by character: %% for %, %2f for a slash, all else as it is |
| `Path.DecodedOthers` | src/common/Path.cpp:204-227 | all other texts: plain characters stay, %% is a percent sign, and a % without two characters behind it becomes a question mark |
| `Path.SplitNodes` | src/common/Path.cpp:187-202 | the pieces between runs of slashes |
| `Path.NodesOfJoined` | src/common/Path.cpp:187-202 | splitting finds exactly the names that were joined |
| `Path.NodesOfPieces` | src/common/Path.cpp:188-202 | any number of slashes separates two names, and slashes at the ends do not matter |
| `Path.NodesShift` | src/common/Path.cpp:188-202 | what is found does not depend on what is before the place where the search begins |
| `Path.NotationOfNames` | src/common/Path.cpp:59-99 | every name has one slash before it, and the empty path is a single slash, in both notations |
| `Path.ToPosix` | src/common/Path.cpp:59-83 | the POSIX notation of the names |
| `Path.FromPosix` | src/common/Path.cpp:185-232 | the decoded pieces |
| `Path.ToDbPath` | src/common/Path.cpp:85-98 | the database notation of the names |
| `Path.FromDbPath` | src/common/Path.cpp:234-255 | the pieces with NULs turned into slashes |
| `Path.PosixRoundTrip` | src/common/Path.cpp:59-232 | for every list of non-empty names, whatever characters they contain, fromPosix(toPosix(p)) restores the names |
| `Path.DbPathRoundTrip` | src/common/Path.cpp:85-255 | fromDbPath(toDbPath(p)) restores the names if and only if no name contains a NUL |
| `Path.DecodedHex` | src/common/global_private.cpp:120-153 | the values of all 22 hexadecimal digits; % and two digits stand for the character of that number, and for nothing if it is 0 |
| `ResourceManager.EntrySet` | src/common/ResourceManager.h:201-248 | changing one entry changes the set of held resources by its own resource only |
| `ResourceManager.EntryErased` | src/common/ResourceManager.h:260-282 | removing an entry removes exactly its own resource from that set |
| `ResourceManager.Manager.constructor` | src/common/ResourceManager.h:115-130 | no entries, nothing alive |
| `ResourceManager.Manager.Borrow` | src/common/ResourceManager.h:201-248 | creates only what does not exist yet and hands out a live resource; a new entry is on demand with this one consumer; if Create() throws, nothing has changed |
| `ResourceManager.Manager.HandBack` | src/common/ResourceManager.h:260-282 | the entry goes, and its live resource is destroyed, exactly if nothing keeps it any more |
| `ResourceManager.Manager.Erase` | src/common/ResourceManager.h:270-276 | the destroyed resource was alive, so nothing is destroyed twice |
| `ResourceManager.Manager.SetAvailabilityMode` | src/common/ResourceManager.h:361-411 | 0, 1 and 2 are on demand, on demand with hold, and persistent; any other number is refused without any change; otherwise the key has the new mode, an entry exists exactly if there is a reason, consumers and custom data are kept, and the resource is created exactly if it is to be persistent and there is none |
| `ResourceManager.Manager.SetCustomData` | src/common/ResourceManager.h:455-481 | the resources alive are those of the entries, plus the leaked ones; a resource is leaked exactly if the data of an on-demand entry without consumers, but with a resource, is taken away |
| `ResourceManager.Manager.Update` | src/common/ResourceManager.h:295-330 | all consumers but the asking one are told before and after, in the same order and each with its own argument and the right addresses at the right place of the log, around one destroy and one create; if Create() throws, the entry keeps the destroyed resource, so the books are no longer right, unless it was NULL |
| `ResourceManager.Manager.ReplaceResource` | src/common/ResourceManager.h:313-315 | the old resource is replaced by the new one, also if the new one has the same address |
| `ResourceManager.Announce` | src/common/ResourceManager.h:303-311 | who is told before the update, and which arguments are kept |
| `ResourceManager.AnnouncedTellsAll` | src/common/ResourceManager.h:303-311 | each consumer of the list is told, in order, with the resource that is about to go |
| `ResourceManager.ConfirmedTellsAll` | src/common/ResourceManager.h:317-324 | each consumer of the list is told, in order, with the old and the new resource and the argument it has given itself |
| `ResourceManager.Confirm` | src/common/ResourceManager.h:317-324 | who is told afterwards, and with which argument |
| `ResourceManager.LeakingRun` | src/common/ResourceManager.h:455-481 | a run that leaks a resource through SetCustomData(key, NULL) |
| `ResourceManager.ThrowingUpdateRun` | src/common/ResourceManager.h:313-315 | a run after which an entry holds a destroyed resource |

## Left out

- Memory orders weaker than store buffers: loads are not reordered, and stores of one thread become visible in order.
- Readers that are constructed or destroyed while the protocol runs, and the sleep between two polling passes.
- The linked list that `SwitchConfig()` threads through the readers is a sequence in the model.
- Nodes of the tree and of the pool are identifiers in maps of links, not heap objects: every write of the source is a write to these maps, and aliasing is equality of identifiers. Keys of the tree are integers.
- The tree without the safety flag (`T_SAFE` = false), where inserting or erasing is not guarded by membership; with the guard, the exit of `erase()` for an empty tree is never taken.
- `after()`, `before()`, `width()` and `dumpTree()` of the tree.
- `getopt_long_only()`, the modes without permutation and with arguments in order, `POSIXLY_CORRECT` and error messages.
- The index of the long option and the store through its flag pointer; only the value 0 that is returned with a flag is modelled.
- Getopt.Parser.Run: stops where a long option behind `--` has no flag and the value -1. The source takes this for "no long option" and goes on with the letters of the name while optind is already behind the word; later calls can so read behind the name or the vector.
- Getopt.Parser.OptionPart: ends there, too.
- Getopt.Parser.Call: ends there, too.
- Getopt.Parser.constructor: an empty vector, for which the first call returns -1 at once.
- `_NonVolatileReader` and `resize()` of the ring buffer, and its reading functions that do not copy.
- `resizePool()`, the copy constructor of `RTList`, decrementing iterators and the checks of the development mode.
- Pool.ElementPool.constructor: the width of the reincarnation counter is a parameter, because the source builds its mask with a shift of an `int`.
- Instruments are rows that only a forced remove deletes; adding, renaming, moving and copying instruments, `CopyDirectory()`, searching, file scanning, time stamps, listeners and transactions.
- `GetDirectoryPath()` for an id, `GetUniqueName()` and `toEscapedPath()`.
- WorkerThread.NoLostWakeup: the worker is running and is never cancelled; the wait of the worker up to `Unlock()` is one critical section, so locking the condition's mutex twice in `Set(false)` is not modelled.
- Timeouts of `WaitIf()` and of the condition server.
- `toLscp()`, Windows notation, drives and the absolute flag of a path.
- ResourceManager.Manager.Update: after a `Create()` that throws, the source also leaves its mutex locked.
- Locking, `lifearg` and the progress notifications of the resource manager.
- Sampler and channel wiring, drivers, engines and platform plumbing.
