# Lifetime, modelled in Dafny

This project models the core of the Lifetime repository: a set of course exercises in C, C++ and
Python, and the level scripts of a browser escape-room game. One Dafny module or more stands for
each core source file, in the form that file has:

- **Bitonic sort** (`bitonic.cpp`, `bitonic_omp.cpp`, `bitonic_mpi.cpp`). The compare loop,
  `bitonicMerge` and `bitonicSort` are methods on an `array<int>` proved against range-level
  functions (`BitonicSpec`). `ZeroOne` proves that the network sorts every power-of-two input by
  the 0-1 principle. The OpenMP tasks are shown to give the same array in either order. The MPI
  program is modelled rank by rank: the scatter, the local sorts, the stage/step schedule of
  `compareExchange` and the k-way heap merge at rank 0.
- **Small Python exercises**: the two maximum searches (a linear scan in `largestA.py`, a pairwise
  tournament in `largestB.py`),
  linear search (`linearSeach.py`) and pigeonhole sort (`pigeonholeSort.py`), as methods with
  loops and invariants.
- **`dataStruc/myVector.cpp`**: a class over a growable `array<int>`, with the source's own growth
  and copy steps.
- **`Calculator/functions.py`**: a class holding the calculator's module state (equation text,
  display, answers, history and history position) and its button handlers.
- **The 8-puzzle searches** (`BFS.py`, `GBFS.py`, `UCS.py`): the board and its moves
  (`EightPuzzle`), Python's `heapq` frontier (`PyHeap`), and the three searches. Each search
  returns a path that reaches the goal, or reports failure only when no path exists.
- **`Shell.c`**: the line preparation that spaces out `>` and `&`, the `strsep` tokenizer that
  cuts a line into `&`-separated commands and each command into arguments, the redirection
  scan, the built-in commands (`exit`, `cd`, `path`) and the search of the path list.
- **`fractal.cpp`**: the Julia-set image and its six kernels (serial, collapsed, and cyclic and
  block distributions over rows and over columns). The threads' row or column slots are shown
  to be disjoint and to cover the image, and every kernel leaves the same reference image.
- **The game levels**: the kitchen (`kitchen.js`), timed kitchen (`temp.js`), living room
  (`living-room.js`), bedroom (`bedroom.js`), platforms (`platforms.js`), secret room
  (`secretRoom.js`) and demon room (`workInProgress.js`). Each level is a class whose methods are
  the key and interaction handlers, with the keypad codes, riddle answers, pause/resume and
  level completion proved as lemmas. Shared pieces are in `Keypad`, `Levels`, `RiddleAnswer` and
  `Text`.
- **`character-loader.js`**: the animation-clip lookup and the mesh preparation.
- **`script.js`**: the site script's active-link marking, card colours and back link.

Small shared modules: `Optional` (a value that may be missing), `Sets` (set sizes) and `Text`
(decimal digits, lower-casing, white space, and cutting a string at a delimiter as `strsep` and
`split` do).

Integers are unbounded. Where the source relies on a fixed width, the model says so explicitly.
Rendering, physics, timers, randomness, the file system and the network are not modelled; their
results become parameters of the methods that use them.

## Model

| member | source | states |
|---|---|---|
| `Bitonic.Swap` | bitonic.cpp:80-85 | entries i and j are exchanged and no other entry changes |
| `Bitonic.CompareLoop` | bitonic.cpp:98-102 | the compare loop leaves each pair (i, i + k) of the range in direction dir, as the index-by-index `PairsDone` describes; the rest of the array is unchanged |
| `Bitonic.BitonicMerge` | bitonic.cpp:92-105 | the range [low, low + size) ends up holding `Merge` of its old contents and nothing outside it changes |
| `Bitonic.BitonicSort` | bitonic.cpp:112-124 | the range ends up holding `Sort` of its old contents and nothing outside it changes |
| `Bitonic.SortRangeCorrect` | bitonic.cpp:112-124 | the sorted range holds the same multiset of values and, when its size is a power of two, is ordered in direction dir |
| `Bitonic.SortWhole` | bitonic.cpp:41 | `BitonicSort(arr, 0, size, true)` on a whole power-of-two array leaves it ascending and a permutation of the input |
| `Bitonic.IsPowerOf2` | bitonic.cpp:129-136 | the answer is true exactly for the powers of two 1, 2, 4, ... (false for n <= 0) |
| `Bitonic.IsSorted` | bitonic.cpp:69-74 | the answer is true exactly when every entry before size - 1 is at most its successor |
| `Bitonic.SortAndCheck` | bitonic.cpp:29-47 | a size that is not a power of two is refused with the array unchanged; otherwise the array ends ascending, is a permutation of the input, and the check passes |
| `BitonicSpec.CompareSwap` | bitonic.cpp:99-101 | the lower position receives the value the direction puts first (min ascending, max descending) and the upper one the other |
| `BitonicSpec.CompareSwapKeeps` | bitonic.cpp:99-101 | a compare-exchange leaves every position outside its pair unchanged |
| `BitonicSpec.CompareSwapPermutes` | bitonic.cpp:99-101 | a compare-exchange keeps the multiset of values |
| `BitonicSpec.PassAt` | bitonic.cpp:98-102 | after m iterations of the compare loop, each pair (p, p + k) with p < m holds its two values in order and every other position is unchanged |
| `BitonicSpec.PassOrdersPairs` | bitonic.cpp:98-102 | after the full loop, entry p and entry p + k are in direction dir for every p < k |
| `BitonicSpec.PassPermutes` | bitonic.cpp:98-102 | the compare loop keeps the multiset of values |
| `BitonicSpec.MergeStep` | bitonic.cpp:92-105 | one level of the merge is the compare loop followed by the two half merges, lower half first |
| `BitonicSpec.SortStep` | bitonic.cpp:112-124 | one level of the sort is the ascending lower half, the descending upper half, then the merge |
| `BitonicSpec.MergePermutes` | bitonic.cpp:92-105 | the merge keeps the multiset of the range |
| `BitonicSpec.SortPermutes` | bitonic.cpp:112-124 | the sort keeps the multiset of the range |
| `BitonicSpec.SmallRangeUnchanged` | bitonic.cpp:94 | a range of size 0 or 1 is left as it is by both procedures |
| `BitonicSpec.SortedConcat` | bitonic.cpp:119-123 | two sorted parts where every value of the first is in order with every value of the second concatenate to a sorted sequence |
| `BitonicSpec.AdjacentSorted` | bitonic.cpp:69-74 | checking neighbouring entries, as isSorted does, is the same as the whole sequence ascending |
| `BitonicSpec.IsPow2Iff` | bitonic.cpp:129-136 | the halving test accepts exactly the numbers 2^k |
| `ZeroOne.MapMerge` | bitonic.cpp:92-105 | an order-preserving map commutes with the merge; an order-reversing one reverses its direction |
| `ZeroOne.MapSort` | bitonic.cpp:112-124 | a monotone map commutes with the sort |
| `ZeroOne.MergeBlockSorted` | bitonic.cpp:92-105 | the merge sorts every 0/1 block shape (a run of one value inside the other) of power-of-two length |
| `ZeroOne.PassSplitsBlock` | bitonic.cpp:98-102 | the compare loop over a run of ones splits it into two half-size block shapes |
| `ZeroOne.SortZeroOneSorted` | bitonic.cpp:112-124 | the sort orders every 0/1 input whose length is a power of two |
| `ZeroOne.SortSorts` | bitonic.cpp:112-124 | by the 0-1 principle, the sort orders every input whose length is a power of two, in direction dir |
| `BitonicOmp.TaskCutOff` | bitonic_omp.cpp:47 | the cutoff is at least 1024 and at least size / (nThreads * 12), and equals one of them |
| `BitonicOmp.MergeUpperFirst` | bitonic_omp.cpp:119-125 | the two merge tasks touch disjoint halves, so running the upper one first gives the same array |
| `BitonicOmp.SortUpperFirst` | bitonic_omp.cpp:142-150 | the two sort tasks touch disjoint halves, so running the upper one first gives the same array |
| `BitonicOmp.BitonicMergeOMP` | bitonic_omp.cpp:106-126 | in either order of its two tasks, the range ends up holding `Merge` of its old contents and nothing else changes |
| `BitonicOmp.MergeTasks` | bitonic_omp.cpp:119-125 | the two merge tasks leave both halves merged, in either order |
| `BitonicOmp.BitonicSortOMP` | bitonic_omp.cpp:134-152 | in either order of its two tasks, the range ends up holding `Sort` of its old contents and nothing else changes |
| `BitonicOmp.SortTasks` | bitonic_omp.cpp:142-150 | the two sort tasks leave the lower half ascending and the upper half descending, in either order |
| `BitonicOmp.TimedRun` | bitonic_omp.cpp:43-59 | arr is refilled from orig and sorted; it is a permutation of orig, the check reports exactly whether it ascends, and it does for a power-of-two size |
| `BitonicMpi.BitonicMerge` | bitonic_mpi.cpp:156-166 | the range ends up holding `Merge` of its old contents and nothing else changes |
| `BitonicMpi.BitonicSortLocal` | bitonic_mpi.cpp:173-180 | the range ends up holding `Sort` of its old contents and nothing else changes |
| `BitonicMpi.IsSorted` | bitonic_mpi.cpp:185-190 | the answer is true exactly when the vector ascends |
| `BitonicMpi.LocalCount` | bitonic_mpi.cpp:55-62 | a size n is skipped exactly when the process count does not divide it; otherwise local_n * size == n |
| `BitonicMpi.StageCount` | bitonic_mpi.cpp:84-85 | stages is the floor of log2(size): 2^stages <= size < 2^(stages+1), and exactly log2(size) for a power of two |
| `BitonicMpi.PartnerDiffers` | bitonic_mpi.cpp:89 | `rank ^ (1 << step)` is never the rank itself |
| `BitonicMpi.PartnerInvolutive` | bitonic_mpi.cpp:89 | the partner's partner is the rank itself, so exchanges pair up |
| `BitonicMpi.PartnerSameDir` | bitonic_mpi.cpp:89-91 | since step <= stage, a rank and its partner compute the same dir |
| `BitonicMpi.SwapLoop` | bitonic_mpi.cpp:208-220 | local ends with the pairwise values dir puts first and recvbuf with the other value of each pair |
| `BitonicMpi.PairOrdered` | bitonic_mpi.cpp:208-220 | after the swap loop each pair is in the order dir asks for and holds the same two values |
| `BitonicMpi.PairSplitKeeps` | bitonic_mpi.cpp:208-220 | the swap loop keeps the multiset of the two buffers together |
| `BitonicMpi.PairAscending` | bitonic_mpi.cpp:208-220 | the pairwise smaller and larger values of two ascending buffers are ascending |
| `BitonicMpi.PairSymmetric` | bitonic_mpi.cpp:204-220 | the swap loop gives the same pairs whichever partner runs it |
| `BitonicMpi.CompareExchange` | bitonic_mpi.cpp:200-227 | as written, both partners end with the same buffer: the pairwise smaller values for dir == 1, the larger otherwise |
| `BitonicMpi.ExchangeLosesValues` | bitonic_mpi.cpp:222-226 | the as-written exchange can lose values: [1] and [2] ascending both become [1] |
| `BitonicMpi.CompareSplit` | bitonic_mpi.cpp:200-227 | the corrected exchange gives one partner the pairwise lower values and the other the higher ones, keeping the multiset of both buffers |
| `BitonicMpiRun.ExchangeRound` | bitonic_mpi.cpp:88-94 | one (stage, step) round gives every rank the buffer compareExchange leaves it, and keeps the rank count and buffer lengths |
| `BitonicMpiRun.RoundValues` | bitonic_mpi.cpp:88-94 | a round hands every rank only values some rank held before |
| `BitonicMpiRun.RoundAscending` | bitonic_mpi.cpp:88-94 | a round keeps ascending buffers ascending |
| `BitonicMpiRun.Schedule` | bitonic_mpi.cpp:87-96 | the stage and step loops keep buffer lengths, introduce no new values, and keep ascending buffers ascending |
| `BitonicMpiRun.Scatter` | bitonic_mpi.cpp:73-77 | rank r's local buffer is data[r*local_n .. (r+1)*local_n) |
| `BitonicMpiRun.LocalSort` | bitonic_mpi.cpp:82 | rank r's buffer after the local sort is `Sort` of its chunk, ascending |
| `BitonicMpiRun.ScatterSort` | bitonic_mpi.cpp:73-82 | every rank holds the local sort of its own chunk |
| `BitonicMpiRun.LocalSortsKeep` | bitonic_mpi.cpp:73-82 | after the local sorts every buffer holds local_n values of the data, ascending when local_n is a power of two |
| `BitonicMpiRun.SortN` | bitonic_mpi.cpp:54-127 | one size n: skipped exactly when size does not divide n; otherwise fully_sorted holds n values of the data, the check reports exactly whether they ascend, and they do when local_n is a power of two |
| `BitonicMpiMerge.MinAt` | bitonic_mpi.cpp:117 | top() is a node at most every node of the heap in the (value, chunk, index) order |
| `BitonicMpiMerge.RemoveAt` | bitonic_mpi.cpp:118 | pop() removes exactly the top node and keeps every other node |
| `BitonicMpiMerge.Refill` | bitonic_mpi.cpp:120-124 | after a pop, the next node of the same chunk is pushed, or nothing once the chunk is used up |
| `BitonicMpiMerge.FirstNodes` | bitonic_mpi.cpp:112-113 | the first loop pushes the first node of every chunk |
| `BitonicMpiMerge.TopIsLeast` | bitonic_mpi.cpp:116-119 | when every chunk ascends, the top value is at most every value not yet emitted |
| `BitonicMpiMerge.PopPush` | bitonic_mpi.cpp:117-124 | one round pops the top and pushes the next node of its chunk |
| `BitonicMpiMerge.Round` | bitonic_mpi.cpp:116-125 | one round emits the top value into fully_sorted and keeps the merge invariant: heap plus output plus what remains is the data, and the output ascends below what remains |
| `BitonicMpiMerge.HeapMerge` | bitonic_mpi.cpp:106-125 | fully_sorted is a permutation of the gathered data, and ascending when every chunk is ascending |
| `Largest.MaxFrom` | largestA.py:4-9 | the result is at least the sentinel and every value, and is the sentinel or one of the values |
| `Largest.LargestA` | largestA.py:3-10 | with N <= 0 the sentinel -1000000 comes back; otherwise the greatest of the sentinel and the first N entries |
| `Largest.LargestAIsMax` | largestA.py:3-10 | the result is at least every entry among the first N and, once one of them exceeds the sentinel, it is one of them |
| `Largest.Winners` | largestB.py:5-17 | one round leaves (N + 1) / 2 values |
| `Largest.WinnersKeepMax` | largestB.py:5-17 | a round of pairwise winners keeps the greatest value |
| `Largest.WinnerAt` | largestB.py:9-13 | pair (pos, pos + 1) leaves the greater of its two values at position pos / 2 |
| `Largest.LastCarried` | largestB.py:14-16 | with N odd the last value is carried over unchanged |
| `Largest.Round` | largestB.py:5-17 | the inner loop writes the round's winners over the front of the list, leaves the rest as it was, and shrinks N to (N + 1) / 2 |
| `Largest.LargestB` | largestB.py:3-18 | for N >= 1 the answer is the greatest of the first N entries and the entries from N on are untouched; for N <= 1 it is myList[0] |
| `LinearSearch.Search` | linearSeach.py:5-11 | the answer is true exactly when the key is in the list |
| `LinearSearch.Covered` | linearSeach.py:13-22 | a list without repeats that holds every value 0 .. n - 1 has at least n entries |
| `LinearSearch.MakeMyList` | linearSeach.py:13-22 | the list holds no repeats, only values 0 .. n_size - 2, exactly the distinct draws used; it stops at n_size - 1 values, which it reaches once every value has been drawn |
| `LinearSearch.RemoveFirst` | linearSeach.py:28 | `remove(key)` of a present key takes away one occurrence and keeps every other value |
| `LinearSearch.BestCase` | linearSeach.py:25-37 | the key moved to the front, the list is a permutation of the old one, and the search finds the key |
| `LinearSearch.WorstCase` | linearSeach.py:51-62 | the key moved to the back, the list is a permutation of the old one, and the search finds the key |
| `PigeonholeSort.Holes` | pigeonholeSort.py:6-7 | there are maX + 1 holes |
| `PigeonholeSort.Counts` | pigeonholeSort.py:9-11 | hole v holds the number of values whose hole (with negative indexing) is v |
| `PigeonholeSort.ExpandSorted` | pigeonholeSort.py:13-19 | what the write-back has written ascends and holds only hole numbers below the current one |
| `PigeonholeSort.ExpandCount` | pigeonholeSort.py:13-19 | after holes 0 .. j - 1, value v occurs hole[v] times when v < j and not at all otherwise |
| `PigeonholeSort.CountingSortCorrect` | pigeonholeSort.py:3-20 | the result ascends, has n entries and is a permutation of the values' holes |
| `PigeonholeSort.SortsInRange` | pigeonholeSort.py:3-20 | for values inside 0 .. maX the result is the input sorted ascending (a permutation of it) |
| `PigeonholeSort.Fill` | pigeonholeSort.py:17-19 | the inner loop writes count copies of j from idx on and changes nothing else |
| `PigeonholeSort.Count` | pigeonholeSort.py:9-11 | the counting loop leaves hole[v] equal to the number of the first n values that land in hole v |
| `PigeonholeSort.PigeonholeSortInPlace` | pigeonholeSort.py:3-20 | the first n entries become the counting sort of what they held, the rest is unchanged, and the same list is returned |
| `MyVectorModel.Grown` | dataStruc/myVector.cpp:40-42 | after the growth check there is room for one more item: the capacity stays or doubles |
| `MyVectorModel.MyVector.constructor` | dataStruc/myVector.cpp:13-17 | a new vector has no items and one slot |
| `MyVectorModel.MyVector.Empty` | dataStruc/myVector.cpp:21-26 | as written, the answer is false exactly when there are no items |
| `MyVectorModel.MyVector.Size` | dataStruc/myVector.cpp:30-32 | the answer is the number of items |
| `MyVectorModel.MyVector.Reallocate` | dataStruc/myVector.cpp:106-114 | a fresh array of NewSize slots holds the same items |
| `MyVectorModel.MyVector.PushBack` | dataStruc/myVector.cpp:36-45 | the items become the old items followed by the element, with the capacity doubled when it was full |
| `MyVectorModel.MyVector.PopBack` | dataStruc/myVector.cpp:48-51 | an empty vector reports the error and stays as it is; otherwise the last item is dropped |
| `MyVectorModel.MyVector.PushFront` | dataStruc/myVector.cpp:55-71 | the element comes first and the old items follow; on an empty vector the element is stored twice, as written |
| `MyVectorModel.MyVector.ShiftIn` | dataStruc/myVector.cpp:63-70 | a fresh array of the same size holds the element followed by the old items |
| `MyVectorModel.MyVector.PopFront` | dataStruc/myVector.cpp:74-80 | an empty vector reports the error and stays as it is; otherwise the first item is dropped and the rest move left |
| `MyVectorModel.MyVector.InsertAt` | dataStruc/myVector.cpp:85-102 | as written: past the items the element is appended (and, with room left, copied once more); a full vector is only grown; otherwise the element replaces item idx and the count grows by one |
| `MyVectorModel.MyVector.CopyOver` | dataStruc/myVector.cpp:89-101 | the else branch of insertAt: the items before idx stay, idx holds the element, the items after idx stay, and the count grows by one |
| `Calculator.KeyText` | Calculator/functions.py:20 | `str(num)` of an int is its decimal digits, which read back as the number; a string appends itself |
| `Calculator.State.constructor` | Calculator/functions.py:3 | the shared state starts with empty text and display, no history and no answers |
| `Calculator.State.ButtonPress` | Calculator/functions.py:4-22 | a digit press after an evaluation starts a new text; "answer" and "preAnswer" replace the text with that answer (or nothing); "decimal" appends "."; anything else appends its text; the display shows the text |
| `Calculator.State.Equals` | Calculator/functions.py:24-43 | on a value, a non-blank text joins the history, the index moves past it, the answers shift and the value is shown; on a division by zero or a syntax error the text clears and the message is shown |
| `Calculator.State.Clear` | Calculator/functions.py:45-47 | text and display become empty and nothing else changes |
| `Calculator.State.NavigateUp` | Calculator/functions.py:49-53 | with a history, the index moves one back, stopping at 0, and its entry is shown; with none nothing changes |
| `Calculator.State.NavigateDown` | Calculator/functions.py:55-59 | with a history, the index moves one forward, stopping at the newest entry, and its entry is shown; with none nothing changes |
| `EightPuzzle.MakeBoard` | BFS.py:4-5 | the board has one row per started group of three characters |
| `EightPuzzle.Cells` | BFS.py:8-13 | the state string has nine cells, cell k being row k / 3, column k % 3 of the board |
| `EightPuzzle.MakeString` | BFS.py:8-13 | the nested loops produce the cells of the board row by row |
| `EightPuzzle.StringRoundTrip` | BFS.py:4-13 | a nine-character state survives makeBoard then makeString, and makeBoard gives three rows of three |
| `EightPuzzle.BoardRoundTrip` | BFS.py:4-13 | a 3 by 3 board survives makeString then makeBoard |
| `EightPuzzle.FirstMover` | BFS.py:25-28 | the scan stops at a blank, at or after the starting cell, that can slide in the action's direction |
| `EightPuzzle.NoMover` | BFS.py:22-66 | when the scan finds nothing, no blank from that cell on can slide in the action's direction |
| `EightPuzzle.Moved` | BFS.py:22-66 | a move keeps nine cells and the same tiles |
| `EightPuzzle.MoveResult` | BFS.py:32-36 | makeMove returns nothing exactly when no blank can slide; otherwise a 3 by 3 board and its string, which agree |
| `EightPuzzle.MakeMove` | BFS.py:22-66 | the row-by-row scan returns the board and string of the first possible slide, or nothing |
| `EightPuzzle.TryCell` | BFS.py:27-44 | one cell of the scan moves exactly when it holds a blank whose neighbour in the action's direction is on the grid |
| `EightPuzzle.SlideBoard` | BFS.py:32-36 | the copied board has '#' on the neighbour and the neighbour's tile on the blank's cell |
| `EightPuzzle.SlideCells` | BFS.py:32-36 | the board update is the same swap on the state string |
| `EightPuzzle.LastBlank` | BFS.py:71-74 | the first loop of availActions ends on the last blank in row-major order |
| `EightPuzzle.FindBlank` | BFS.py:71-74 | spaceY and spaceX are the row and column of the last blank |
| `EightPuzzle.Offered` | BFS.py:75-79 | an action is offered exactly when it is in the table and keeps the blank on the grid |
| `EightPuzzle.AvailActions` | BFS.py:68-80 | availActions returns the actions of the table, in table order, that keep the last blank on the grid |
| `EightPuzzle.AvailExact` | BFS.py:68-80 | an action is offered exactly when it keeps the last blank on the grid, and the offers come in table order UP, DOWN, LEFT, RIGHT without repeats |
| `EightPuzzle.AvailMoves` | BFS.py:68-80 | every offered action lets makeMove move, so the unpacking in the searches never meets None |
| `EightPuzzle.SingleBlankMove` | BFS.py:22-66 | with one blank, a move happens exactly when its neighbour is on the grid; the blank and that tile swap and every other cell stays |
| `PuzzleSearch.Run` | BFS.py:105-106 | following offered moves keeps nine cells and the same tiles |
| `PuzzleSearch.RunStep` | BFS.py:105-106 | one more offered action extends a path by makeMove's result |
| `PuzzleSearch.ReachClosed` | BFS.py:102-111 | a set of states containing the start and closed under offered moves contains every state a path reaches |
| `PuzzleSearch.StatesCard` | BFS.py:100-111 | a log has no more distinct states than entries, and as many only when no state repeats |
| `PuzzleSearch.Offers` | BFS.py:104-105 | the board of a state and the actions availActions offers on it |
| `PuzzleSearch.Successor` | BFS.py:106 | makeMove on an offered action gives the state `Moved` describes |
| `PuzzleSearch.LoggedClosed` | BFS.py:102-112 | a search whose every logged state has been expanded has logged every reachable state |
| `BreadthFirst.Expand` | BFS.py:105-111 | the inner loop tries every offered action in order; a successor equal to the goal is returned with a path one longer than the popped depth, and every new successor is enqueued and explored |
| `BreadthFirst.Exhausted` | BFS.py:112 | when the frontier empties, no path reaches the goal |
| `BreadthFirst.LogShape` | BFS.py:98-111 | no state is enqueued twice and depths never decrease along the queue |
| `BreadthFirst.Bfs` | BFS.py:92-112 | depth 0 when start equals goal; otherwise a depth d with a path of d offered moves from start to goal; or -1 and None, and then no path reaches the goal |
| `PyHeap.StrLtTotal` | GBFS.py:23-34 | Python's string order is total, so heappop's choice is determined |
| `PyHeap.PopMin3` | GBFS.py:26 | heappop takes an entry below every other entry in tuple order, so its heuristic is the least, and leaves the rest |
| `PyHeap.PopMin2` | UCS.py:16 | heappop takes an entry below every other entry in tuple order, so its cost is the least, and leaves the rest |
| `GreedyBestFirst.PathCostIsLength` | GBFS.py:4-6 | with every action costing 1, a path's cost is its number of moves |
| `GreedyBestFirst.IndexOf` | GBFS.py:12 | `goalState.index(tile)` is the first position of the tile |
| `GreedyBestFirst.GridDistance` | GBFS.py:13-15 | the distance of two cells is non-negative and zero exactly for the same cell |
| `GreedyBestFirst.HeuristicZero` | GBFS.py:8-16 | the Manhattan distance is zero exactly when every tile is where the goal's index puts it |
| `GreedyBestFirst.HeuristicSelf` | GBFS.py:8-16 | a state with distinct tiles is at distance zero from itself |
| `GreedyBestFirst.Manhattan` | GBFS.py:8-16 | the loop sums the grid distance of every non-blank tile to its goal position |
| `GreedyBestFirst.GreedyExhausted` | GBFS.py:35 | when nothing is pending, no path reaches the goal |
| `GreedyBestFirst.Expand` | GBFS.py:30-34 | the for loop pushes every unvisited successor once, logging it with depth + 1 |
| `GreedyBestFirst.Gbfs` | GBFS.py:18-35 | 0 when start equals goal; otherwise a depth d with a path of d offered moves to the goal; or None, and then no path reaches the goal; no state is pushed twice |
| `UniformCost.ActionCost` | UCS.py:3-5 | UP costs 5 and DOWN, LEFT and RIGHT cost 1 |
| `UniformCost.PathCost` | UCS.py:26-27 | a path costs between its length and five times its length |
| `UniformCost.PathCostStep` | UCS.py:26-27 | one more move adds its actionCost, as newCost = moveCost + cost does |
| `UniformCost.PopState` | UCS.py:16-17 | the popped entry is reached by a path of its cost, no other heap entry is cheaper, and a recorded state is recorded no dearer |
| `UniformCost.Expand` | UCS.py:24-29 | the for loop pushes (cost + actionCost, successor) for every offered action whose successor is new or cheaper than recorded |
| `UniformCost.SearchExhausted` | UCS.py:30 | once the heap is empty, no path reaches the goal |
| `UniformCost.ExpandedShape` | UCS.py:17-22 | no state is expanded twice, none is the goal, and expansions come in order of cost |
| `UniformCost.Visit` | UCS.py:16-29 | one turn of the while loop: skip a state recorded no dearer, return the goal with its cost, or record and expand the state |
| `UniformCost.Ucs` | UCS.py:7-30 | (0, 0) when start equals goal; otherwise a cost c with a path of cost c to the goal, no cheaper than any state expanded before; or None once the heap empties, and then no path reaches the goal; expansion counts the expanded states |
| `ShellLine.Emit` | Shell.c:335-342 | one input character adds one to three output characters after what was written |
| `ShellLine.PrepLength` | Shell.c:331-346 | prep_line's output is at least as long as its input and at most three times as long, so an input under a third of 1024 fits temp |
| `ShellLine.Put` | Shell.c:336-341 | `temp[j++] = x` appends x to the written prefix |
| `ShellLine.EmitInto` | Shell.c:335-342 | one turn of the loop writes exactly the characters `Emit` adds |
| `ShellLine.PrepLine` | Shell.c:331-346 | the loop and the strcpy leave `Prep` of the line |
| `ShellLine.PrepFollowed` | Shell.c:338 | in the output every '>' and '&' is followed by a space, except at the very end |
| `ShellLine.PrepPreceded` | Shell.c:336 | in the output every '>' and '&' past the first position is preceded by a space |
| `ShellLine.PrepUnspaced` | Shell.c:331-346 | prep_line only adds spaces: deleting spaces from its output gives the input with spaces deleted |
| `ShellLine.PrepPlain` | Shell.c:340-342 | a line without '>' or '&' comes back unchanged |
| `Text.Strsep` | Shell.c:58 | strsep returns the piece before the first delimiter and the rest after it, or the whole string and NULL |
| `Text.PiecesJoin` | Shell.c:58-59 | strsep cuts a string exactly at its delimiters: no piece holds the delimiter, and joining the pieces with it gives the string back |
| `ShellLine.NonEmpty` | Shell.c:67 | the parsing loops keep the non-empty pieces, in order |
| `ShellLine.TokensSpell` | Shell.c:66-69 | the tokens of a command are non-empty, hold no space, and spell the command without its spaces |
| `ShellLine.StrsepStep` | Shell.c:66-69 | one strsep call splits off the next piece and leaves the rest's pieces |
| `ShellLine.Tokenize` | Shell.c:61-70 | the corrected token loop: argv holds the tokens in order, or the command is refused when it has 50 tokens or more |
| `ShellLine.ArgvOverflow` | Shell.c:61-70 | as written, for any count a line of that many tokens passes prep_line unchanged, so 50 tokens or more are written into argv[50] |
| `ShellCommands.FirstIndex` | Shell.c:105-114 | the first position of a token in argv |
| `ShellCommands.RedirectCases` | Shell.c:103-124 | the scan refuses a redirection exactly when ">" occurs twice or is the last token; an accepted one is the only ">" and has a token after it |
| `ShellCommands.FindRedirect` | Shell.c:103-116 | the scan ends at -1 with no '>', at -2 on a repeated or trailing '>', and otherwise at the '>' with the next token as outfile |
| `ShellCommands.BuiltinChecks` | Shell.c:76-92 | exit runs only as the single word exit; exit with arguments is an error; cd needs exactly one argument |
| `ShellCommands.PathReplaces` | Shell.c:95-101 | path replaces the search list with its first 50 arguments; with none it empties the list in batch mode and restores "/bin" in interactive mode |
| `ShellCommands.LaunchShape` | Shell.c:103-124 | a launched command either has no '>' and runs with all its tokens, or has one '>' with exactly one token after it, cut from argv; anything else is an error |
| `ShellCommands.SearchPath.constructor` | Shell.c:26-28 | the search list starts as ["/bin"] |
| `ShellCommands.SearchPath.Replace` | Shell.c:95-101 | the path built-in refills the list from argv[1..], at most 50 entries |
| `ShellCommands.FirstExecutable` | Shell.c:127-135 | the lookup gives the first directory whose dir/program is executable, or nothing exactly when none is |
| `ShellCommands.Resolve` | Shell.c:127-135 | the lookup loop finds the first executable candidate along the search list |
| `ShellCommands.ExitCommand` | Shell.c:76-83 | a segment's command is exit exactly when its tokens are the single word exit |
| `ShellCommands.ExitStops` | Shell.c:58-83 | a line stops the shell exactly when one of its commands is a bare exit |
| `ShellCommands.PathOnlyByPath` | Shell.c:58-165 | only path commands change the search list |
| `ShellCommands.RunLine` | Shell.c:51-169 | the '&' loop produces the events, search list and exit flag that `RunSegments` gives for the segments of the prepared line |
| `ShellCommands.RunSegment` | Shell.c:58-59 | one turn of the '&' loop takes the next segment off what remains and keeps the outcome of the line |
| `ShellCommands.RunCommand` | Shell.c:61-164 | one segment stops the shell exactly when it is a bare exit; an empty one does nothing; otherwise its events and search list are those of its command |
| `ShellCommands.RunExternal` | Shell.c:102-164 | a non-built-in command reports an error on a bad redirection or a failed lookup, and otherwise launches the resolved program with its arguments and outfile |
| `Fractal.Red` | fractal.cpp:66 | storing `255 * juliaValue` into an unsigned char gives 0 for a julia value of 0 and 255 for a value of 1 |
| `Fractal.Julia` | fractal.cpp:35-52 | the answer is 0 or 1, and it is 1 exactly when none of the 300 iterations escapes |
| `Fractal.SlotsDisjoint` | fractal.cpp:64-69 | each pixel's four bytes at `offset*4` lie inside the bitmap, and two distinct pixels never share a byte |
| `Fractal.PixelAt` | fractal.cpp:64-69 | every pixel owns exactly four bytes of the bitmap |
| `Fractal.Image` | fractal.cpp:188-199 | the image painted by the serial kernel has 4 * DIM * DIM bytes |
| `Fractal.ImagePixels` | fractal.cpp:191-197 | in the reference image, each pixel holds (255 * julia, 0, 0, 255) |
| `Fractal.AllPainted` | fractal.cpp:188-199 | a bitmap in which every pixel holds its julia colour is the reference image, whatever order painted it |
| `Fractal.Paint` | fractal.cpp:191-197 | painting pixel (x, y) sets its four bytes to its colour and leaves every other pixel unchanged |
| `Fractal.PaintRow` | fractal.cpp:190-198 | the inner x loop paints every pixel of row y and changes no other row |
| `Fractal.KernelSerial` | fractal.cpp:188-199 | kernel_serial leaves exactly the reference image in the bitmap |
| `Fractal.KernelCollapsed` | fractal.cpp:173-186 | kernel_omp, with both loops collapsed, leaves the same image |
| `Fractal.CyclicRows` | fractal.cpp:61-71 | thread Tid paints exactly the rows congruent to Tid modulo T and leaves all other rows unchanged |
| `Fractal.KernelRowCyclic` | fractal.cpp:57-73 | the 1D row-wise kernel, for any thread count T >= 1, leaves the reference image |
| `Fractal.CyclicColumnsOfRow` | fractal.cpp:83-90 | within row y, thread Tid paints exactly the columns congruent to Tid modulo T |
| `Fractal.CyclicColumns` | fractal.cpp:81-91 | thread Tid paints exactly the columns congruent to Tid modulo T, in every row, and nothing else |
| `Fractal.KernelColumnCyclic` | fractal.cpp:77-94 | the 1D column-wise kernel, for any T >= 1, leaves the reference image |
| `Fractal.BlockSize` | fractal.cpp:103-119 | the first DIM % T threads get DIM / T + 1 rows and the rest get DIM / T |
| `Fractal.BlocksAdjacent` | fractal.cpp:112-119 | the first block starts at row 0 and each block ends where the next one starts |
| `Fractal.LastBlockEnds` | fractal.cpp:112-119 | the last thread's block ends at DIM |
| `Fractal.BlockStartMonotone` | fractal.cpp:112-118 | a later thread's block never starts before an earlier thread's block |
| `Fractal.BlocksPartition` | fractal.cpp:112-120 | every row in [0, DIM) lies in the block of exactly one thread |
| `Fractal.FindBlock` | fractal.cpp:112-120 | a row at or after the start of thread `from`'s block lies in the block of some thread from `from` onwards |
| `Fractal.KernelRowBlock` | fractal.cpp:98-131 | the 2D row-block kernel, for any T >= 1, leaves the reference image |
| `Fractal.BlockColumns` | fractal.cpp:157-166 | a thread paints exactly columns [startCol, endCol) of every row and nothing else |
| `Fractal.KernelColumnBlock` | fractal.cpp:135-169 | the 2D column-block kernel, for any T >= 1, leaves the reference image |
| `Keypad.KeyEntryBounds` | kitchen.js:1019-1023 | a keystroke keeps the entry made of digits and within capacity, and it grows by one exactly when the key is a single digit and there is room |
| `Keypad.JoinDigits` | kitchen.js:1064-1065 | joining single digits gives one character per digit, and each character reads back as its digit |
| `Keypad.JoinDigitsInjective` | kitchen.js:1064-1067 | two digit sequences join to the same text exactly when they are equal |
| `Keypad.Insert` | kitchen.js:1028-1029 | inserting adds exactly one copy of the element to the multiset |
| `Keypad.InsertSorted` | kitchen.js:1028-1029 | inserting into a sorted sequence keeps it sorted |
| `Keypad.Sort` | kitchen.js:1028-1029 | `[...code].sort()` gives a sorted permutation of the digits (for single digits, string order and numeric order agree) |
| `Keypad.SortedUnique` | kitchen.js:1028-1031 | two sorted sequences with the same multiset are equal, so comparing sorted entries compares multisets |
| `Keypad.SafeOpensIffPermutation` | kitchen.js:1027-1031 | the safe's sorted-and-joined comparison succeeds exactly when the entry is a rearrangement of 3, 2, 5 |
| `Keypad.DoorOpensIffCode` | kitchen.js:1063-1067 | the door's joined comparison succeeds exactly when the entry is 7, 4, 9, 1 in that order |
| `Keypad.CheckSafeCode` | kitchen.js:1027-1031 | the safe handler's comparison returns true exactly for a rearrangement of the code |
| `Keypad.CheckDoorCode` | kitchen.js:1063-1067 | the door handler's comparison returns true exactly for the code |
| `Levels.RestoredBattery` | kitchen.js:2538-2552 | a positive saved battery level is kept, an absent or non-positive one is replaced by a full battery, so a level never starts with an empty battery |
| `Levels.FilterCompleted` | kitchen.js:3066 | the filter keeps exactly the listed levels whose flag is 'true', in their original order |
| `Levels.CompletedLevels` | kitchen.js:3064-3067 | getCompletedLevels lists exactly the completed levels among bedroom, kitchen, living-room and secret-room, in that order |
| `Levels.FlagKeyInjective` | kitchen.js:3053 | different level names get different completion keys |
| `Levels.TimeKeyNotFlag` | kitchen.js:3053-3056 | the timestamp key never overwrites any completion flag |
| `Levels.CompleteLevelEffect` | kitchen.js:3051-3057 | completeLevel marks the named level completed and leaves every other level's status unchanged |
| `Levels.CompletedAfterwards` | kitchen.js:3051-3067 | a level completed with completeLevel is then listed by getCompletedLevels |
| `Kitchen.EscapeKeepsInv` | kitchen.js:883-892 | Escape keeps the level's invariant |
| `Kitchen.InteractKeepsInv` | kitchen.js:922-1013 | the E key keeps the level's invariant |
| `Kitchen.SafeKeyKeepsSafeInv` | kitchen.js:1017-1050 | the safe keypad keeps the safe's entry short, made of digits, and empty once unlocked |
| `Kitchen.SafeKeyKeepsInv` | kitchen.js:1017-1050 | the safe keypad keeps the level's invariant |
| `Kitchen.DoorKeyKeepsDoorInv` | kitchen.js:1053-1087 | the door keypad keeps the door's entry within four digits, and the code once the door is unlocked |
| `Kitchen.DoorKeyKeepsInv` | kitchen.js:1053-1087 | the door keypad keeps the level's invariant |
| `Kitchen.KeyDownKeepsInv` | kitchen.js:879-1089 | every keystroke keeps the level's invariant |
| `Kitchen.PauseResumeRestores` | kitchen.js:3214-3227 | pausing and then resuming a running game gives back exactly the state before the pause, battery included |
| `Kitchen.PausedOnlyCamera` | kitchen.js:894-899 | while paused, a key other than Escape can only switch the camera |
| `Kitchen.CabinetToggle` | kitchen.js:306-311 | the cabinet button flips the door and starts it moving, unless it is already moving |
| `Kitchen.DigitIsNoLetter` | kitchen.js:883-922 | a digit key is neither Escape nor the C or E key |
| `Kitchen.DigitStep` | kitchen.js:879-1089 | a digit key does nothing while paused, and otherwise reaches only the two keypads |
| `Kitchen.OtherKeyKeepsSafeLock` | kitchen.js:1017-1050 | a key that is not a digit never changes the safe's lock |
| `Kitchen.OtherKeyKeepsDoorLock` | kitchen.js:1053-1087 | a key that is not a digit never changes the door's lock |
| `Kitchen.InteractKeepsLocks` | kitchen.js:922-1013 | the E key touches neither lock |
| `Kitchen.OtherKeyKeepsLocks` | kitchen.js:879-1089 | a key that is not a digit leaves both locks as they are |
| `Kitchen.SafeStepUnlocks` | kitchen.js:1018-1033 | a digit unlocks the safe exactly when it is the third digit of a rearrangement of the code, typed while the safe's keypad is shown nearby |
| `Kitchen.DoorStepUnlocks` | kitchen.js:1054-1069 | a digit unlocks the door exactly when it completes the code in order while the door's keypad is shown |
| `Kitchen.SafeUnlocksIffPermutation` | kitchen.js:879-1050 | over the whole handler, the safe unlocks exactly when, with the game running, a digit completes a rearrangement of the code on the shown keypad |
| `Kitchen.DoorUnlocksIffCode` | kitchen.js:879-1087 | over the whole handler, the door unlocks exactly when, with the game running, a digit completes the code in order; an unlocked door is open |
| `Kitchen.LevelCompletesOnce` | kitchen.js:968-975 | the level completes at most once, by E near the unlocked and open door; completing records the level in storage and ends the game, and otherwise storage is untouched |
| `Kitchen.KitchenRoom.constructor` | kitchen.js:26 | the level starts with nothing open or entered, and with the battery initializeBattery restores from the saved "kitchenBattery" level |
| `Kitchen.KitchenRoom.ToggleCabinetDoor` | kitchen.js:306-311 | the method moves the state as Toggle says and changes nothing else |
| `Kitchen.KitchenRoom.ShowSafeInput` | kitchen.js:2000-2003 | the safe keypad is shown, and the digits already entered stay |
| `Kitchen.KitchenRoom.HideSafeInput` | kitchen.js:2005-2008 | the safe keypad is hidden and the entry is cleared |
| `Kitchen.KitchenRoom.ShowDoorInput` | kitchen.js:1262-1266 | the door keypad is shown with an empty entry |
| `Kitchen.KitchenRoom.HideDoorInput` | kitchen.js:1268-1271 | the door keypad is hidden, and its entry is kept |
| `Kitchen.KitchenRoom.CheckSafeProximity` | kitchen.js:1976-1998 | closer than 2.5 the safe is near; walking away clears the flag and hides the keypad, dropping the entry; staying away changes nothing |
| `Kitchen.KitchenRoom.CheckDoorProximity` | kitchen.js:1240-1260 | closer than 6 the door is near; walking away clears the flag and hides the keypad, which keeps its entry; staying away changes nothing |
| `Kitchen.KitchenRoom.PauseGame` | kitchen.js:3214-3218 | the game pauses and the current battery level is saved |
| `Kitchen.KitchenRoom.ResumeGame` | kitchen.js:3220-3227 | the game resumes, and a saved battery level is put back and forgotten |
| `Kitchen.KitchenRoom.Interact` | kitchen.js:922-1013 | the E key's part of the handler moves the state as InteractStep says |
| `Kitchen.KitchenRoom.SafeKey` | kitchen.js:1017-1050 | the safe keypad's part of the handler moves the state as SafeKeyStep says |
| `Kitchen.KitchenRoom.DoorKey` | kitchen.js:1053-1087 | the door keypad's part of the handler moves the state as DoorKeyStep says |
| `Kitchen.KitchenRoom.KeyDown` | kitchen.js:879-1089 | the whole handler keeps the invariant and moves the state as KeyDownStep says |
| `TempRoom.Remaining` | temp.js:2723 | the result is the whole number of seconds left, rounded down, and never negative |
| `TempRoom.FormatRoundTrip` | temp.js:2725-2728 | below 100 minutes the text is "mm:ss" with two-digit fields, the seconds field is below 60, and reading the fields back gives the remaining seconds |
| `TempRoom.FormatTotalTime` | temp.js:2701-2728 | the full countdown shows "05:00" |
| `TempRoom.InitialEndTime` | temp.js:2704-2714 | the stored end time is used only when one is stored and the game was just paused; otherwise the end time is five minutes from now |
| `TempRoom.FreshStartFullTime` | temp.js:2712-2723 | a fresh start shows all 300 seconds |
| `TempRoom.ResumeKeepsRemaining` | temp.js:2749-2759 | an end time set from the saved seconds leaves exactly those seconds |
| `TempRoom.InteractKeepsInv` | temp.js:918-1010 | the E key keeps the invariant and touches neither lock nor the pause flag |
| `TempRoom.EscapeKeepsInv` | temp.js:883-892 | pausing and resuming keep the invariant, including "saved seconds exactly while paused" |
| `TempRoom.KeyDownKeepsInv` | temp.js:879-1083 | every keystroke keeps the invariant |
| `TempRoom.DoorUnlocksIffCode` | temp.js:1049-1081 | the door unlocks exactly when, with the game running and the player near the shown keypad, a digit completes the code in order |
| `TempRoom.LevelCompletesOnce` | temp.js:962-970 | the level completes at most once, by E near the unlocked door (open or not); completing ends the game and stops the countdown |
| `TempRoom.TimeOutEndsGame` | temp.js:2719-2736 | a refresh shows the formatted seconds left, and it ends the game and stops the countdown exactly when less than a second is left |
| `TempRoom.PauseResumeKeepsTime` | temp.js:2743-2769 | after a pause and a resume, the seconds left are those at the pause, the new end time is stored, and the countdown runs again |
| `TempRoom.TempRoomLevel.constructor` | temp.js:2704-2739 | loading stores the chosen end time, starts the interval and shows the timer at once |
| `TempRoom.TempRoomLevel.UpdateTimer` | temp.js:2719-2736 | the method moves the state as UpdateTimerStep says |
| `TempRoom.TempRoomLevel.PauseGame` | temp.js:2743-2752 | the method moves the state as PauseStep says |
| `TempRoom.TempRoomLevel.ResumeGame` | temp.js:2754-2769 | the method moves the state as ResumeStep says |
| `TempRoom.TempRoomLevel.Interact` | temp.js:918-1010 | the method moves the state as InteractStep says |
| `TempRoom.TempRoomLevel.SafeKey` | temp.js:1013-1046 | the safe keypad behaves as the kitchen's does |
| `TempRoom.TempRoomLevel.DoorKey` | temp.js:1049-1081 | the door keypad works only while the player is near |
| `TempRoom.TempRoomLevel.CheckSafeProximity` | temp.js:1969-1991 | closer than 2.5 the safe is near; walking away clears the flag and hides the keypad, dropping the entry; staying away changes nothing |
| `TempRoom.TempRoomLevel.CheckDoorProximity` | temp.js:1232-1253 | the door is near exactly when closer than 6; unlike the kitchen's, walking away leaves the door keypad shown with its entry |
| `TempRoom.TempRoomLevel.KeyDown` | temp.js:879-1083 | the whole handler keeps the invariant and moves the state as KeyDownStep says |
| `LivingRoom.CountCollected` | living-room.js:1819-1823 | the count of collected fragments is at most their number, and equals it exactly when all are collected |
| `LivingRoom.CountMark` | living-room.js:1820-1823 | marking one more uncollected fragment raises the count by exactly one, so the counter stays the number of collected fragments |
| `LivingRoom.InteractionPriority` | living-room.js:2100-2204 | onInteract collects an uncollected nearby fragment first; otherwise the door leaves when unlocked and shows the locked modal when not; otherwise lamp, sofa, fireplace and TV, each only when nothing earlier applies |
| `LivingRoom.TvCycle` | living-room.js:2070-2071 | the T key cycles OFF, ON, GLITCH, back to OFF, stays among the three states, and three presses return to the start |
| `LivingRoom.LampAlternates` | living-room.js:2180 | each press swaps the lamp between bright and dim, so toggling is periodic with period two |
| `LivingRoom.LivingRoomLevel.constructor` | living-room.js:238 | the level starts with no fragment collected, the door locked, the TV on with no hum built yet, and with the battery initializeBattery restores from the saved "livingRoomBattery" level |
| `LivingRoom.TvHumToggled` | living-room.js:2194-2196 | the first TV press builds the hum switched on and then flips it, so the hum ends off; every later press flips it |
| `LivingRoom.LivingRoomLevel.ToggleTv` | living-room.js:2194-2196 | afterwards the hum exists and is on exactly as TvHumToggled says |
| `LivingRoom.LivingRoomLevel.CheckFragmentProximity` | living-room.js:1806-1816 | the near fragment is the first uncollected one in range, or none when no uncollected fragment is in range; nothing else changes |
| `LivingRoom.LivingRoomLevel.CollectFragment` | living-room.js:1819-1823 | a missing or already-collected fragment changes nothing; otherwise it is marked and counted once, and the count never passes three |
| `LivingRoom.LivingRoomLevel.FragmentMessageDone` | living-room.js:1872-1883 | when the message closes, the door unlocks if all fragments are in, and stays as it was otherwise |
| `LivingRoom.LivingRoomLevel.OnInteract` | living-room.js:2100-2204 | the E key does what InteractionPriority chose: collect, leave, show the locked modal and pause (creating it and registering its key handler the first time), toggle the lamp, or toggle the TV hum as TvHumToggled says (so the first press leaves it off); every other field is unchanged and the door's lock never changes |
| `LivingRoom.LivingRoomLevel.HideDoorModal` | living-room.js:2138-2144 | "Keep Searching" hides the modal, unpauses and removes the modal's key handler, changing nothing else |
| `LivingRoom.LivingRoomLevel.ModalKey` | living-room.js:2146-2151 | while the modal's key handler is registered, Escape or Enter hides the modal as HideDoorModal does; any other key, or no handler, changes nothing |
| `LivingRoom.LivingRoomLevel.PauseGame` | living-room.js:2575-2579 | the game pauses and the battery level is saved |
| `LivingRoom.LivingRoomLevel.ResumeGame` | living-room.js:2581-2588 | the game resumes, and a saved battery level is put back and forgotten |
| `LivingRoom.LivingRoomLevel.KeyDown` | living-room.js:2042-2082 | Escape, unless the game is over, pauses saving the battery or resumes restoring it, and does nothing else; other keys switch the camera on C and cycle the TV on T, even while paused; E has exactly OnInteract's outcome, and no other key changes anything else |
| `Bedroom.InteractionPriority` | bedroom.js:714-745 | handleInteract escapes at the door first; then it picks up the flashlight, only while the pickup is there and not yet owned; then lamp, bed, table, page and crate, each only when nothing earlier applies |
| `Bedroom.NearestIsClosest` | bedroom.js:572-579 | getNearestPushable returns a crate within 2.4 that the player is not standing on, no eligible crate is closer, and the first of equally close crates wins; it returns none exactly when no crate is eligible |
| `Bedroom.EKeyCases` | bedroom.js:1244-1290 | E goes to handleInteract for a flashlight that can be picked up, even while pulling; otherwise it releases a pulled crate, or starts pulling the nearest crate (in third person only when facing it), and with no crate in reach it calls handleInteract |
| `Bedroom.PickupOnlyOnce` | bedroom.js:721-726 | once the flashlight is owned, or the pickup is gone, handleInteract never picks it up again |
| `Bedroom.BedroomLevel.constructor` | bedroom.js:25-38 | the level starts unpaused in third person, without the flashlight, with the pickup present, full battery and no crate pulled |
| `Bedroom.BedroomLevel.HandleInteract` | bedroom.js:714-745 | the door records "bedroom" as completed and escapes; picking up the flashlight owns it, removes the pickup and turns the light on; the messages change nothing |
| `Bedroom.BedroomLevel.PickupBlinkDone` | bedroom.js:729-732 | the blink ends with the light off, and updateAnimationState switches the clip to walk or idle only when the movement changed; nothing else changes |
| `Bedroom.BedroomLevel.NearestPushable` | bedroom.js:572-579 | the loop returns the crate Nearest specifies |
| `Bedroom.BedroomLevel.FlashlightKey` | bedroom.js:1230-1240 | F toggles the light only when the flashlight is owned and the battery is above zero, and then refreshes the animation state; otherwise nothing changes |
| `Bedroom.BedroomLevel.CameraAndLight` | bedroom.js:1229-1240 | C switches the camera and F toggles an owned, charged light, even while paused; after a toggle the base clip follows the moving state as updateAnimationState switches it, and otherwise clip and moving state are untouched; pulling, storage and pause are untouched |
| `Bedroom.BedroomLevel.EKey` | bedroom.js:1252-1290 | the E key releases, starts pulling or calls handleInteract exactly as EKeyChoice decides; handleInteract at the door records the level and escapes, at the pickup owns the flashlight, removes the pickup and lights it; nothing else changes |
| `Bedroom.BedroomLevel.KeyDown` | bedroom.js:1224-1292 | Escape toggles pause and nothing else; C and F work even while paused or during the intro; E, outside pause and the intro, has exactly EKey's outcome; no other key changes pulling, storage, ownership, the pickup or the escape; only an F that toggles the light can switch the base clip, as updateAnimationState does, and every other key leaves clip and moving state as they were |
| `Bedroom.BedroomLevel.UpdateAnimationState` | bedroom.js:1054-1061 | the base clip switches to walk or idle only on the initial call or when the moving state changes |
| `Platforms.SpawnIsSafe` | platforms.js:122-123 | the respawn point, one unit above the first platform's top, is above the death height and outside the victory zone, so a respawn neither kills nor wins |
| `Platforms.PressKey` | platforms.js:739-766 | a key code that is not a movement key leaves the held keys unchanged |
| `Platforms.ReleaseKey` | platforms.js:768-786 | a key code that is not a movement key leaves the held keys unchanged |
| `Platforms.ReleaseUndoesPress` | platforms.js:739-786 | releasing a key that was up before pressing it gives back the held keys as they were |
| `Platforms.PlatformsLevel.constructor` | platforms.js:253 | the player starts alive and still at the given position, holding an unlit flashlight with full battery and no keys pressed |
| `Platforms.PlatformsLevel.KillPlayer` | platforms.js:850-866 | a living player dies now, with the light off and the player still; a dead player is left as they are |
| `Platforms.PlatformsLevel.RespawnPlayer` | platforms.js:888-909 | the player is alive, still and grounded at the spawn point |
| `Platforms.PlatformsLevel.CheckDeathCondition` | platforms.js:911-921 | a living player below the death height dies now; a player dead for more than 2000 ms respawns, never in the call that killed them; otherwise nothing changes |
| `Platforms.PlatformsLevel.CheckVictoryCondition` | platforms.js:404-429 | the victory text becomes shown exactly when a living player is on the final platform or within one unit of the door, and it stays shown |
| `Platforms.PlatformsLevel.FlashlightKey` | platforms.js:433-446 | F is ignored while dead; otherwise it toggles a charged light and forces a flat one off |
| `Platforms.PlatformsLevel.MovementKeyDown` | platforms.js:739-766 | a dead player's keys are ignored; otherwise movement keys are pressed and C switches the camera |
| `Platforms.PlatformsLevel.KeyUp` | platforms.js:768-786 | keyup releases a movement key, whether the player is dead or alive |
| `RiddleAnswer.KeepLetters` | secretRoom.js:1117-1118 | `replace(/[^a-z]/g, '')` leaves only the letters a-z and never lengthens the text |
| `RiddleAnswer.KeepLettersAppend` | secretRoom.js:1117 | filtering a concatenation filters each piece |
| `RiddleAnswer.KeepLettersOfLetters` | secretRoom.js:1118 | a word made only of letters passes the filter whole, so the filter is idempotent |
| `RiddleAnswer.KeepLettersNone` | secretRoom.js:1117 | characters that are not letters after lower-casing vanish entirely |
| `RiddleAnswer.LowerCaseAppend` | secretRoom.js:1117 | lower-casing a concatenation lower-cases each piece |
| `RiddleAnswer.TrailingSpaces` | secretRoom.js:1117 | the counted run at the end is all white space and is preceded by a character that is not |
| `RiddleAnswer.NormalizeIgnoresTrim` | secretRoom.js:1117 | the trim before lower-casing and filtering never changes the normalised answer |
| `RiddleAnswer.LetterPieces` | secretRoom.js:1117 | lower-casing and filtering three pieces in a row gives the three filtered pieces in a row |
| `RiddleAnswer.DropLetterFree` | secretRoom.js:1117 | letter-free text around a word vanishes after normalisation |
| `RiddleAnswer.AnswerCorrectMeaning` | secretRoom.js:1116-1123 | an answer is right exactly when its letters, lower-cased and in order, spell the expected word or "a" followed by it |
| `RiddleAnswer.PunctuationIgnored` | secretRoom.js:1117-1119 | adding letter-free text before or after an answer never changes the verdict |
| `RiddleAnswer.CaseIgnored` | secretRoom.js:1117-1119 | upper- and lower-case spellings of an answer get the same verdict |
| `RiddleAnswer.LowerCaseOfLetters` | secretRoom.js:1118 | a word of letters a-z is its own lower case |
| `RiddleAnswer.ArticleAccepted` | secretRoom.js:1119 | "A " + word + "!" is accepted for that word |
| `RiddleAnswer.SpacedAccepted` | secretRoom.js:1117-1119 | the word with spaces around it is accepted |
| `RiddleAnswer.OtherWordRefused` | secretRoom.js:1119 | "maps" is refused for "map": the check is equality, not containment |
| `RiddleAnswer.KelvinSignCounts` | secretRoom.js:1117-1119 | the Kelvin sign lower-cases to k and is kept as a letter, so "map" followed by it is refused for "map" |
| `SecretRoom.RiddleOf` | secretRoom.js:803-806 | every stage of the flow asks one of the two riddles |
| `SecretRoom.OneSecondChance` | secretRoom.js:1131-1240 | for any three answers, the flow ends with the truth when at most one was wrong and with the pentagram pull when two or more were |
| `SecretRoom.FirstWrongIsForgiven` | secretRoom.js:1166-1168 | a first wrong answer to either riddle brings a demon attack, never the pull |
| `SecretRoom.SecretRoomLevel.constructor` | secretRoom.js:6-8 | the room starts with no assets counted, nothing shown, not paused and no riddle open |
| `SecretRoom.SecretRoomLevel.TrackAssetLoading` | secretRoom.js:11-13 | one more asset is expected, and nothing else changes |
| `SecretRoom.SecretRoomLevel.TriggerIntroDialogue` | secretRoom.js:1479-1483 | the intro shows only after loading and at most once |
| `SecretRoom.SecretRoomLevel.AssetLoaded` | secretRoom.js:15-23 | the count reaching the total marks loading done and releases the intro, only the first time |
| `SecretRoom.SecretRoomLevel.RevealTheTruth` | secretRoom.js:809-811 | the revelation's sequence runs at most once |
| `SecretRoom.SecretRoomLevel.TogglePause` | secretRoom.js:214-233 | Escape or p resumes a paused game and pauses a running one unless it is over; other keys change nothing |
| `SecretRoom.SecretRoomLevel.PressE` | secretRoom.js:1131-1137 | E opens riddle 0 only near the throne, with the game running, no attack, no riddle open and no pull; otherwise nothing changes |
| `SecretRoom.SecretRoomLevel.AskDueRiddle` | secretRoom.js:1085-1095 | a due riddle is shown, unless the game is paused, in which case it is dropped |
| `SecretRoom.SecretRoomLevel.DemonAttackEnds` | secretRoom.js:1245-1276 | the attack's end asks the next riddle only while riddle 1 is still unsolved |
| `SecretRoom.SecretRoomLevel.Submit` | secretRoom.js:1113-1124 | submitting closes the riddle and runs exactly one callback, chosen by the answer check; the truth counts as revealed exactly when it was before or the session reaches Done, and likewise the pull for Pulled |
| `Demons.Demon.constructor` | workInProgress.js:795-809 | makeDemon builds a dormant statue with full health (3), no attacks and no last attack time |
| `Demons.DemonLevel.constructor` | workInProgress.js:819 | the level starts with the given dormant statues, unpaused, no riddle open or shown, no pull and the door shut |
| `Demons.DemonLevel.AskRiddle` | workInProgress.js:1123-1165 | askRiddle, unless the game is paused, shows the riddle and registers one more submit handler for it, keeping the ones already registered; paused, it changes nothing |
| `Demons.DemonLevel.CancelRiddle` | workInProgress.js:1107-1110 | Cancel hides the modal and clears riddleActive, but leaves every registered submit handler in place |
| `Demons.DemonLevel.HitDemon` | workInProgress.js:1318-1341 | a click is ignored while paused or during the pull and on a dormant demon; an active demon loses one health and is killed, made inactive, when it reaches zero |
| `Demons.DemonLevel.IndexOf` | workInProgress.js:1365 | indexOf returns the first position of the demon in the list, or -1 exactly when it is absent |
| `Demons.DemonLevel.RemoveKilledDemon` | workInProgress.js:1364-1375 | after the shrink, exactly the first occurrence of the demon is spliced out of the list (nothing when absent), and riddle 1 is asked unless paused |
| `Demons.DemonLevel.DemonAttack` | workInProgress.js:1612-1641 | a demon in reach attacks only when more than 900 ms have passed since its last attack; the fifth attack deactivates it and asks riddle 1 |
| `Demons.DemonLevel.Dormant` | workInProgress.js:1197 | the filter keeps exactly the listed statues that are not active |
| `Demons.DemonLevel.AwakenDemon` | workInProgress.js:1192-1206 | with no statues nothing wakes; otherwise a dormant statue (the random pick chooses which) or, when all are awake, the first becomes active with full health and no attacks, and no other statue changes |
| `Demons.DemonLevel.PressE` | workInProgress.js:1170-1189 | E near the throne opens riddle 0, registering its handler after any stale ones, only with the game running, no riddle open and no pull; otherwise nothing changes |
| `Demons.DemonLevel.RunHandler` | workInProgress.js:1151-1164 | one handler: a right answer to its riddle opens the door, a wrong answer to riddle 0 wakes a demon, a wrong answer to riddle 1 starts the pull; the handler list is untouched |
| `Demons.DemonLevel.RunHandlers` | workInProgress.js:1112-1116 | the dispatched event runs every registered handler, oldest first, with the combined outcome Handlers gives |
| `Demons.DemonLevel.Submit` | workInProgress.js:1112-1164 | the modal closes and every handler has removed itself; the door opens, the pull starts and a demon wakes exactly as Handlers says for the registered handlers |
| `Demons.Rights` | workInProgress.js:1155-1157 | the verdict of the answer for each riddle, as the handler's comparison gives it |
| `Demons.Handlers` | workInProgress.js:1151-1165 | the handlers together open the door exactly when the answer is right for one of their riddles, pull exactly when riddle 1's handler is among them and the answer is wrong for it, and wake a demon likewise for riddle 0 |
| `Demons.OneHandlerOneEffect` | workInProgress.js:1151-1164 | with one handler registered, a submission has exactly one of the three effects |
| `Demons.StaleHandlerFires` | workInProgress.js:1170-1189 | a riddle-1 handler still registered when E opens riddle 0 runs too: "map" then opens the door and starts the pull at once |
| `Demons.DemonLevel.ResetStatues` | workInProgress.js:238-244 | the loop leaves every listed statue dormant, at full health, with no attacks and no last attack time |
| `Demons.DemonLevel.RestartGame` | workInProgress.js:210-265 | restartGame clears pause, game over, the riddle, the pull and the door, and puts every statue back to sleep at full health |
| `Clips.FindExact` | character-loader.js:135 | the exact search returns the first clip whose lower-cased name equals the wanted name, or none when no clip name equals it |
| `Clips.FindContaining` | character-loader.js:136 | the substring search returns the first clip whose lower-cased name contains the wanted name, or none when none contains it |
| `Clips.FindClip` | character-loader.js:131-139 | the loop returns the clip ClipChoice specifies |
| `Clips.ContainsItself` | character-loader.js:135-136 | a name contains itself, so an exact match would also be found by the substring search |
| `Clips.ExactBeatsSubstring` | character-loader.js:134-136 | for one wanted name, the first exact match wins even over an earlier clip that only contains the name; only without an exact match is the first containing clip chosen |
| `Clips.EarlierNameWins` | character-loader.js:133-138 | a clip is returned for the first wanted name that matches any clip, and null exactly when no wanted name occurs in any clip name |
| `Clips.CaseInsensitive` | character-loader.js:132-134 | upper and lower case in a wanted name make no difference |
| `Clips.PrepareMesh` | character-loader.js:59-68 | a mesh is hidden exactly when removeGround is on and its lower-cased name mentions plane, ground or floor; every other mesh gets shadows |
| `Clips.PrepareMeshes` | character-loader.js:59-68 | the traversal treats every mesh by the same rule, one result per mesh |
| `Clips.GroundRule` | character-loader.js:62 | without removeGround nothing is hidden, and "Ground_Plane" is hidden with it |
| `Clips.FallbacksNeverRun` | character-loader.js:26-42 | since `rig || root` is never null, the model root is the rig when there is one and the scene root otherwise, so the skinned-mesh and mesh fallbacks never run |
| `SiteScript.FirstPiecePrefix` | script.js:12 | `split("?")[0]` is the longest prefix without "?", followed by "?" when it is shorter than the text |
| `SiteScript.CurrentPageMeaning` | script.js:5-8 | the current page is never empty and never holds "/"; it is the text after the last "/", or index.html exactly when the path is empty or ends in "/" |
| `SiteScript.LinkPageMeaning` | script.js:12 | a link's page holds neither "/" nor "?", and it is the start of the href's last segment, cut at the first "?" |
| `SiteScript.MarkActive` | script.js:10-19 | every navigation link is marked active exactly when its page is the current page |
| `SiteScript.OneActivePage` | script.js:14-18 | links to two different pages are never both active |
| `SiteScript.CardLookMeaning` | script.js:24-39 | with no module, or an empty one, no card changes; otherwise a card is highlighted exactly when the module is one of its space-separated modules, and faded otherwise |
| `SiteScript.DigitRun` | script.js:83 | the digit run is the longest prefix made of decimal digits |
| `SiteScript.ParsePercent` | script.js:83 | `parseInt` reads a bar's text such as "85%" back as its number |
| `SiteScript.DigitRunPrefix` | script.js:83 | parsing stops at the first character that is not a digit |
| `SiteScript.HexRun` | script.js:83 | the hexadecimal digit run is the longest prefix made of hexadecimal digits |
| `SiteScript.HexPrefixRead` | script.js:83 | `parseInt` without a radix reads a "0x" prefix as hexadecimal |
| `SiteScript.ColourBands` | script.js:82-97 | a bar is green from 75, yellow from 60 up to 75, and red below 60 or when its text does not parse |
| `SiteScript.SafeBack` | script.js:103-109 | the back button goes back in history exactly when there is more than one entry, and otherwise goes to /index.html |
| `Text.DecimalString` | temp.js:2725-2726 | `String(n)` gives decimal digits with no leading zero, one digit exactly below 10 |
| `Text.DecimalRoundTrip` | temp.js:2725-2726 | reading back the decimal string of n gives n |
| `Text.TwoDigits` | temp.js:2725-2726 | numbers below 100 have at most two digits |
| `Text.PadTwoValue` | temp.js:2725-2726 | `padStart(2, "0")` of a number below 100 gives two digits that read back as the number |
| `Text.LowerCase` | secretRoom.js:1117 | `toLowerCase` keeps the length and maps each character by LowerChar: A-Z and the two other characters whose lower case holds a-z, U+212A and U+0130 |
| `Text.LeadingSpaces` | secretRoom.js:1117 | the counted run at the start is all white space and is followed by a character that is not |
| `Text.LowerCaseIdempotent` | secretRoom.js:1117-1118 | lower-casing twice changes nothing more |
| `Text.JoinEnds` | script.js:5 | a string joined with d ends with its last piece, right after a d when there are several pieces |
| `Text.LastPieceSuffix` | script.js:5 | `split(d).pop()` is the suffix after the last d, and it holds no d |

## Left out

- `UniformCost.Ucs`: the returned cost is the cost of a real path to the goal, and no expanded state costs more, but that it is the least cost of any path is not proved.
- `BreadthFirst.Bfs`: the depth is the length of a real path to the goal, and states are expanded level by level, but that it is the shortest depth is not stated.
- `PyHeap`: the binary-heap layout of `heapq`'s list is not modelled; a pop takes out the least entry by Python's tuple order and the others keep their order.
- `Shell.c`: `fork`, `waitpid` and the `pids[20]` table are not modelled; a launch is recorded as an event.
- `Shell.c`: the `snprintf` truncation of a path to 512 bytes is not modelled, and neither is the `strcpy` of the prepared line back into `getline`'s buffer.
- `Shell.c`: `chdir` and `access` are oracles (whether a directory change succeeds, whether a file is executable).
- Console and file I/O, `printf` output, CSV writers and timing (`clock`, `omp_get_wtime`, `MPI_Wtime`, `time.time`) are not modelled.
- OpenMP threads and tasks, and MPI ranks, run one after another in the model. Their writes are disjoint, or synchronised by a barrier, so every interleaving gives the same result.
- `Fractal.Julia`: the floating-point escape loop of `julia` is an oracle; the kernels take the colour value of each pixel as a function of (x, y).
- `Calculator`: Python's `eval` is an input of `Equals`; `state.py` is not part of this model, so the initial values of its variables are the constructor's.
- `ShellLine.PrepLine`, `ShellCommands.RunLine`: require `|Prep(line)| < TempSize`. Lines whose prepared form has 1024 or more characters are left out: for those, prep_line writes `temp[j++]` and the terminating `'\0'` past the end of `char temp[1024]` (Shell.c:332-344). Examples are any line of 1024 or more characters (`ShellLine.PrepLength` shows the output is never shorter than the input) and a line of 512 `'>'` characters, each of which becomes `"> "`.
- `Largest.LargestA`: requires `N <= len(list)`. For a larger N, largestA.py raises IndexError when the loop reaches `list[len(list)]`; that error path is not modelled.
- `Largest.LargestB`: requires a non-empty list and `N <= len(myList)`. Otherwise largestB.py raises IndexError, in the pair loop or at `myList[0]`; that error path is not modelled.
- `PigeonholeSort.PigeonholeSortInPlace`: requires `n <= len(myList)` and each of the first n values to lie in -(maX+1)..maX. Otherwise pigeonholeSort.py raises IndexError, at `myList[i]` (line 10) when n passes the list's length, or at `hole[t]` (line 11) for a value outside that range. A negative value in the range indexes `hole` from its end, and the model does the same. The error path is not modelled.
- `MyVectorModel.MyVector.PopFront`: the last copy step reads one slot past the allocation when the vector is full; the model skips that read and leaves the slot's value unstated.
- `MyVectorModel.MyVector.InsertAt`: requires `InsertFits`, the index range in which the source's copy loops stay inside their arrays; outside it the source writes past the allocation.
- Rendering, physics, camera, audio, pop-up text and `setTimeout`/`setInterval` timers of the game levels are not modelled. Distances, positions, raycast hits and clock readings are parameters.
- `Text.LowerCase`: U+0130 becomes i alone, where `toLowerCase` gives i followed by U+0307. The riddle verdicts and the key checks are the same either way, but a clip name holding U+0130 can match exactly here where it does not in the browser. Characters whose lower case lies outside a-z are left as they are.
- `Kitchen`, `TempRoom`: both test a keypad's visibility through `style.display !== "none"` (temp.js:1013 and temp.js:1050 for the temp room). Whether the keypads are visible when the page loads is assumed (hidden), and the constructors start them hidden; the page markup is not part of this model.
- `Kitchen`: the cabinet animation, the cabinet glow and the messages of the island, stove and dishwasher are not modelled.
- `TempRoom`: the countdown text is modelled as `TempRoom.Format` of the remaining seconds; its page element is not.
- `LivingRoom`: the story dialogue shown for each fragment is not modelled, only when it ends.
- `Kitchen`, `LivingRoom`: the per-frame battery drain of `updateFlashlight` (kitchen.js:2445-2454, living-room.js:679-691), its write-back to localStorage, and `triggerGameOver` on an empty battery (kitchen.js:2522-2536, living-room.js:755-770) are not modelled. The constructors take the saved battery level already parsed; a stored string that `parseFloat` turns into NaN is not modelled, and neither is initializeBattery writing the full level back.
- `LivingRoom.LivingRoomLevel.KeyDown`: the F key's `toggleFlashlight` (living-room.js:2085-2088) is not modelled.
- `Bedroom`: the flashlight battery drain and the pull and blink animations are not modelled.
- `Platforms.PlatformsLevel`: the battery drain of `updateFlashlight` (platforms.js:449-462) and the start value read from the saved `stairsBattery` (platforms.js:521-537) are not modelled; the constructor starts at full battery, so FlashlightKey's flat-battery branch is reached only from a state given directly.
- `BreadthFirst.Bfs`, `GreedyBestFirst.Gbfs`, `UniformCost.Ucs`: require a start of nine cells holding the blank even when start equals goal, where the scripts return at once for any start.
- `GreedyBestFirst.Gbfs`: requires `Placeable`, every non-blank start tile occurring in the goal. Otherwise `goalState.index(tile)` in manhattenDistancne (GBFS.py:12) raises ValueError at the first push; that error path is not modelled.
- `Calculator.IsSpace`: covers the six ASCII white-space characters; the ASCII separators U+001C-U+001F and the Unicode white space that `str.strip` also removes are not modelled.
- `Platforms.PlatformsLevel.constructor`: takes the start position as a parameter. Line 253 puts the player at the platform's y + 1, while a respawn uses the platform top + 1.
- `SecretRoom.SecretRoomLevel.PressE`: restricted to the idle and finished phases. The source reopens riddle 0 whenever `riddleActive` is false, and only this handler sets it (secretRoom.js:1137). So E also works during the delays before a follow-up riddle, in the 2 s between the end of a demon attack and its callback (secretRoom.js:1267-1272), while a follow-up riddle is shown (askRiddle never sets `riddleActive`), and after the riddle modal's Cancel button. The delays between the steps become explicit events.
- `SecretRoom.SecretRoomLevel.Submit`: runs one answer handler. In the source, the Cancel button (secretRoom.js:1070-1073) hides the modal and clears `riddleActive` but leaves the `submitRiddle` handler registered, and every askRiddle adds another one (secretRoom.js:1113-1127). After Cancel, or any of the PressE cases above, handlers stack and one submit runs all of their callbacks. Cancel and the stacked handlers are not modelled here (the workInProgress.js level models them in `Demons`).
- `Demons`: the demons' shrink animation, and a demon re-awakening during it, are not modelled. The random pick of the demon to awaken is a parameter.
- `Demons`: `openDoor`'s path without a `doorMesh` is not modelled, and neither is `restartGame` adding the statues back to the scene.
- `SiteScript.ParseInt`: the result is an exact integer, where JavaScript's number loses precision beyond 2^53.
- `Clips`: the scaling and centring of the loaded model, and the attachment of `main_full` (character-loader.js:70-121), are not modelled.

## Findings

| source | as written | input that shows it | evidently intended | confidence | as-written member | corrected member |
|---|---|---|---|---|---|---|
| bitonic_mpi.cpp:222-226 | after the swap loop both partners send their own buffer and copy in the partner's post-swap buffer, so both end with the same values: the pairwise smaller ones when ascending, the larger ones otherwise | two ranks holding [1] and [2], dir == 1: both end holding [1], and the value 2 is lost | the lower partner keeps the pairwise values for its side of dir and the upper partner the other ones, so the pair's multiset is kept | not executed | `BitonicMpi.CompareExchange`, `BitonicMpi.ExchangeLosesValues` | `BitonicMpi.CompareSplit` |
| Shell.c:66-70 | the argument loop stores every non-empty token in `argv[MAX_TOKENS]` with no bound, then writes `argv[i] = NULL` | a command line of 50 or more one-letter words (for example fifty `a`s separated by spaces) writes past the end of `argv` | refuse a command with more than `MAX_TOKENS - 1` tokens, so that the tokens and the terminating NULL fit | not executed | `ShellLine.ArgvOverflow` | `ShellLine.Tokenize` |

bitonic_mpi.cpp runs the same compare-exchange network as bitonic.cpp, but its `compareExchange` does not keep the values (first row above), so the distributed run is modelled as written: `BitonicMpiRun.SortN` proves only that its output holds values of the input, that the final check reports whether the output ascends, and that it does ascend when `local_n` is a power of two.
