# Grid path-finding: depth-first search and A*

This project models the two grid searches of a path-finding visualiser and
proves properties of them in Dafny:

- `Dfs` (`js/algorithms/dfs.js`) is a depth-first search. It keeps its frontier
  in `queue`, used as a stack, records cells in `visited` as it marks them,
  and keeps in `path` the visited cells that could still move on. When the end
  cell reaches the top of the stack, it rebuilds a route from `path`: it cuts
  `path` after the first entry next to the end, reverses it, and deletes every
  entry that is not a neighbour of the entry kept before it.
- `Astar` (`js/algorithms/pathfindings/astar.js`) is an A* search. It keeps a
  cost table `path` from cell to (distance, parent), a frontier `queue` and the
  settled cells `visited`. On each step it takes the head of the frontier: the
  cell with the lowest total cost, and among equal costs the one closest to the
  end. It records that cell as parent of its free, unsettled neighbours, then
  settles it and may re-parent it to a settled neighbour that is cheaper, or
  as cheap and closer to the start. It stops as soon as the end cell is
  queued, and returns the parent links walked back from the end.

Modules:

- `Grid` (`grid.dfy`) holds what both searches share:
  - positions and the four directions;
  - the neighbour relation;
  - the board, as a value. It has its cells in document order, the walls, the
    start and end cells, and the weight written on each cell (0 when none).
  - `Unseen`, the number of free cells not yet seen. This measure bounds both
    search loops.
- `DfsSearch` (`dfs.dfy`) holds the depth-first search.
  - `Dfs` is a class whose methods update `queue`, `visited` and `path` in
    place.
  - Its reconstruction is specified by the functions `PrefixToEnd`, `Reverse`
    and `Pruned` and by the lemmas about them.
  - The search invariant `Rooted` says where the stack's cells come from:
    every kept cell of `path` is next to the start or to a cell kept before
    it, and every stacked cell other than the start is next to the start or
    to a kept cell. So the rebuilt route ends next to the start.
- `AstarSearch` (`astar.dfy`) holds the A* search.
  - Costs are exact integers. They are proved equal to the source's
    rounded decimal formula.
  - `Infinity` and `null` become the `Distance` and `Option` datatypes.
  - `Astar` is a class whose methods update the table, the frontier and the
    settled list in place.
  - The search invariant `Searching` says that every settled cell other than
    the start has its parent settled before it, and that every queued cell
    other than the start has a settled parent. So walking back from the end
    always reaches the start. It also says that every recorded parent is a
    neighbour of its cell and that the start has no parent, so the walk back
    steps between neighbours.

The model follows three details of the code:

- `pathToEndPosition` keeps the path up to and including its first entry
  next to the end cell.
- If no entry is next to the end, `indexOf(undefined) + 1` is 0, so the whole
  path is cut.
- When a settled neighbour's recorded distance is 0, `getClosestNeighbour`
  stores the total cost of that neighbour (`astar.js:141`).

## Model

| member | source | states |
|---|---|---|
| Grid.IsNeighbour | js/algorithms/dfs.js:43-49 | a cell is a neighbour when one of the four direction steps leads to it; its meaning is fixed by the three lemmas below |
| Grid.NeighbourIsUnitStep | js/algorithms/dfs.js:43-49 | one cell is a neighbour of another in one of the four directions exactly when their Manhattan distance is 1 |
| Grid.NeighbourSymmetric | js/algorithms/dfs.js:43-49 | the neighbour test gives the same answer with its arguments swapped |
| Grid.NotOwnNeighbour | js/algorithms/dfs.js:43-49 | no cell is its own neighbour |
| Grid.FewerLeft | js/algorithms/dfs.js:110-111 | marking a free cell that was not yet seen strictly lowers the number of free cells left unseen; this bounds the loops of both searches |
| Grid.WalkStaysIn | js/algorithms/dfs.js:94-107 | when the searched cells hold the start and every free neighbour of a searched cell is searched too, every walk from the start over free cells stays among the searched cells |
| Grid.ExploredUnreachable | js/algorithms/dfs.js:94-107 | under the same condition, no walk from the start over free cells reaches a cell that was not searched |
| DfsSearch.NeighbourIsEnd | js/algorithms/dfs.js:35-41 | true exactly when the end cell is one of the four neighbours of the cell |
| DfsSearch.PositionIndexInPath | js/algorithms/dfs.js:27-29 | -1 exactly when the cell is absent; otherwise the index of its first occurrence |
| DfsSearch.NextPositionIndex | js/algorithms/dfs.js:70-72 | one past the first occurrence of the cell, or 0 when it is absent |
| DfsSearch.NextPositionOfEntry | js/algorithms/dfs.js:70-76 | in a path without repetitions, the next position of entry i is entry i+1, or none after the last entry |
| DfsSearch.NextPosition | js/algorithms/dfs.js:74-76 | the entry after the first occurrence of the cell; when the cell is absent, the first entry (as `indexOf` gives -1); none exactly when the cell first occurs as the last entry, or the path is empty |
| DfsSearch.FirstNeighbourOfEndPosition | js/algorithms/dfs.js:59-62 | none exactly when no entry is next to the end; otherwise an entry next to the end with no such entry before it |
| DfsSearch.PrefixToEndEndsNextToEnd | js/algorithms/dfs.js:64-68 | the kept prefix ends with an entry next to the end, has no earlier entry next to it, and is empty exactly when no entry is next to the end |
| DfsSearch.CutIsPrefixToEnd | js/algorithms/dfs.js:64-72 | cutting the path at the next-position index of the first end neighbour (or at 0 without one) leaves exactly the prefix described by `PrefixToEnd` |
| DfsSearch.Reverse | js/algorithms/dfs.js:79 | the result has the same length, with entry i equal to entry n-1-i of the input |
| DfsSearch.PrunedIsSubsequence | js/algorithms/dfs.js:78-85 | deleting wrong positions leaves the input with some entries removed, in order |
| DfsSearch.PrunedIsChain | js/algorithms/dfs.js:78-85 | after deletion, each two consecutive entries are neighbours, and the first entry is kept |
| DfsSearch.PrunedOfChain | js/algorithms/dfs.js:78-85 | a path whose consecutive entries are already neighbours loses nothing |
| DfsSearch.ReverseOfChain | js/algorithms/dfs.js:79 | reversing keeps the neighbour-to-neighbour property |
| DfsSearch.ReverseNoDups | js/algorithms/dfs.js:79 | reversing keeps the entries and adds no repetition |
| DfsSearch.ReconstructChain | js/algorithms/dfs.js:78-85 | on a path that is already a chain, reconstruction only reverses it |
| DfsSearch.PruneIdempotent | js/algorithms/dfs.js:78-85 | deleting wrong positions twice deletes nothing more the second time |
| DfsSearch.Reconstruction | js/algorithms/dfs.js:87-91 | the rebuilt route has no repetition, uses only stored cells, steps between neighbours, and starts next to the end cell |
| DfsSearch.Pushes | js/algorithms/dfs.js:97-106 | the stack after trying the first k directions in order: a free neighbour that is neither visited nor on the stack is pushed |
| DfsSearch.PushesAppends | js/algorithms/dfs.js:97-106 | pushing keeps the old stack as a prefix and adds only neighbours of the cell that were not on it |
| DfsSearch.PushesUnvisited | js/algorithms/dfs.js:97-106 | pushing keeps every stacked cell free and unvisited |
| DfsSearch.PushesReachAll | js/algorithms/dfs.js:97-106 | after the first k directions, each free neighbour in those directions is visited or on the stack |
| DfsSearch.Popped | js/algorithms/dfs.js:94-95 | popping the visited top of the stack leaves only free, unvisited cells |
| DfsSearch.Marked | js/algorithms/dfs.js:110-112 | marking the top visited, and keeping it or not, restores the between-steps invariant |
| DfsSearch.AttachedIndex | js/algorithms/dfs.js:97-106 | a cell counts as reached from the kept path exactly when it is next to the start or to some kept entry |
| DfsSearch.GrownAt | js/algorithms/dfs.js:110-112 | in a path grown by the search, each entry is next to the start or to an entry kept before it |
| DfsSearch.PruneFromEndsNextTo | js/algorithms/dfs.js:78-85 | when each entry is next to an anchor cell or to a later entry, the walk of the deletion ends next to the anchor (or keeps nothing, and the first cell is next to it) |
| DfsSearch.PrunedEndsNextTo | js/algorithms/dfs.js:78-85 | under the same condition, the last entry kept by the deletion is next to the anchor cell |
| DfsSearch.ReversedHead | js/algorithms/dfs.js:79 | once a grown prefix is reversed, its first entry is next to the start or to a later entry |
| DfsSearch.GrownReversed | js/algorithms/dfs.js:79 | the reversal of every prefix of a grown path has each entry next to the start or to a later entry |
| DfsSearch.RouteEndsNextToStart | js/algorithms/dfs.js:87-91 | the route rebuilt from a grown path, when not empty, ends next to the start |
| DfsSearch.EmptyRouteOnlyNextToStart | js/algorithms/dfs.js:87-91 | when the end is next to the start or to a kept entry, an empty rebuilt route means the end is next to the start |
| DfsSearch.PushesNone | js/algorithms/dfs.js:97-106 | when no direction leads to a free cell that is neither visited nor stacked, the stack is unchanged |
| DfsSearch.RootedPopped | js/algorithms/dfs.js:95 | after the pop, every remaining stacked cell is still the start or next to the start or a kept cell, and the popped cell is the start, kept, or has nowhere to go |
| DfsSearch.RootedPushed | js/algorithms/dfs.js:97-106 | pushing the popped cell's neighbours keeps every stacked cell the start or next to the start or to a kept cell |
| DfsSearch.RootedMarked | js/algorithms/dfs.js:110-112 | marking the top, and keeping it exactly when it can still move, restores `Rooted` |
| DfsSearch.ExploredPushed | js/algorithms/dfs.js:95-106 | once the popped top is marked and its free, unmarked, unstacked neighbours are pushed, every free neighbour of a marked cell is marked or stacked |
| DfsSearch.ExploredMarked | js/algorithms/dfs.js:108-111 | marking a top that is not the end leaves every marked cell but the new top with its free neighbours marked or stacked, and the end marked only if it is the start |
| DfsSearch.MarkedAll | js/algorithms/dfs.js:108-112 | marking the top, and keeping it exactly when it can still move, restores the stack invariant, `Rooted`, and the coverage of every marked cell but the top |
| DfsSearch.Exhausted | js/algorithms/dfs.js:94-107 | when the stack is empty and every free neighbour of a marked cell is marked, an end other than the start is not reachable from the start |
| DfsSearch.Dfs.constructor | js/algorithms/dfs.js:4-9 | the stack and the visited list hold only the start, the path is empty, and the invariants (including `Rooted` and the coverage of the marked cells) hold |
| DfsSearch.Dfs.Head | js/algorithms/dfs.js:11-13 | none exactly when the stack is empty; otherwise the top, the last entry of the stack |
| DfsSearch.Dfs.Queued | js/algorithms/dfs.js:31-33 | true exactly when the cell is on the stack |
| DfsSearch.Dfs.PositionVisited | js/algorithms/dfs.js:23-25 | true exactly when the cell is visited or on the stack |
| DfsSearch.Dfs.Enqueue | js/algorithms/dfs.js:15-17 | the cell goes on top of the stack and nothing else changes |
| DfsSearch.Dfs.Dequeue | js/algorithms/dfs.js:19-21 | returns the old top (none when empty) and removes it; nothing else changes |
| DfsSearch.Dfs.CanMove | js/algorithms/dfs.js:51-57 | true exactly when some neighbour is a free cell that is neither visited nor queued |
| DfsSearch.Dfs.PathToEndPosition | js/algorithms/dfs.js:64-68 | the new path is `PrefixToEnd` of the old one; the stack and visited list are unchanged |
| DfsSearch.Dfs.DeleteIncorrectPositions | js/algorithms/dfs.js:78-85 | the new path is `Pruned(Reverse(old path))`; nothing else changes |
| DfsSearch.Dfs.FastestPath | js/algorithms/dfs.js:87-91 | returns the new path, which is the pruned reversal of the prefix to the end of the old path; it is empty exactly when no old entry is next to the end, steps between neighbours and begins next to the end; on a grown path it ends next to the start, and when the end is next to the start or to a stored cell, an empty result means the end is next to the start; the stack and visited list are unchanged and the invariant is kept |
| DfsSearch.Dfs.PushNeighbours | js/algorithms/dfs.js:97-106 | the new stack is `Pushes` over all four directions in order: the old stack followed by the free neighbours that were neither visited nor queued; it only grows, and each free neighbour ends up visited or queued |
| DfsSearch.Dfs.MarkVisited | js/algorithms/dfs.js:110-112 | the top joins the visited list, and then joins the path exactly when it can still move, counting itself as visited; the invariant, `Rooted` and the coverage of every marked cell but the top are restored |
| DfsSearch.Dfs.Visit | js/algorithms/dfs.js:111 | the cell is appended to the visited list; nothing else changes |
| DfsSearch.Dfs.KeepIfMovable | js/algorithms/dfs.js:112 | the cell joins the path exactly when some neighbour is free and neither visited nor stacked; the stack and visited list are unchanged |
| DfsSearch.Dfs.PopAndPush | js/algorithms/dfs.js:94-106 | the new stack is the old one without its top, followed by `Pushes` from that top; every stacked cell stays the start or next to the start or to a kept cell; every free neighbour of a marked cell is now marked or stacked, and the end is marked only if it is the start |
| DfsSearch.Dfs.Run | js/algorithms/dfs.js:93-115 | ends with nothing when the stack runs dry, and then every free neighbour of a marked cell is marked and an end other than the start is not reachable from the start; otherwise the end cell is on top and the returned route is the pruned reversal of the prefix to the end of the path built while searching; it is empty exactly when no cell of that path is next to the end, steps between neighbours, begins next to the end and ends next to the start; an empty route means the end is next to the start |
| AstarSearch.ToStartDistance | js/algorithms/pathfindings/astar.js:30-42 | the cell's weight plus the octile cost to the start, times 10; proved equal to the source's formula by `ToStartDistanceIsFormula` |
| AstarSearch.ToEndDistance | js/algorithms/pathfindings/astar.js:44-55 | the octile cost to the end, times 10; proved equal to the source's formula by `ToEndDistanceIsFormula` |
| AstarSearch.TotalDistance | js/algorithms/pathfindings/astar.js:57-59 | the sum of the two costs; bounded by `DistanceBounds` |
| AstarSearch.OctileBounds | js/algorithms/pathfindings/astar.js:44-55 | the octile cost lies between 10 times the larger offset and 10 times the Manhattan distance, is symmetric, and is 0 exactly between equal cells |
| AstarSearch.DistanceBounds | js/algorithms/pathfindings/astar.js:30-59 | the cost to the end is 0 exactly at the end; the cost from the start is at least the cell's weight, and equals it exactly at the start; the total is at least each part |
| AstarSearch.FormulaIsWhole | js/algorithms/pathfindings/astar.js:33-40 | the decimal formula times 100 is a whole number, so rounding loses nothing |
| AstarSearch.ToStartDistanceIsFormula | js/algorithms/pathfindings/astar.js:30-42 | the integer cost from the start equals the source's rounded decimal formula |
| AstarSearch.ToEndDistanceIsFormula | js/algorithms/pathfindings/astar.js:44-55 | the integer cost to the end equals the source's rounded decimal formula |
| AstarSearch.PrecedesOrder | js/algorithms/pathfindings/astar.js:70 | the head order (total cost, then cost to the end) is transitive and irreflexive |
| AstarSearch.HeadIsUnique | js/algorithms/pathfindings/astar.js:61-79 | at most one queued cell meets the head condition, so the head is well defined |
| AstarSearch.CreatePathList | js/algorithms/pathfindings/astar.js:12-28 | the table holds exactly the free cells of the board; the start has distance 0, every other cell Infinity, and none has a parent |
| AstarSearch.ParentChainIsWalk | js/algorithms/pathfindings/astar.js:103-112 | when every recorded parent is a neighbour of its cell, a chain of parent links steps between neighbours |
| AstarSearch.Without | js/algorithms/pathfindings/astar.js:85-87 | filtering keeps exactly the entries different from the cell; it adds no repetition and changes nothing when the cell is absent |
| AstarSearch.NeighbourAmongAll | js/algorithms/pathfindings/astar.js:159-160 | trying the four directions in turn reaches exactly the neighbours of the cell |
| AstarSearch.ExpandedQueue | js/algorithms/pathfindings/astar.js:159-169 | the frontier after trying the first k directions in order: a free, present, unsettled neighbour is appended unless already queued |
| AstarSearch.StartExpanding | js/algorithms/pathfindings/astar.js:157 | the head of a consistent search may be expanded: it is queued and has a settled parent unless it is the start |
| AstarSearch.ExpandStep | js/algorithms/pathfindings/astar.js:159-169 | one more direction keeps the expansion invariant: earlier recordings stay, and the new neighbour is recorded and queued if it is free and unsettled |
| AstarSearch.RecordedAdjacent | js/algorithms/pathfindings/astar.js:160-164 | recording the expanded cell as parent of an unsettled neighbour keeps every parent a neighbour of its cell and leaves the start without a parent |
| AstarSearch.EnqueuedReached | js/algorithms/pathfindings/astar.js:165 | queueing a free, unsettled cell whose parent is the expanded cell or settled keeps the expansion invariant |
| AstarSearch.Recorded | js/algorithms/pathfindings/astar.js:164-165 | recording the expanded cell as parent of a free, unsettled neighbour and queueing it keeps the expansion invariant |
| AstarSearch.ClosestEntry | js/algorithms/pathfindings/astar.js:126-146 | the cell's entry after trying the first k directions in order: a free, settled neighbour takes over when strictly cheaper, or equally cheap and closer to the start than the current parent; the entry always has a parent |
| AstarSearch.ClosestEntryReparents | js/algorithms/pathfindings/astar.js:126-146 | the entry either stays as it was, or names a free, settled neighbour as parent and takes its cost (its total cost when that cost is 0) |
| AstarSearch.ClosestEntryWithoutSettledNeighbour | js/algorithms/pathfindings/astar.js:129-145 | without a free, settled neighbour, the entry stays as it was |
| AstarSearch.ClosestEntryNoDearer | js/algorithms/pathfindings/astar.js:140-141 | unless a settled neighbour has cost 0, re-parenting never raises the entry's cost |
| AstarSearch.ChainKept | js/algorithms/pathfindings/astar.js:164 | changing only the parents of unsettled cells keeps every settled cell's parent settled before it |
| AstarSearch.ChainGrows | js/algorithms/pathfindings/astar.js:149 | settling a cell whose parent is already settled keeps every settled cell's parent settled before it |
| AstarSearch.Settled | js/algorithms/pathfindings/astar.js:148-153 | settling the expanded cell, re-parented or not, restores the search invariant |
| AstarSearch.WalkStep | js/algorithms/pathfindings/astar.js:107-109 | each step of the walk back moves to a parent settled strictly earlier, so the walk ends |
| AstarSearch.ChainExtends | js/algorithms/pathfindings/astar.js:108-109 | appending the parent of the last cell keeps a chain of parent links |
| AstarSearch.TrailExtends | js/algorithms/pathfindings/astar.js:108-109 | appending a cell settled earlier than every cell of the trail keeps the trail free of repetition |
| AstarSearch.WalkDone | js/algorithms/pathfindings/astar.js:111 | once the walk reaches the start, dropping the start yields settled, distinct cells linking the end to the start |
| AstarSearch.Astar.constructor | js/algorithms/pathfindings/astar.js:5-10 | the table is as `CreatePathList` builds it, the frontier holds only the start, nothing is settled, and the invariant holds |
| AstarSearch.Astar.Head | js/algorithms/pathfindings/astar.js:61-79 | returns a queued cell with no queued cell strictly better, and every cell queued before it strictly worse |
| AstarSearch.Astar.Enqueue | js/algorithms/pathfindings/astar.js:81-83 | appends the cell to the frontier; nothing else changes |
| AstarSearch.Astar.Dequeue | js/algorithms/pathfindings/astar.js:85-87 | removes every copy of the cell from the frontier; nothing else changes |
| AstarSearch.Astar.IsVisited | js/algorithms/pathfindings/astar.js:95-97 | true exactly when the cell is settled |
| AstarSearch.Astar.IsQueued | js/algorithms/pathfindings/astar.js:99-101 | true exactly when the cell is on the frontier |
| AstarSearch.Astar.PositionParent | js/algorithms/pathfindings/astar.js:114-120 | the recorded parent; none when the cell has no entry or no parent |
| AstarSearch.Astar.AddPathInformation | js/algorithms/pathfindings/astar.js:89-93 | the cell's entry becomes its total cost with the given parent; no other entry changes |
| AstarSearch.Astar.GetFastestPath | js/algorithms/pathfindings/astar.js:103-112 | the result links the end to the start through parent links, stepping between neighbours; it has no repetition, and holds only settled cells other than the start and the end; it is empty when the end is the start |
| AstarSearch.Astar.GetClosestNeighbour | js/algorithms/pathfindings/astar.js:126-146 | the cell's entry becomes `ClosestEntry` over all four directions and no other entry changes; so if it changes, its parent is a free, settled neighbour and it takes that neighbour's cost (its total cost when that cost is 0) |
| AstarSearch.Astar.PositionFound | js/algorithms/pathfindings/astar.js:148-153 | the cell is settled and dropped from the frontier; unless it is the start, its entry becomes `ClosestEntry` over all four directions, with itself already settled, and no other entry changes; the invariant holds again |
| AstarSearch.Astar.Expand | js/algorithms/pathfindings/astar.js:159-169 | every free, unsettled neighbour gets the cell as parent and its total cost, and is queued; the new frontier is `ExpandedQueue` over all four directions: the old frontier followed by such neighbours in direction order; nothing else changes |
| AstarSearch.ExploredSettled | js/algorithms/pathfindings/astar.js:148-169 | expanding a cell, which only grows the frontier and queues its free unsettled neighbours, and then settling it keeps every free neighbour of a settled cell settled or queued |
| AstarSearch.Exhausted | js/algorithms/pathfindings/astar.js:156-173 | when the frontier is empty and every free neighbour of a settled cell is settled, an end other than the start is not reachable from the start |
| AstarSearch.Astar.Run | js/algorithms/pathfindings/astar.js:155-174 | ends with nothing only when the frontier is empty, and then every free neighbour of a settled cell is settled and an end other than the start is not reachable from the start; otherwise the end is queued and differs from the start, and the result links the end to the start through parent links, stepping between neighbours, with distinct settled cells other than the start and the end; the invariant is kept |

## Left out

- The animation hooks `board.next`, `board.found` and `board.sleep` are left
  out, and so is the `async`/`await` around them. They only draw and delay,
  and they change no state of the search.
- The board is the `Board` value. It does not model the document nodes, their
  ids or their `dataset`. `board.js` is not part of this model.
  - `empty` is modelled as "a cell of the board that is not a wall".
  - `element(p)` is modelled as "a cell of the board".
  - A cell's `dataset.distance` is a natural-number weight, 0 when it is
    absent.
- Costs are exact integers, scaled by 10. `ToStartDistanceIsFormula` and
  `ToEndDistanceIsFormula` prove that these integers equal the source's
  rounded decimal formula. The rounding error of floating point itself is not
  modelled.
- Cells are compared by value. The source compares them through their string
  form, and in `dequeue` by reference. Parents are stored as cells, not as
  strings that are parsed back with `split`/`Number`. A missing parent,
  which makes `positionParent` throw and return `null`, is `None`.
- AstarSearch.CreatePathList: requires a free start cell. The source would
  throw when it sets the distance of a start that has no table entry.
- AstarSearch.Astar.GetClosestNeighbour: requires the cell to have a parent
  already. In the source, a tie on distance compares against the cost of
  `null`, which throws. `run` always records a parent before it settles a
  cell.
- AstarSearch.Astar.AddPathInformation: requires the cell to have a table
  entry. The source throws a `TypeError` at `astar.js:91` otherwise. `run`
  only calls it for free cells, and every free cell has an entry.
- A cell without a `data-distance` attribute weighs 0 here. In the source,
  `Number(undefined)` at `astar.js:39` is `NaN`, and every cost of that cell
  becomes `NaN`. Whether the board always sets the attribute depends on
  `board.js`, which is not part of this model.
- AstarSearch.Astar.GetFastestPath: requires the parent links to lead back to
  the start through earlier settled cells, as `run` guarantees. On a table
  where they do not, the source's loop would not end.
- AstarSearch.Astar.Head: a method, because the source's `forEach` updates a
  variable; it requires a non-empty frontier, as `dict.position` throws on an
  empty one.
- DfsSearch.Dfs.DeleteIncorrectPositions: requires a path without repetitions.
  `run` only ever pushes cells that it has not marked before. Because of
  this, the source's `indexOf(position)` finds the entry being walked.
- DfsSearch.Dfs.DeleteIncorrectPositions: works on a local copy of the
  reversed path and stores it back when done. The effect is the same as the
  source's in-place `reverse` and `splice`.
- `Dfs.PopAndPush`, `Dfs.PushNeighbours`, `Dfs.MarkVisited`, `Dfs.Visit`,
  `Dfs.KeepIfMovable` and `Astar.Expand` are the popping, expansion and
  marking parts of the two `run` loops, written as methods of their own.
  They do not stand for separate functions of the source.
- DfsSearch.Dfs.Run and AstarSearch.Astar.Run: neither states that the
  route is shortest, and the source does not promise it. That a route is
  returned whenever the end is reachable follows from their `None` clause:
  nothing is returned only when the end is the start or is not reachable.
- DfsSearch.Dfs.Run and AstarSearch.Astar.Run: require the coverage
  invariant of their loop (`ExploredBelowTop`, `Explored`) on entry; the
  constructors establish it, and the source calls `run` on a fresh search.
