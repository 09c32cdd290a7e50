/** The best-first search (class Astar): its cost table, its arg-min frontier,
    the re-parenting of settled cells and the walk back along parent links. */
module AstarSearch {
  import opened Grid

  // ---------------------------------------------------------------------------
  // Costs
  // ---------------------------------------------------------------------------

  /** A cost in the table: the source's `Infinity` or a finite number. */
  datatype Distance = Infinity | Finite(value: nat)

  /** The source's `<` on costs: `Infinity` is below nothing, and every finite
      cost is below `Infinity`. */
  predicate Below(x: Distance, y: Distance) {
    match x
    case Infinity => false
    case Finite(a) => y.Infinity? || a < y.value
  }

  /** One entry of the cost table: a cost and the cell it was reached from. */
  datatype PathInformation = PathInformation(distance: Distance, parent: Option<Position>)

  /** The octile distance between two cells, scaled by ten: a straight step
      costs 10 and a diagonal one 14. */
  function Octile(a: Position, b: Position): nat {
    var dr := Abs(a.row - b.row);
    var dc := Abs(a.col - b.col);
    10 * Abs(dr - dc) + 14 * Min(dr, dc)
  }

  /** The octile distance lies between ten times the Chebyshev distance and ten
      times the Manhattan distance, does not depend on the direction, and is 0
      only from a cell to itself. */
  lemma {:induction false} OctileBounds(a: Position, b: Position)
    ensures var dr, dc := Abs(a.row - b.row), Abs(a.col - b.col);
      && 10 * (if dr <= dc then dc else dr) <= Octile(a, b) <= 10 * (dr + dc)
      && Octile(a, b) == Octile(b, a)
      && (Octile(a, b) == 0 <==> a == b)
  {
    var dr, dc := Abs(a.row - b.row), Abs(a.col - b.col);
    assert Abs(b.row - a.row) == dr && Abs(b.col - a.col) == dc;
    if dr <= dc {
      assert Octile(a, b) == 10 * (dc - dr) + 14 * dr;
    } else {
      assert Octile(a, b) == 10 * (dr - dc) + 14 * dc;
    }
  }

  /** `toStartDistance`: the weight of `p` plus its octile distance to the start. */
  function ToStartDistance(b: Board, p: Position): nat {
    b.Weight(p) + Octile(p, b.start)
  }

  /** `toEndDistance`: the octile distance from `p` to the end. */
  function ToEndDistance(b: Board, p: Position): nat {
    Octile(p, b.end)
  }

  /** `totalDistance`: cost so far plus the estimate still to go. */
  function TotalDistance(b: Board, p: Position): nat {
    ToStartDistance(b, p) + ToEndDistance(b, p)
  }

  /** The estimate to the end vanishes exactly at the end, the cost from the
      start is at least the weight and equals it exactly at the start, and the
      total bounds both parts (weights are never negative). */
  lemma DistanceBounds(b: Board, p: Position)
    ensures ToEndDistance(b, p) == 0 <==> p == b.end
    ensures ToStartDistance(b, p) >= b.Weight(p)
    ensures ToStartDistance(b, p) == b.Weight(p) <==> p == b.start
    ensures TotalDistance(b, p) >= ToEndDistance(b, p) && TotalDistance(b, p) >= ToStartDistance(b, p)
  {
    OctileBounds(p, b.start);
    OctileBounds(p, b.end);
  }

  // The source computes both distances in floating point and rounds; the
  // following states that formula over the reals and shows that the integer
  // costs above are exactly what it yields.

  function RealAbs(x: real): real {
    if x < 0.0 then -x else x
  }

  /** `Math.round`: the nearest integer, halves rounded up. */
  function Round(x: real): int {
    (x + 0.5).Floor
  }

  /** The unrounded distance of the source from `a` to `target`, with the
      weight term already divided by ten. */
  function FormulaDistance(a: Position, target: Position, weightTerm: real): real {
    var rowDistance := Abs(target.row - a.row) as real;
    var colDistance := Abs(target.col - a.col) as real;
    var totalDistance := rowDistance + colDistance;
    var straightDistance := RealAbs(rowDistance - colDistance);
    var diagonalDistance := RealAbs(totalDistance - straightDistance) / 2.0 * 1.4;
    weightTerm + straightDistance + diagonalDistance
  }

  /** `Math.round(distance * 100) / 10`. */
  function FormulaResult(a: Position, target: Position, weightTerm: real): real {
    Round(FormulaDistance(a, target, weightTerm) * 100.0) as real / 10.0
  }

  lemma FormulaIsWhole(a: Position, target: Position, weight: nat)
    ensures FormulaDistance(a, target, weight as real / 10.0) * 100.0 ==
      (10 * weight + 10 * Octile(a, target)) as real
  {
    var dr, dc := Abs(target.row - a.row), Abs(target.col - a.col);
    assert Abs(a.row - target.row) == dr && Abs(a.col - target.col) == dc;
    if dr <= dc {
      assert Octile(a, target) == 10 * (dc - dr) + 14 * dr;
    } else {
      assert Octile(a, target) == 10 * (dr - dc) + 14 * dc;
    }
  }

  /** The rounding of the source is exact: its start distance is the integer cost. */
  lemma ToStartDistanceIsFormula(b: Board, p: Position)
    ensures FormulaResult(p, b.start, b.Weight(p) as real / 10.0) == ToStartDistance(b, p) as real
  {
    var n := 10 * b.Weight(p) + 10 * Octile(p, b.start);
    FormulaIsWhole(p, b.start, b.Weight(p));
    assert Round(n as real) == n;
  }

  /** The rounding of the source is exact: its end distance is the integer cost. */
  lemma ToEndDistanceIsFormula(b: Board, p: Position)
    ensures FormulaResult(p, b.end, 0.0) == ToEndDistance(b, p) as real
  {
    var n := 10 * Octile(p, b.end);
    FormulaIsWhole(p, b.end, 0);
    assert Round(n as real) == n;
  }

  /** `p` is a strictly better pick than `q` for `head`: a lower total cost, or
      the same total cost and a lower estimate to the end. */
  predicate Precedes(b: Board, p: Position, q: Position) {
    || TotalDistance(b, p) < TotalDistance(b, q)
    || (TotalDistance(b, p) == TotalDistance(b, q) && ToEndDistance(b, p) < ToEndDistance(b, q))
  }

  /** `Precedes` is a strict weak order: transitive, and whatever is not
      strictly better than `y` is strictly worse than anything better than `y`. */
  lemma PrecedesOrder(b: Board, x: Position, y: Position, z: Position)
    ensures Precedes(b, x, y) && Precedes(b, y, z) ==> Precedes(b, x, z)
    ensures Precedes(b, z, y) && !Precedes(b, x, y) ==> Precedes(b, z, x)
    ensures !Precedes(b, x, x)
  {
  }

  /** What `head` picks from `queue`: nothing in the queue is strictly better,
      and every entry before the pick is strictly worse (so on a full tie the
      earliest entry wins). */
  ghost predicate IsHead(b: Board, queue: seq<Position>, r: Position) {
    && (exists k :: 0 <= k < |queue| && queue[k] == r &&
          forall j :: 0 <= j < k ==> Precedes(b, r, queue[j]))
    && (forall j :: 0 <= j < |queue| ==> !Precedes(b, queue[j], r))
  }

  /** There is only one such pick. */
  lemma HeadIsUnique(b: Board, queue: seq<Position>, r1: Position, r2: Position)
    requires IsHead(b, queue, r1) && IsHead(b, queue, r2)
    ensures r1 == r2
  {
    var k1 :| 0 <= k1 < |queue| && queue[k1] == r1 &&
      forall j :: 0 <= j < k1 ==> Precedes(b, r1, queue[j]);
    var k2 :| 0 <= k2 < |queue| && queue[k2] == r2 &&
      forall j :: 0 <= j < k2 ==> Precedes(b, r2, queue[j]);
  }

  // ---------------------------------------------------------------------------
  // The cost table and the frontier, as values
  // ---------------------------------------------------------------------------

  /** `positionParent`: the recorded parent of `p`; none when `p` has no entry
      or no parent (the source catches the resulting error and returns null). */
  function ParentOf(table: map<Position, PathInformation>, p: Position): Option<Position> {
    if p in table then table[p].parent else None
  }

  predicate ParentIn(table: map<Position, PathInformation>, p: Position, s: seq<Position>) {
    ParentOf(table, p).Some? && ParentOf(table, p).value in s
  }

  /** Every step of `s` goes from a cell to its recorded parent. */
  predicate IsParentChain(table: map<Position, PathInformation>, s: seq<Position>) {
    forall i :: 0 <= i < |s| - 1 ==> ParentOf(table, s[i]) == Some(s[i + 1])
  }

  /** The table has an entry for exactly the free cells of the board. */
  ghost predicate TableCovers(b: Board, table: map<Position, PathInformation>) {
    forall p :: p in table <==> b.Empty(p)
  }

  /** Every recorded parent is a neighbour of its cell, and the start has none. */
  ghost predicate ParentsAdjacent(b: Board, table: map<Position, PathInformation>) {
    && ParentOf(table, b.start) == None
    && forall q :: q in table && table[q].parent.Some? ==> IsNeighbour(q, table[q].parent.value)
  }

  /** Following parent links through such a table is a walk on the grid. */
  lemma ParentChainIsWalk(b: Board, table: map<Position, PathInformation>, s: seq<Position>)
    requires ParentsAdjacent(b, table) && IsParentChain(table, s)
    ensures Chain(s)
  {
    forall i | 0 <= i < |s| - 1 ensures IsNeighbour(s[i], s[i + 1]) {
      assert ParentOf(table, s[i]) == Some(s[i + 1]);
    }
  }

  /** `createPathList`: one entry per free cell, no parent, cost 0 at the start
      and `Infinity` everywhere else. */
  method CreatePathList(b: Board) returns (table: map<Position, PathInformation>)
    requires b.Empty(b.start)
    ensures TableCovers(b, table)
    ensures forall p :: p in table ==>
      table[p] == PathInformation(if p == b.start then Finite(0) else Infinity, None)
  {
    table := map[];
    for i := 0 to |b.nodes|
      invariant forall p :: p in table <==> p in b.nodes[..i] && p !in b.walls
      invariant forall p :: p in table ==> table[p] == PathInformation(Infinity, None)
    {
      var position := b.nodes[i];
      if position !in b.walls {
        table := table[position := PathInformation(Infinity, None)];
      }
    }
    assert b.nodes[..|b.nodes|] == b.nodes;
    table := table[b.start := table[b.start].(distance := Finite(0))];
  }

  /** `s` without `x` (the `filter` of `dequeue`). */
  function Without(s: seq<Position>, x: Position): (r: seq<Position>)
    ensures forall y :: y in r <==> y in s && y != x
    ensures NoDups(s) ==> NoDups(r)
    ensures x !in s ==> r == s
  {
    if s == [] then []
    else
      var rest := Without(s[1..], x);
      assert forall y :: y in s ==> y == s[0] || y in s[1..];
      assert NoDups(s) ==> NoDups(s[1..]) && s[0] !in s[1..];
      if s[0] == x then rest else [s[0]] + rest
  }

  /** The settled cells: distinct free cells, the start first, each later one
      with a parent settled before it. */
  ghost predicate SettledChain(b: Board, table: map<Position, PathInformation>, visited: seq<Position>) {
    && NoDups(visited)
    && (forall p :: p in visited ==> b.Empty(p))
    && (visited != [] ==> visited[0] == b.start)
    && (forall i :: 0 < i < |visited| ==> ParentIn(table, visited[i], visited[..i]))
  }

  /** The frontier: distinct free cells, none settled, each (but the start)
      with a parent among `parents`. */
  ghost predicate Frontier(b: Board, table: map<Position, PathInformation>, queue: seq<Position>,
                           visited: seq<Position>, parents: seq<Position>) {
    && NoDups(queue)
    && (forall p :: p in queue ==> p !in visited && b.Empty(p))
    && (forall p :: p in queue && p != b.start ==> ParentIn(table, p, parents))
  }

  /** The state between two steps of the search. */
  ghost predicate Searching(b: Board, table: map<Position, PathInformation>,
                            queue: seq<Position>, visited: seq<Position>) {
    && b.Empty(b.start) && TableCovers(b, table) && ParentsAdjacent(b, table)
    && SettledChain(b, table, visited)
    && Frontier(b, table, queue, visited, visited)
    && (visited == [] ==> queue == [b.start])
  }

  /** The state while the neighbours of `position` are being recorded:
      `position` is queued and about to be settled, so it may already serve as
      a parent. */
  ghost predicate Expanding(b: Board, table: map<Position, PathInformation>,
                            queue: seq<Position>, visited: seq<Position>, position: Position) {
    && b.Empty(b.start) && TableCovers(b, table) && ParentsAdjacent(b, table)
    && SettledChain(b, table, visited)
    && Frontier(b, table, queue, visited, visited + [position])
    && position in queue
    && (position != b.start ==> ParentIn(table, position, visited))
    && (visited == [] ==> position == b.start)
  }

  /** What `getClosestNeighbour` may do to the table: only the entry of `p`
      changes, and if it does, its parent is a free, settled neighbour of `p`
      whose cost it takes over (or, when that cost is 0, whose total cost). */
  ghost predicate Reparented(b: Board, before: map<Position, PathInformation>,
                             after: map<Position, PathInformation>, p: Position, visited: seq<Position>) {
    && p in before && after.Keys == before.Keys
    && (forall q :: q in before && q != p ==> after[q] == before[q])
    && (after[p] == before[p] || TookNeighbour(b, after, p, visited))
  }

  /** The entry of `p` names a free, settled neighbour as parent and carries
      that neighbour's cost, or its total cost when that cost is 0. */
  ghost predicate TookNeighbour(b: Board, table: map<Position, PathInformation>, p: Position, visited: seq<Position>)
    requires p in table
  {
    && table[p].parent.Some?
    && var q := table[p].parent.value;
    && IsNeighbour(p, q) && b.Present(q) && b.Empty(q) && q in visited && q in table
    && table[p].distance == (if table[q].distance != Finite(0) then table[q].distance
                             else Finite(TotalDistance(b, q)))
  }

  /** The entry `getClosestNeighbour` has made of `p`'s after trying the first
      `k` directions: a free, present, settled neighbour takes over when its
      cost is below the current one, or equal to it and the neighbour is
      closer to the start than the current parent. It then becomes the parent
      and passes on its cost, or its total cost when that cost is 0. */
  function ClosestEntry(b: Board, table: map<Position, PathInformation>, visited: seq<Position>,
                        p: Position, k: nat): (r: PathInformation)
    requires k <= |Directions| && TableCovers(b, table) && p in table && table[p].parent.Some?
    ensures r.parent.Some?
  {
    if k == 0 then table[p]
    else
      var e := ClosestEntry(b, table, visited, p, k - 1);
      var n := NeighbourPosition(p, Directions[k - 1]);
      if b.Empty(n) && b.Present(n) && n in visited &&
         (|| Below(table[n].distance, e.distance)
          || (table[n].distance == e.distance &&
              ToStartDistance(b, n) < ToStartDistance(b, e.parent.value)))
      then
        PathInformation(if table[n].distance != Finite(0) then table[n].distance
                        else Finite(TotalDistance(b, n)), Some(n))
      else e
  }

  /** The entry is either left alone or names a free, settled neighbour as
      parent and carries that neighbour's cost (or its total cost). */
  lemma {:induction false} ClosestEntryReparents(b: Board, table: map<Position, PathInformation>,
                                                 visited: seq<Position>, p: Position, k: nat)
    requires k <= |Directions| && TableCovers(b, table) && p in table && table[p].parent.Some?
    ensures Reparented(b, table, table[p := ClosestEntry(b, table, visited, p, k)], p, visited)
  {
    if k > 0 {
      ClosestEntryReparents(b, table, visited, p, k - 1);
      var e := ClosestEntry(b, table, visited, p, k - 1);
      var n := NeighbourPosition(p, Directions[k - 1]);
      if ClosestEntry(b, table, visited, p, k) != e {
        NotOwnNeighbour(p);
        assert IsNeighbour(p, n);
        assert table[p := ClosestEntry(b, table, visited, p, k)][n] == table[n];
      }
    }
  }

  /** Without a free, settled neighbour, the entry stays as it was. */
  lemma {:induction false} ClosestEntryWithoutSettledNeighbour(b: Board, table: map<Position, PathInformation>,
                                                               visited: seq<Position>, p: Position, k: nat)
    requires k <= |Directions| && TableCovers(b, table) && p in table && table[p].parent.Some?
    requires forall n :: IsNeighbour(p, n) && b.Empty(n) ==> n !in visited
    ensures ClosestEntry(b, table, visited, p, k) == table[p]
  {
    if k > 0 {
      ClosestEntryWithoutSettledNeighbour(b, table, visited, p, k - 1);
      assert IsNeighbour(p, NeighbourPosition(p, Directions[k - 1]));
    }
  }

  /** Unless a settled neighbour still has cost 0, re-parenting never raises
      the cost of the entry. */
  lemma {:induction false} ClosestEntryNoDearer(b: Board, table: map<Position, PathInformation>,
                                                visited: seq<Position>, p: Position, k: nat)
    requires k <= |Directions| && TableCovers(b, table) && p in table && table[p].parent.Some?
    requires forall n :: IsNeighbour(p, n) && n in table && n in visited ==> table[n].distance != Finite(0)
    ensures !Below(table[p].distance, ClosestEntry(b, table, visited, p, k).distance)
  {
    if k > 0 {
      ClosestEntryNoDearer(b, table, visited, p, k - 1);
      assert IsNeighbour(p, NeighbourPosition(p, Directions[k - 1]));
    }
  }

  /** `n` is reached from `p` by one of the first `k` directions. */
  predicate NeighbourAmong(p: Position, n: Position, k: nat)
    requires k <= |Directions|
  {
    k > 0 && (NeighbourPosition(p, Directions[k - 1]) == n || NeighbourAmong(p, n, k - 1))
  }

  lemma NeighbourAmongAll(p: Position)
    ensures forall n :: NeighbourAmong(p, n, |Directions|) <==> IsNeighbour(p, n)
  {
    forall n ensures NeighbourAmong(p, n, |Directions|) <==> IsNeighbour(p, n) {
      assert NeighbourAmong(p, n, 4) == (NeighbourPosition(p, Directions[3]) == n || NeighbourAmong(p, n, 3));
      assert NeighbourAmong(p, n, 3) == (NeighbourPosition(p, Directions[2]) == n || NeighbourAmong(p, n, 2));
      assert NeighbourAmong(p, n, 2) == (NeighbourPosition(p, Directions[1]) == n || NeighbourAmong(p, n, 1));
      assert NeighbourAmong(p, n, 1) == (NeighbourPosition(p, Directions[0]) == n);
      if IsNeighbour(p, n) {
        var i :| 0 <= i < |Directions| && NeighbourPosition(p, Directions[i]) == n;
      }
    }
  }

  lemma StartExpanding(b: Board, table: map<Position, PathInformation>,
                       queue: seq<Position>, visited: seq<Position>, position: Position)
    requires Searching(b, table, queue, visited) && IsHead(b, queue, position)
    ensures Expanding(b, table, queue, visited, position)
  {
    var k :| 0 <= k < |queue| && queue[k] == position &&
      forall j :: 0 <= j < k ==> Precedes(b, position, queue[j]);
  }

  /** The entry `addPathInformation` writes for `n` reached from `parent`. */
  function Reached(b: Board, n: Position, parent: Position): PathInformation {
    PathInformation(Finite(TotalDistance(b, n)), Some(parent))
  }

  /** The frontier after the first `k` directions from `p` were tried: a
      free, unsettled neighbour is appended unless it is queued already. */
  function ExpandedQueue(b: Board, visited: seq<Position>, queue: seq<Position>, p: Position, k: nat): seq<Position>
    requires k <= |Directions|
  {
    if k == 0 then queue
    else
      var q := ExpandedQueue(b, visited, queue, p, k - 1);
      var n := NeighbourPosition(p, Directions[k - 1]);
      if b.Present(n) && b.Empty(n) && n !in visited && n !in q then q + [n] else q
  }

  /** Progress of the expansion of `position` after the first `k` directions,
      from the table `table0` and the frontier `queue0` it started with: the
      frontier only grew, by neighbours of `position`; every free unsettled
      neighbour met so far is queued and recorded; nothing else changed. */
  ghost predicate ExpandedUpTo(b: Board, table0: map<Position, PathInformation>, queue0: seq<Position>,
                               table: map<Position, PathInformation>, queue: seq<Position>,
                               visited: seq<Position>, position: Position, k: nat)
    requires k <= |Directions|
  {
    && |queue0| <= |queue| && queue[..|queue0|] == queue0
    && (forall i :: |queue0| <= i < |queue| ==> IsNeighbour(position, queue[i]))
    && (forall n :: NeighbourAmong(position, n, k) && b.Empty(n) && n !in visited ==> n in queue)
    && (forall n :: n in table0 ==>
          (n in table && table[n] == if NeighbourAmong(position, n, k) && n !in visited
                                     then Reached(b, n, position) else table0[n]))
  }

  /** One direction of the expansion keeps its progress. */
  lemma ExpandStep(b: Board, table0: map<Position, PathInformation>, queue0: seq<Position>,
                   table: map<Position, PathInformation>, queue: seq<Position>,
                   visited: seq<Position>, position: Position, k: nat)
    requires k < |Directions| && TableCovers(b, table0) && TableCovers(b, table)
    requires ExpandedUpTo(b, table0, queue0, table, queue, visited, position, k)
    ensures var n := NeighbourPosition(position, Directions[k]);
      if b.Empty(n) && n !in visited then
        ExpandedUpTo(b, table0, queue0, table[n := Reached(b, n, position)],
                     if n in queue then queue else queue + [n], visited, position, k + 1)
      else
        ExpandedUpTo(b, table0, queue0, table, queue, visited, position, k + 1)
  {
    var n := NeighbourPosition(position, Directions[k]);
    assert IsNeighbour(position, n);
    if b.Empty(n) && n !in visited {
      var queue' := if n in queue then queue else queue + [n];
      assert queue'[..|queue0|] == queue0 by {
        assert queue'[..|queue|] == queue;
      }
    }
  }

  /** Recording `position` as the parent of an unsettled neighbour keeps every
      parent a neighbour of its cell and leaves the start without one. */
  lemma RecordedAdjacent(b: Board, table: map<Position, PathInformation>, visited: seq<Position>,
                         position: Position, n: Position)
    requires ParentsAdjacent(b, table) && SettledChain(b, table, visited)
    requires visited == [] ==> position == b.start
    requires IsNeighbour(position, n) && n !in visited
    ensures ParentsAdjacent(b, table[n := Reached(b, n, position)])
  {
    NotOwnNeighbour(position);
    NeighbourSymmetric(position, n);
    // the start is settled first, and before that it is `position` itself
    assert n != b.start by {
      if visited != [] {
        assert visited[0] in visited;
      }
    }
  }

  /** Queueing a free, unsettled cell whose parent is `position` or settled
      keeps the expansion state. */
  lemma EnqueuedReached(b: Board, table: map<Position, PathInformation>, queue: seq<Position>,
                        visited: seq<Position>, position: Position, n: Position)
    requires Expanding(b, table, queue, visited, position)
    requires b.Empty(n) && n !in visited && n !in queue && ParentIn(table, n, visited + [position])
    ensures Expanding(b, table, queue + [n], visited, position)
  {
  }

  /** Recording `position` as the parent of an unsettled free neighbour, and
      queueing that neighbour unless it is queued already, keeps the expansion state. */
  lemma Recorded(b: Board, table: map<Position, PathInformation>, queue: seq<Position>,
                 visited: seq<Position>, position: Position, n: Position)
    requires Expanding(b, table, queue, visited, position)
    requires IsNeighbour(position, n) && b.Empty(n) && n !in visited
    ensures var table' := table[n := Reached(b, n, position)];
      && Expanding(b, table', queue, visited, position)
      && (n !in queue ==> Expanding(b, table', queue + [n], visited, position))
  {
    RecordedAdjacent(b, table, visited, position, n);
    var table' := table[n := Reached(b, n, position)];
    assert forall p :: p != n ==> ParentOf(table', p) == ParentOf(table, p);
    ChainKept(b, table, table', visited);
    assert Frontier(b, table', queue, visited, visited + [position]);
    if n !in queue {
      assert ParentIn(table', n, visited + [position]);
      EnqueuedReached(b, table', queue, visited, position, n);
    }
  }

  /** The settled chain only depends on the parents of settled cells. */
  lemma ChainKept(b: Board, table: map<Position, PathInformation>, table': map<Position, PathInformation>,
                  visited: seq<Position>)
    requires SettledChain(b, table, visited)
    requires forall p :: p in visited ==> ParentOf(table', p) == ParentOf(table, p)
    ensures SettledChain(b, table', visited)
  {
    forall i | 0 < i < |visited| ensures ParentIn(table', visited[i], visited[..i]) {
      assert visited[i] in visited;
    }
  }

  /** Appending a free cell whose parent is already settled keeps the settled
      chain, provided no other parent changed. */
  lemma ChainGrows(b: Board, table: map<Position, PathInformation>, table': map<Position, PathInformation>,
                   visited: seq<Position>, position: Position)
    requires SettledChain(b, table, visited) && b.Empty(position) && position !in visited
    requires visited == [] ==> position == b.start
    requires position != b.start ==> ParentIn(table', position, visited)
    requires forall p :: p != position ==> ParentOf(table', p) == ParentOf(table, p)
    ensures SettledChain(b, table', visited + [position])
  {
    var v' := visited + [position];
    assert v'[..|visited|] == visited;
    forall i | 0 < i < |v'| ensures ParentIn(table', v'[i], v'[..i]) {
      if i < |visited| {
        assert v'[..i] == visited[..i];
      }
    }
  }

  /** Moving `position` from the frontier to the settled cells keeps the
      frontier, provided no other parent changed. */
  lemma FrontierShrinks(b: Board, table: map<Position, PathInformation>, table': map<Position, PathInformation>,
                        queue: seq<Position>, visited: seq<Position>, position: Position)
    requires Frontier(b, table, queue, visited, visited + [position])
    requires forall p :: p != position ==> ParentOf(table', p) == ParentOf(table, p)
    ensures Frontier(b, table', Without(queue, position), visited + [position], visited + [position])
  {
  }

  /** Settling `position` (moving it from the frontier to the end of `visited`)
      and re-parenting it restores the state between two steps. */
  lemma Settled(b: Board, table: map<Position, PathInformation>, queue: seq<Position>,
                visited: seq<Position>, position: Position, table': map<Position, PathInformation>)
    requires Expanding(b, table, queue, visited, position)
    requires if position == b.start then table' == table
             else Reparented(b, table, table', position, visited + [position])
    ensures Searching(b, table', Without(queue, position), visited + [position])
  {
    assert forall p :: p != position ==> ParentOf(table', p) == ParentOf(table, p);
    if position != b.start && table'[position] != table[position] {
      NotOwnNeighbour(position);
      assert ParentIn(table', position, visited);
    }
    ChainGrows(b, table, table', visited, position);
    FrontierShrinks(b, table, table', queue, visited, position);
  }

  /** The walk of `getFastestPath` so far: `position` is `visited[k]`, or the
      end while `k` is `|visited|`; `trail` holds the distinct cells reached
      after the end, each the parent of the one before, all settled at or
      after index `k`, and ends at `position`. */
  ghost predicate WalkingBack(b: Board, table: map<Position, PathInformation>, visited: seq<Position>,
                              trail: seq<Position>, position: Position, k: int) {
    && 0 <= k <= |visited|
    && (k < |visited| ==> position == visited[k])
    && (k == |visited| ==> position == b.end && trail == [])
    && (trail == [] ==> position == b.end)
    && (trail != [] ==> trail[|trail| - 1] == position)
    && (b.end == b.start ==> trail == [])
    && IsParentChain(table, [b.end] + trail)
    && NoDups(trail) && (forall x :: x in trail ==> x in visited[k..])
  }

  /** One step back: the parent of `position` is settled before it, and
      following it keeps the walk. */
  lemma WalkStep(b: Board, table: map<Position, PathInformation>, visited: seq<Position>,
                 trail: seq<Position>, position: Position, k: int) returns (j: nat)
    requires NoDups(visited) && WalkingBack(b, table, visited, trail, position, k)
    requires position != b.start && ParentIn(table, position, visited[..k])
    ensures j < k && ParentOf(table, position) == Some(visited[j])
    ensures WalkingBack(b, table, visited, trail + [visited[j]], visited[j], j)
  {
    var x := ParentOf(table, position).value;
    j :| 0 <= j < k && visited[..k][j] == x;
    ChainExtends(table, [b.end] + trail, x);
    assert [b.end] + (trail + [x]) == ([b.end] + trail) + [x];
    TrailExtends(visited, trail, k, j);
  }

  /** A parent chain extends by the parent of its last cell. */
  lemma ChainExtends(table: map<Position, PathInformation>, chain: seq<Position>, x: Position)
    requires chain != [] && IsParentChain(table, chain)
    requires ParentOf(table, chain[|chain| - 1]) == Some(x)
    ensures IsParentChain(table, chain + [x])
  {
    var c := chain + [x];
    forall i | 0 <= i < |c| - 1 ensures ParentOf(table, c[i]) == Some(c[i + 1]) {
      if i < |chain| - 1 {
        assert c[i] == chain[i] && c[i + 1] == chain[i + 1];
      }
    }
  }

  /** A trail of distinct cells settled at or after `k` extends by the cell
      settled at `j < k`. */
  lemma TrailExtends(visited: seq<Position>, trail: seq<Position>, k: int, j: nat)
    requires NoDups(visited) && j < k <= |visited|
    requires NoDups(trail) && forall x :: x in trail ==> x in visited[k..]
    ensures NoDups(trail + [visited[j]]) && forall x :: x in trail + [visited[j]] ==> x in visited[j..]
  {
    assert visited[j] !in visited[k..];
    assert forall y :: y in visited[k..] ==> y in visited[j..];
  }

  /** At the start, the trail without its last cell is what `getFastestPath`
      promises. */
  lemma WalkDone(b: Board, table: map<Position, PathInformation>, visited: seq<Position>,
                 trail: seq<Position>, k: int)
    requires b.end != b.start ==> b.end !in visited
    requires WalkingBack(b, table, visited, trail, b.start, k)
    ensures var r := if trail == [] then [] else trail[..|trail| - 1];
      && (b.end == b.start ==> r == [])
      && (b.end != b.start ==> IsParentChain(table, [b.end] + r + [b.start]))
      && NoDups(r) && forall x :: x in r ==> x in visited && x != b.start && x != b.end
  {
    assert forall x :: x in visited[k..] ==> x in visited;
    if trail != [] {
      var r := trail[..|trail| - 1];
      assert trail == r + [b.start];
      assert [b.end] + r + [b.start] == [b.end] + trail;
      assert forall i :: 0 <= i < |r| ==> r[i] == trail[i] && trail[i] in visited;
    }
  }

  /** Expanding `p` (the frontier only grows, and every free neighbour of `p`
      ends up settled or queued) and then settling it keeps every settled
      cell's free neighbours settled or queued. */
  lemma ExploredSettled(b: Board, queue0: seq<Position>, queue1: seq<Position>,
                        visited: seq<Position>, p: Position)
    requires Explored(b, visited, queue0)
    requires |queue0| <= |queue1| && queue1[..|queue0|] == queue0
    requires forall n :: IsNeighbour(p, n) && b.Empty(n) && n !in visited ==> n in queue1
    ensures Explored(b, visited + [p], Without(queue1, p))
  {
    forall v, n | v in visited + [p] && IsNeighbour(v, n) && b.Empty(n)
      ensures n in visited + [p] || n in Without(queue1, p)
    {
      if v != p {
        assert v in visited;
        if n in queue0 {
          var j :| 0 <= j < |queue0| && queue0[j] == n;
          assert queue1[..|queue0|][j] == n;
        }
      }
    }
  }

  /** A search that stops with an empty frontier has settled every cell
      reachable from the start; the end is among them only if it is the start. */
  lemma Exhausted(b: Board, table: map<Position, PathInformation>, visited: seq<Position>)
    requires Searching(b, table, [], visited) && Explored(b, visited, [])
    requires b.end != b.start ==> b.end !in visited
    ensures b.end != b.start ==> !Reachable(b, b.end)
  {
    assert visited[0] in visited;
    if b.end != b.start {
      ExploredUnreachable(b, visited, b.end);
    }
  }

  // ---------------------------------------------------------------------------
  // The search object
  // ---------------------------------------------------------------------------

  class Astar {
    const board: Board
    /** The cost table, keyed by cell. */
    var path: map<Position, PathInformation>
    /** The frontier. */
    var queue: seq<Position>
    /** Settled cells, in the order they were settled. */
    var visited: seq<Position>

    ghost predicate Valid()
      reads this
    {
      Searching(board, path, queue, visited)
    }

    constructor (b: Board)
      requires b.Empty(b.start)
      ensures board == b && queue == [b.start] && visited == []
      ensures TableCovers(b, path)
      ensures forall p :: p in path ==>
        path[p] == PathInformation(if p == b.start then Finite(0) else Infinity, None)
      ensures Valid()
    {
      board := b;
      var table := CreatePathList(b);
      path := table;
      queue := [b.start];
      visited := [];
    }

    /** `head`: one pass over the queue keeping the best entry seen so far,
        replaced only by a strictly better one. */
    method Head() returns (r: Position)
      requires |queue| > 0
      ensures r in queue && IsHead(board, queue, r)
    {
      // the source starts from "nothing picked", which the first entry always replaces
      r := queue[0];
      var distance, endDistance := TotalDistance(board, r), ToEndDistance(board, r);
      ghost var at := 0;
      for i := 1 to |queue|
        invariant 0 <= at < i && queue[at] == r
        invariant distance == TotalDistance(board, r) && endDistance == ToEndDistance(board, r)
        invariant forall j :: 0 <= j < at ==> Precedes(board, r, queue[j])
        invariant forall j :: 0 <= j < i ==> !Precedes(board, queue[j], r)
      {
        var position := queue[i];
        var positionFCost, endCost := TotalDistance(board, position), ToEndDistance(board, position);
        if positionFCost < distance || (positionFCost == distance && endCost < endDistance) {
          forall j | 0 <= j < i ensures Precedes(board, position, queue[j]) && !Precedes(board, queue[j], position) {
            PrecedesOrder(board, position, r, queue[j]);
            PrecedesOrder(board, queue[j], r, position);
          }
          r, distance, endDistance, at := position, positionFCost, endCost, i;
        }
      }
    }

    method Enqueue(p: Position)
      modifies this
      ensures queue == old(queue) + [p]
      ensures visited == old(visited) && path == old(path)
    {
      queue := queue + [p];
    }

    method Dequeue(p: Position)
      modifies this
      ensures queue == Without(old(queue), p)
      ensures visited == old(visited) && path == old(path)
    {
      queue := Without(queue, p);
    }

    /** Record `n` as reached from `parent`, at its total cost. */
    method AddPathInformation(n: Position, parent: Position)
      requires n in path
      modifies this
      ensures path == old(path)[n := Reached(board, n, parent)]
      ensures queue == old(queue) && visited == old(visited)
    {
      path := path[n := Reached(board, n, parent)];
    }

    predicate IsVisited(p: Position)
      reads this
    {
      p in visited
    }

    predicate IsQueued(p: Position)
      reads this
    {
      p in queue
    }

    function PositionParent(p: Position): Option<Position>
      reads this
    {
      ParentOf(path, p)
    }

    /** `getFastestPath`: follow parent links from the end until the start,
        then drop the start. */
    method GetFastestPath() returns (r: seq<Position>)
      requires SettledChain(board, path, visited) && visited != [] && ParentsAdjacent(board, path)
      requires board.end != board.start ==> board.end !in visited && ParentIn(path, board.end, visited)
      ensures board.end == board.start ==> r == []
      ensures board.end != board.start ==> IsParentChain(path, [board.end] + r + [board.start])
      ensures board.end != board.start ==> Chain([board.end] + r + [board.start])
      ensures NoDups(r) && forall x :: x in r ==> x in visited && x != board.start && x != board.end
    {
      var trail: seq<Position> := [];
      var position := board.end;
      ghost var k := |visited|;
      while !board.IsStartPosition(position)
        invariant WalkingBack(board, path, visited, trail, position, k)
        decreases k
      {
        var parent := PositionParent(position);
        // the end's parent is settled; a settled cell's parent is settled before it
        assert ParentIn(path, position, visited[..k]) by {
          if k == |visited| {
            assert visited[..k] == visited;
          }
        }
        ghost var j := WalkStep(board, path, visited, trail, position, k);
        position := parent.value;
        trail := trail + [position];
        k := j;
      }
      r := if trail == [] then [] else trail[..|trail| - 1];
      WalkDone(board, path, visited, trail, k);
      if !board.IsStartPosition(board.end) {
        ParentChainIsWalk(board, path, [board.end] + r + [board.start]);
      }
    }

    /** `getClosestNeighbour`: in direction order, take a free settled
        neighbour as parent when its cost is below the current cost of
        `position`, or equal to it and that neighbour is closer to the start
        than the current parent. */
    method GetClosestNeighbour(position: Position)
      requires TableCovers(board, path) && position in path && ParentOf(path, position).Some?
      modifies this
      ensures path == old(path)[position := ClosestEntry(board, old(path), visited, position, |Directions|)]
      ensures Reparented(board, old(path), path, position, visited)
      ensures ParentOf(path, position).Some?
      ensures queue == old(queue) && visited == old(visited)
    {
      ghost var table := path;
      for k := 0 to |Directions|
        invariant path.Keys == table.Keys && forall q :: q in table && q != position ==> path[q] == table[q]
        invariant path[position] == ClosestEntry(board, table, visited, position, k)
        invariant queue == old(queue) && visited == old(visited)
      {
        var neighbour := NeighbourPosition(position, Directions[k]);
        ghost var closest := ClosestEntry(board, table, visited, position, k + 1);
        if board.Empty(neighbour) && board.Present(neighbour) && IsVisited(neighbour) {
          NotOwnNeighbour(position);
          assert IsNeighbour(position, neighbour);
          var neighbourDistance := path[neighbour].distance;
          var parentPosition := PositionParent(position);
          var pathPosition := path[position];
          if || Below(neighbourDistance, pathPosition.distance)
             || (neighbourDistance == pathPosition.distance &&
                 ToStartDistance(board, neighbour) < ToStartDistance(board, parentPosition.value))
          {
            var distance := if neighbourDistance != Finite(0) then neighbourDistance
                            else Finite(TotalDistance(board, neighbour));
            assert closest == PathInformation(distance, Some(neighbour));
            path := path[position := PathInformation(distance, Some(neighbour))];
          } else {
            assert closest == pathPosition;
          }
        } else {
          assert closest == path[position];
        }
      }
      assert path == table[position := ClosestEntry(board, table, visited, position, |Directions|)];
      ClosestEntryReparents(board, old(path), visited, position, |Directions|);
    }

    /** `positionFound`: settle `position`, drop it from the frontier and,
        unless it is the start, re-parent it. */
    method PositionFound(position: Position)
      requires Expanding(board, path, queue, visited, position)
      modifies this
      ensures visited == old(visited) + [position]
      ensures queue == Without(old(queue), position)
      ensures position == board.start ==> path == old(path)
      ensures position != board.start ==>
        path == old(path)[position := ClosestEntry(board, old(path), visited, position, |Directions|)]
      ensures position != board.start ==> Reparented(board, old(path), path, position, visited)
      ensures Valid()
    {
      ghost var table, frontier, settled := path, queue, visited;
      visited := visited + [position];
      Dequeue(position);
      if !board.IsStartPosition(position) {
        GetClosestNeighbour(position);
      }
      Settled(board, table, frontier, settled, position, path);
    }

    /** The expansion step of `run`: in direction order, every neighbour that
        is a free cell and not settled gets `position` as parent and its total
        cost, and is queued unless it is queued already. */
    method Expand(position: Position)
      requires Expanding(board, path, queue, visited, position)
      modifies this
      ensures Expanding(board, path, queue, visited, position)
      ensures visited == old(visited)
      ensures queue == ExpandedQueue(board, visited, old(queue), position, |Directions|)
      ensures |old(queue)| <= |queue| && queue[..|old(queue)|] == old(queue)
      ensures forall i :: |old(queue)| <= i < |queue| ==> IsNeighbour(position, queue[i])
      ensures forall n :: IsNeighbour(position, n) && board.Empty(n) && n !in visited ==> n in queue
      ensures forall n :: n in old(path) ==>
        (n in path && path[n] == if IsNeighbour(position, n) && n !in visited
                                 then Reached(board, n, position) else old(path)[n])
    {
      ghost var table0, queue0 := path, queue;
      for k := 0 to |Directions|
        invariant Expanding(board, path, queue, visited, position)
        invariant ExpandedUpTo(board, table0, queue0, path, queue, visited, position, k)
        invariant queue == ExpandedQueue(board, visited, queue0, position, k)
        invariant visited == old(visited)
      {
        var neighbour := NeighbourPosition(position, Directions[k]);
        ExpandStep(board, table0, queue0, path, queue, visited, position, k);
        if board.Present(neighbour) && board.Empty(neighbour) && !IsVisited(neighbour) {
          assert IsNeighbour(position, neighbour);
          Recorded(board, path, queue, visited, position, neighbour);
          AddPathInformation(neighbour, position);
          if !IsQueued(neighbour) {
            Enqueue(neighbour);
          }
        }
      }
      NeighbourAmongAll(position);
    }

    /** The search: take the head, record and queue its free unsettled
        neighbours, settle it, and stop as soon as the end is queued. */
    method Run() returns (r: Option<seq<Position>>)
      requires Valid() && Explored(board, visited, queue)
      requires board.end != board.start ==> board.end !in queue && board.end !in visited
      modifies this
      ensures Valid()
      ensures r.None? ==> queue == [] && Explored(board, visited, [])
      ensures r.None? && board.end != board.start ==> !Reachable(board, board.end)
      ensures r.Some? ==> board.end in queue && board.end != board.start
      ensures r.Some? ==> IsParentChain(path, [board.end] + r.value + [board.start])
      ensures r.Some? ==> Chain([board.end] + r.value + [board.start])
      ensures r.Some? ==> NoDups(r.value)
      ensures r.Some? ==> forall x :: x in r.value ==> x in visited && x != board.start && x != board.end
    {
      while |queue| > 0
        invariant Valid() && Explored(board, visited, queue)
        invariant board.end != board.start ==> board.end !in queue && board.end !in visited
        decreases Unseen(board, visited)
      {
        var position := Head();
        StartExpanding(board, path, queue, visited, position);
        ghost var queue0, settled := queue, visited;
        Expand(position);
        ghost var queue1 := queue;
        FewerLeft(board, visited, position);
        PositionFound(position);
        ExploredSettled(board, queue0, queue1, settled, position);
        if IsQueued(board.end) {
          assert board.start in visited;
          assert board.end in queue;
          var fastest := GetFastestPath();
          return Some(fastest);
        }
      }
      Exhausted(board, path, visited);
      return None;
    }
  }
}
