/** Positions on the board, the four movement directions both searches share,
    the board they search, and small facts about sequences of positions. */
module Grid {

  datatype Option<T> = None | Some(value: T)

  /** A cell of the board, as a (row, column) pair. */
  datatype Position = Position(row: int, col: int)

  /** A unit offset: (change of row, change of column). */
  type Direction = (int, int)

  /** The four offsets in the order both searches try them. */
  const Directions: seq<Direction> := [(-1, 0), (0, 1), (1, 0), (0, -1)]

  /** The cell reached from `p` by one step in direction `d`. */
  function NeighbourPosition(p: Position, d: Direction): Position {
    Position(p.row + d.0, p.col + d.1)
  }

  function Abs(x: int): nat {
    if x < 0 then -x else x
  }

  function Min(x: int, y: int): int {
    if x <= y then x else y
  }

  /** `b` is one step away from `a` in one of the four directions. */
  predicate IsNeighbour(a: Position, b: Position) {
    exists i :: 0 <= i < |Directions| && NeighbourPosition(a, Directions[i]) == b
  }

  /** Two cells are neighbours exactly when their Manhattan distance is one. */
  lemma {:induction false} NeighbourIsUnitStep(a: Position, b: Position)
    ensures IsNeighbour(a, b) <==> Abs(a.row - b.row) + Abs(a.col - b.col) == 1
  {
    if Abs(a.row - b.row) + Abs(a.col - b.col) == 1 {
      var i :=
        if b.row == a.row - 1 then 0
        else if b.col == a.col + 1 then 1
        else if b.row == a.row + 1 then 2
        else 3;
      assert NeighbourPosition(a, Directions[i]) == b;
    }
  }

  lemma NeighbourSymmetric(a: Position, b: Position)
    ensures IsNeighbour(a, b) <==> IsNeighbour(b, a)
  {
    NeighbourIsUnitStep(a, b);
    NeighbourIsUnitStep(b, a);
  }

  lemma NotOwnNeighbour(a: Position)
    ensures !IsNeighbour(a, a)
  {
    NeighbourIsUnitStep(a, a);
  }

  /** Every two consecutive entries are neighbours: a walk on the grid. */
  predicate Chain(s: seq<Position>) {
    forall i :: 0 <= i < |s| - 1 ==> IsNeighbour(s[i], s[i + 1])
  }

  /** The board a search runs on: its cells in document order, the walls,
      the start and end cells, and the weight written on each cell
      (a cell without one weighs nothing). */
  datatype Board = Board(nodes: seq<Position>, walls: set<Position>,
                         start: Position, end: Position, weights: map<Position, nat>)
  {
    /** The board has a cell at `p`. */
    predicate Present(p: Position) {
      p in nodes
    }

    /** The board has a cell at `p` and it is not a wall. */
    predicate Empty(p: Position) {
      p in nodes && p !in walls
    }

    predicate IsStartPosition(p: Position) {
      p == start
    }

    predicate IsEndPosition(p: Position) {
      p == end
    }

    function Weight(p: Position): nat {
      if p in weights then weights[p] else 0
    }

    /** Every cell a search may step on. */
    function EmptyCells(): set<Position> {
      set p | p in nodes && p !in walls
    }
  }

  predicate NoDups(s: seq<Position>) {
    forall i, j :: 0 <= i < j < |s| ==> s[i] != s[j]
  }

  function Elems(s: seq<Position>): set<Position> {
    set x | x in s
  }

  /** How many free cells of the board are not in `seen`: the measure that
      bounds both searches. */
  function Unseen(b: Board, seen: seq<Position>): nat {
    |b.EmptyCells() - Elems(seen)|
  }

  /** Adding a free cell that was missing from `seen` shrinks what is left to see. */
  lemma FewerLeft(b: Board, seen: seq<Position>, x: Position)
    requires b.Empty(x) && x !in seen
    ensures Unseen(b, seen + [x]) < Unseen(b, seen)
  {
    assert x in b.EmptyCells();
    assert b.EmptyCells() - Elems(seen + [x]) == (b.EmptyCells() - Elems(seen)) - {x};
  }

  // ---------------------------------------------------------------------------
  // Reachability: what an exhausted search has shown
  // ---------------------------------------------------------------------------

  /** `w` walks from the start between neighbours, stepping only on free cells. */
  ghost predicate FreeWalk(b: Board, w: seq<Position>) {
    && w != [] && w[0] == b.start && Chain(w)
    && forall i :: 0 < i < |w| ==> b.Empty(w[i])
  }

  /** `x` can be reached from the start over free cells. */
  ghost predicate Reachable(b: Board, x: Position) {
    exists w :: FreeWalk(b, w) && w[|w| - 1] == x
  }

  /** Every free neighbour of a cell of `done` is in `done` or in `frontier`. */
  ghost predicate Explored(b: Board, done: seq<Position>, frontier: seq<Position>) {
    forall v, n :: v in done && IsNeighbour(v, n) && b.Empty(n) ==> n in done || n in frontier
  }

  /** A walk from the start never leaves a set that holds the start and all
      free neighbours of its cells. */
  lemma {:induction false} WalkStaysIn(b: Board, s: seq<Position>, w: seq<Position>)
    requires Explored(b, s, []) && b.start in s && FreeWalk(b, w)
    ensures forall i :: 0 <= i < |w| ==> w[i] in s
    decreases |w|
  {
    if |w| > 1 {
      var u := w[..|w| - 1];
      assert FreeWalk(b, u) by {
        forall i | 0 <= i < |u| - 1 ensures IsNeighbour(u[i], u[i + 1]) {
          assert u[i] == w[i] && u[i + 1] == w[i + 1];
        }
      }
      WalkStaysIn(b, s, u);
      assert w[|w| - 2] == u[|u| - 1] && IsNeighbour(w[|w| - 2], w[|w| - 1]);
      forall i | 0 <= i < |w| ensures w[i] in s {
        if i < |w| - 1 {
          assert w[i] == u[i];
        }
      }
    }
  }

  /** A cell outside such a set cannot be reached from the start. */
  lemma ExploredUnreachable(b: Board, s: seq<Position>, x: Position)
    requires Explored(b, s, []) && b.start in s && x !in s
    ensures !Reachable(b, x)
  {
    forall w | FreeWalk(b, w) ensures w[|w| - 1] != x {
      WalkStaysIn(b, s, w);
    }
  }
}
