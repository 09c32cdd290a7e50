/** The stack-frontier search (class Dfs) and its trim-based path reconstruction. */
module DfsSearch {
  import opened Grid

  // ---------------------------------------------------------------------------
  // Queries that only look at the board and at a sequence of positions
  // ---------------------------------------------------------------------------

  /** The end cell is one of the four neighbours of `p`. */
  predicate NeighbourIsEnd(b: Board, p: Position)
    ensures NeighbourIsEnd(b, p) <==> IsNeighbour(p, b.end)
  {
    exists i :: 0 <= i < |Directions| && b.IsEndPosition(NeighbourPosition(p, Directions[i]))
  }

  /** Index of the first occurrence of `p` in `path`, or -1 when there is none
      (the `indexOf` of the source). */
  function PositionIndexInPath(path: seq<Position>, p: Position): (r: int)
    ensures -1 <= r < |path|
    ensures r == -1 <==> p !in path
    ensures 0 <= r ==> path[r] == p && p !in path[..r]
  {
    if path == [] then -1
    else if path[0] == p then 0
    else
      var k := PositionIndexInPath(path[1..], p);
      assert k >= 0 ==> path[..k + 1] == [path[0]] + path[1..][..k];
      if k == -1 then -1 else k + 1
  }

  /** The index just after the first occurrence of `p`; 0 when `p` is absent. */
  function NextPositionIndex(path: seq<Position>, p: Position): (r: nat)
    ensures r <= |path|
    ensures p in path ==> 0 < r && path[r - 1] == p && p !in path[..r - 1]
    ensures p !in path ==> r == 0
  {
    PositionIndexInPath(path, p) + 1
  }

  /** The entry after the first occurrence of `p`, if any. When `p` is absent
      this is the first entry, as `path[indexOf(p) + 1]` is in the source. */
  function NextPosition(path: seq<Position>, p: Position): (r: Option<Position>)
    ensures r.Some? ==> r.value in path
    ensures p !in path ==> r == (if path == [] then None else Some(path[0]))
    ensures p in path ==> (r.None? <==> path[|path| - 1] == p && p !in path[..|path| - 1])
  {
    var k := NextPositionIndex(path, p);
    if k < |path| then Some(path[k]) else None
  }

  /** In a sequence without repetitions, the next position of an entry is the entry after it. */
  lemma NextPositionOfEntry(path: seq<Position>, i: nat)
    requires NoDups(path) && i < |path|
    ensures NextPositionIndex(path, path[i]) == i + 1
    ensures NextPosition(path, path[i]) == if i + 1 < |path| then Some(path[i + 1]) else None
  {
    var k := PositionIndexInPath(path, path[i]);
    assert forall j :: 0 <= j < k ==> path[..k][j] == path[j];
  }

  /** The first entry of `path` that has the end cell as a neighbour (`find`). */
  function FirstNeighbourOfEndPosition(b: Board, path: seq<Position>): (r: Option<Position>)
    ensures r.None? <==> forall x :: x in path ==> !NeighbourIsEnd(b, x)
    ensures r.Some? ==> r.value in path && NeighbourIsEnd(b, r.value)
    ensures r.Some? ==>
      forall j :: 0 <= j < PositionIndexInPath(path, r.value) ==> !NeighbourIsEnd(b, path[j])
  {
    if path == [] then None
    else if NeighbourIsEnd(b, path[0]) then Some(path[0])
    else
      var r := FirstNeighbourOfEndPosition(b, path[1..]);
      assert forall x :: x in path ==> x == path[0] || x in path[1..];
      assert r.Some? ==> PositionIndexInPath(path, r.value) == PositionIndexInPath(path[1..], r.value) + 1;
      r
  }

  /** Reference definition of what reconstruction keeps first: the prefix of `s`
      that ends with its first entry next to the end cell, or nothing. */
  function PrefixToEnd(b: Board, s: seq<Position>): (r: seq<Position>)
    ensures |r| <= |s| && r == s[..|r|]
  {
    if s == [] then []
    else if NeighbourIsEnd(b, s[0]) then [s[0]]
    else
      var t := PrefixToEnd(b, s[1..]);
      if t == [] then [] else [s[0]] + t
  }

  /** The kept prefix ends with the first entry next to the end cell, and is
      empty exactly when no entry is next to it. */
  lemma {:induction false} PrefixToEndEndsNextToEnd(b: Board, s: seq<Position>)
    ensures var r := PrefixToEnd(b, s);
      && (r != [] ==> NeighbourIsEnd(b, r[|r| - 1]))
      && (forall j :: 0 <= j < |r| - 1 ==> !NeighbourIsEnd(b, r[j]))
      && (r == [] <==> forall x :: x in s ==> !NeighbourIsEnd(b, x))
  {
    if s != [] && !NeighbourIsEnd(b, s[0]) {
      PrefixToEndEndsNextToEnd(b, s[1..]);
      var t := PrefixToEnd(b, s[1..]);
      assert forall x :: x in s ==> x == s[0] || x in s[1..];
      if t != [] {
        var r := [s[0]] + t;
        assert forall j :: 1 <= j < |r| ==> r[j] == t[j - 1];
      }
    }
  }

  /** Cutting the path after the index that follows the first end-neighbour,
      as the source does, leaves exactly `PrefixToEnd`. */
  lemma {:induction false} CutIsPrefixToEnd(b: Board, s: seq<Position>)
    ensures PrefixToEnd(b, s) ==
      match FirstNeighbourOfEndPosition(b, s)
      case None => s[..0]
      case Some(e) => s[..NextPositionIndex(s, e)]
  {
    var r := PrefixToEnd(b, s);
    PrefixToEndEndsNextToEnd(b, s);
    match FirstNeighbourOfEndPosition(b, s)
    case None =>
    case Some(e) =>
      var k := PositionIndexInPath(s, e);
      var m := |r| - 1;
      assert r[m] == s[m];
      assert forall j :: 0 <= j < m ==> r[j] == s[j];
      assert !(m < k) by {
        assert forall j :: 0 <= j < k ==> !NeighbourIsEnd(b, s[j]);
      }
      assert !(k < m) by {
        assert forall j :: 0 <= j < m ==> !NeighbourIsEnd(b, s[j]);
      }
      assert s[..k + 1] == r;
  }

  /** `s` read back to front (the in-place `reverse` of the source). */
  function Reverse(s: seq<Position>): (r: seq<Position>)
    ensures |r| == |s|
    ensures forall i :: 0 <= i < |s| ==> r[i] == s[|s| - 1 - i]
  {
    if s == [] then [] else Reverse(s[1..]) + [s[0]]
  }

  // ---------------------------------------------------------------------------
  // Pruning: what `deleteIncorrectPositions` keeps
  // ---------------------------------------------------------------------------

  /** Walking `rest` with current cell `cur`: an entry that is a neighbour of
      the current cell is kept and becomes current, any other entry is dropped. */
  function PruneFrom(cur: Position, rest: seq<Position>): seq<Position>
    decreases |rest|
  {
    if rest == [] then []
    else if IsNeighbour(cur, rest[0]) then [rest[0]] + PruneFrom(rest[0], rest[1..])
    else PruneFrom(cur, rest[1..])
  }

  /** The first entry stays and is current to begin with. */
  function Pruned(s: seq<Position>): seq<Position> {
    if s == [] then [] else [s[0]] + PruneFrom(s[0], s[1..])
  }

  /** `a` is obtained from `b` by deleting entries. */
  predicate IsSubsequence(a: seq<Position>, b: seq<Position>)
    decreases |b|
  {
    if a == [] then true
    else if b == [] then false
    else if a[0] == b[0] then IsSubsequence(a[1..], b[1..])
    else IsSubsequence(a, b[1..])
  }

  lemma {:induction false} SubsequenceDropFirst(a: seq<Position>, b: seq<Position>)
    requires a != [] && IsSubsequence(a, b)
    ensures IsSubsequence(a[1..], b)
    decreases |b|
  {
    if a[0] != b[0] {
      SubsequenceDropFirst(a, b[1..]);
      SubsequenceOfTail(a[1..], b);
    } else {
      SubsequenceOfTail(a[1..], b);
    }
  }

  lemma {:induction false} SubsequenceOfTail(a: seq<Position>, b: seq<Position>)
    requires b != [] && IsSubsequence(a, b[1..])
    ensures IsSubsequence(a, b)
    decreases |b|, 0
  {
    if a != [] && a[0] == b[0] {
      SubsequenceDropFirst(a, b[1..]);
    }
  }

  lemma {:induction false} SubsequenceElems(a: seq<Position>, b: seq<Position>)
    requires IsSubsequence(a, b)
    ensures forall x :: x in a ==> x in b
    decreases |b|
  {
    if a != [] {
      if a[0] == b[0] {
        SubsequenceElems(a[1..], b[1..]);
        assert forall x :: x in a ==> x == a[0] || x in a[1..];
      } else {
        SubsequenceElems(a, b[1..]);
      }
    }
  }

  lemma {:induction false} SubsequenceNoDups(a: seq<Position>, b: seq<Position>)
    requires IsSubsequence(a, b) && NoDups(b)
    ensures NoDups(a)
    decreases |b|
  {
    if a != [] {
      assert NoDups(b[1..]);
      if a[0] == b[0] {
        SubsequenceNoDups(a[1..], b[1..]);
        SubsequenceElems(a[1..], b[1..]);
        assert b[0] !in b[1..];
        forall i, j | 0 <= i < j < |a| ensures a[i] != a[j] {
          if i > 0 {
            assert a[i] == a[1..][i - 1] && a[j] == a[1..][j - 1];
          } else {
            assert a[j] in a[1..];
          }
        }
      } else {
        SubsequenceNoDups(a, b[1..]);
      }
    }
  }

  lemma {:induction false} PruneFromIsSubsequence(cur: Position, rest: seq<Position>)
    ensures IsSubsequence(PruneFrom(cur, rest), rest)
    decreases |rest|
  {
    if rest != [] {
      PruneFromIsSubsequence(rest[0], rest[1..]);
      PruneFromIsSubsequence(cur, rest[1..]);
      if !IsNeighbour(cur, rest[0]) {
        SubsequenceOfTail(PruneFrom(cur, rest[1..]), rest);
      } else {
        assert ([rest[0]] + PruneFrom(rest[0], rest[1..]))[1..] == PruneFrom(rest[0], rest[1..]);
      }
    }
  }

  /** What pruning keeps is `s` with some entries deleted. */
  lemma PrunedIsSubsequence(s: seq<Position>)
    ensures IsSubsequence(Pruned(s), s)
  {
    if s != [] {
      PruneFromIsSubsequence(s[0], s[1..]);
      assert Pruned(s)[1..] == PruneFrom(s[0], s[1..]);
    }
  }

  lemma {:induction false} PruneFromIsChain(cur: Position, rest: seq<Position>)
    ensures Chain([cur] + PruneFrom(cur, rest))
    decreases |rest|
  {
    if rest != [] {
      if IsNeighbour(cur, rest[0]) {
        PruneFromIsChain(rest[0], rest[1..]);
        assert [cur] + PruneFrom(cur, rest) == [cur] + ([rest[0]] + PruneFrom(rest[0], rest[1..]));
      } else {
        PruneFromIsChain(cur, rest[1..]);
      }
    }
  }

  /** Pruning keeps the first entry, and every two consecutive entries it keeps
      are neighbours. */
  lemma PrunedIsChain(s: seq<Position>)
    ensures Chain(Pruned(s))
    ensures s != [] ==> Pruned(s) != [] && Pruned(s)[0] == s[0]
  {
    if s != [] {
      PruneFromIsChain(s[0], s[1..]);
    }
  }

  lemma {:induction false} PruneFromChain(cur: Position, rest: seq<Position>)
    requires Chain([cur] + rest)
    ensures PruneFrom(cur, rest) == rest
    decreases |rest|
  {
    if rest != [] {
      assert ([cur] + rest)[0] == cur && ([cur] + rest)[1] == rest[0];
      assert ([cur] + rest)[1..] == rest;
      PruneFromChain(rest[0], rest[1..]);
    }
  }

  /** A sequence that is already a chain loses nothing to pruning. */
  lemma PrunedOfChain(s: seq<Position>)
    requires Chain(s)
    ensures Pruned(s) == s
  {
    if s != [] {
      assert [s[0]] + s[1..] == s;
      PruneFromChain(s[0], s[1..]);
    }
  }

  lemma ReverseOfChain(s: seq<Position>)
    requires Chain(s)
    ensures Chain(Reverse(s))
  {
    var r := Reverse(s);
    forall i | 0 <= i < |r| - 1 ensures IsNeighbour(r[i], r[i + 1]) {
      var j := |s| - 2 - i;
      assert r[i] == s[j + 1] && r[i + 1] == s[j];
      NeighbourSymmetric(s[j], s[j + 1]);
    }
  }

  lemma ReverseNoDups(s: seq<Position>)
    requires NoDups(s)
    ensures NoDups(Reverse(s)) && forall x :: x in Reverse(s) <==> x in s
  {
    var r := Reverse(s);
    forall x | x in s ensures x in r {
      var i :| 0 <= i < |s| && s[i] == x;
      assert r[|s| - 1 - i] == x;
    }
  }

  /** Reconstruction on a path that is already a chain only reverses it. */
  lemma ReconstructChain(s: seq<Position>)
    requires Chain(s)
    ensures Pruned(Reverse(s)) == Reverse(s)
  {
    ReverseOfChain(s);
    PrunedOfChain(Reverse(s));
  }

  /** Pruning a pruned sequence changes nothing, and pruning the reversed result
      of reconstruction again deletes nothing. */
  lemma PruneIdempotent(s: seq<Position>)
    ensures Pruned(Pruned(s)) == Pruned(s)
    ensures Pruned(Reverse(Pruned(Reverse(s)))) == Reverse(Pruned(Reverse(s)))
  {
    PrunedIsChain(s);
    PrunedOfChain(Pruned(s));
    PrunedIsChain(Reverse(s));
    ReconstructChain(Pruned(Reverse(s)));
  }

  /** Everything reconstruction promises about the path it returns: it is made
      of entries of the stored path, without repetition, starts next to the
      end cell, and steps between neighbours. */
  lemma {:induction false} Reconstruction(b: Board, s: seq<Position>)
    requires NoDups(s)
    ensures var r := Pruned(Reverse(PrefixToEnd(b, s)));
      && NoDups(r)
      && (forall x :: x in r ==> x in s)
      && Chain(r)
      && (r != [] ==> NeighbourIsEnd(b, r[0]))
      && (r == [] <==> forall x :: x in s ==> !NeighbourIsEnd(b, x))
  {
    var t := PrefixToEnd(b, s);
    PrefixToEndEndsNextToEnd(b, s);
    var rt := Reverse(t);
    var r := Pruned(rt);
    assert forall x :: x in t ==> x in s;
    ReverseNoDups(t);
    PrunedIsSubsequence(rt);
    SubsequenceNoDups(r, rt);
    SubsequenceElems(r, rt);
    PrunedIsChain(rt);
    if t != [] {
      assert rt[0] == t[|t| - 1];
    }
  }

  /** Progress of the walk in `deleteIncorrectPositions` over `path` (which
      started as `reversed`): the first `i` entries are final and the rest will
      be pruned from the last of them. */
  ghost predicate PrunedUpTo(reversed: seq<Position>, path: seq<Position>, i: nat)
    requires i <= |path|
  {
    && (i == 0 ==> path == reversed)
    && (0 < i ==> Pruned(reversed) == path[..i] + PruneFrom(path[i - 1], path[i..]))
    && (0 < i < |path| ==> IsNeighbour(path[i - 1], path[i]))
  }

  /** The walk stands at entry `i`, which is final. */
  ghost predicate PrunedAt(reversed: seq<Position>, path: seq<Position>, i: nat)
    requires i < |path|
  {
    Pruned(reversed) == path[..i + 1] + PruneFrom(path[i], path[i + 1..])
  }

  lemma EnterEntry(reversed: seq<Position>, path: seq<Position>, i: nat)
    requires i < |path| && PrunedUpTo(reversed, path, i)
    ensures PrunedAt(reversed, path, i)
  {
    if i == 0 {
      assert path[..1] == [path[0]];
    } else {
      var rest := path[i..];
      assert rest[0] == path[i] && rest[1..] == path[i + 1..];
      assert PruneFrom(path[i - 1], rest) == [path[i]] + PruneFrom(path[i], path[i + 1..]);
      assert path[..i + 1] == path[..i] + [path[i]];
    }
  }

  lemma LeaveEntry(reversed: seq<Position>, path: seq<Position>, i: nat)
    requires i < |path| && PrunedAt(reversed, path, i)
    requires i + 1 < |path| ==> IsNeighbour(path[i], path[i + 1])
    ensures PrunedUpTo(reversed, path, i + 1)
  {
  }

  /** Deleting the entry after `s[i]` when it is not a neighbour of `s[i]`
      keeps the walk's progress and leaves no repetitions. */
  lemma DeleteAfter(reversed: seq<Position>, s: seq<Position>, i: nat)
    requires i + 1 < |s| && NoDups(s) && !IsNeighbour(s[i], s[i + 1])
    requires PrunedAt(reversed, s, i)
    ensures var t := s[..i + 1] + s[i + 2..];
      && |t| == |s| - 1 && t[i] == s[i] && NoDups(t) && PrunedAt(reversed, t, i)
  {
    var t := s[..i + 1] + s[i + 2..];
    assert t[..i + 1] == s[..i + 1];
    assert t[i + 1..] == s[i + 2..];
    forall a, c | 0 <= a < c < |t| ensures t[a] != t[c] {
      var a' := if a <= i then a else a + 1;
      var c' := if c <= i then c else c + 1;
      assert t[a] == s[a'] && t[c] == s[c'];
    }
  }

  /** The stack after the first `k` directions from `p` were tried: a
      neighbour is pushed when it is a free cell that is neither visited nor
      on the stack yet, so the last such neighbour in direction order ends up
      on top. */
  function Pushes(b: Board, visited: seq<Position>, queue: seq<Position>, p: Position, k: nat): seq<Position>
    requires k <= |Directions|
  {
    if k == 0 then queue
    else
      var q := Pushes(b, visited, queue, p, k - 1);
      var n := NeighbourPosition(p, Directions[k - 1]);
      if b.Empty(n) && !(n in visited || n in q) then q + [n] else q
  }

  /** Pushing only appends, and only neighbours of `p` that were not on the stack. */
  lemma {:induction false} PushesAppends(b: Board, visited: seq<Position>, queue: seq<Position>,
                                         p: Position, k: nat)
    requires k <= |Directions|
    ensures var r := Pushes(b, visited, queue, p, k);
      && |queue| <= |r| && r[..|queue|] == queue
      && (forall i :: |queue| <= i < |r| ==> IsNeighbour(p, r[i]) && r[i] !in queue)
  {
    if k > 0 {
      PushesAppends(b, visited, queue, p, k - 1);
      var q := Pushes(b, visited, queue, p, k - 1);
      var n := NeighbourPosition(p, Directions[k - 1]);
      if b.Empty(n) && !(n in visited || n in q) {
        var r := q + [n];
        assert IsNeighbour(p, n);
        assert n !in queue by {
          assert forall i :: 0 <= i < |queue| ==> queue[i] == q[i];
        }
        assert r[..|queue|] == q[..|queue|];
        assert forall i :: 0 <= i < |q| ==> r[i] == q[i];
      }
    }
  }

  /** Pushing keeps the stack made of distinct free unvisited cells. */
  lemma {:induction false} PushesUnvisited(b: Board, visited: seq<Position>, queue: seq<Position>,
                                           p: Position, k: nat)
    requires k <= |Directions| && Unvisited(b, queue, visited)
    ensures Unvisited(b, Pushes(b, visited, queue, p, k), visited)
  {
    if k > 0 {
      PushesUnvisited(b, visited, queue, p, k - 1);
      var q := Pushes(b, visited, queue, p, k - 1);
      var n := NeighbourPosition(p, Directions[k - 1]);
      if b.Empty(n) && !(n in visited || n in q) {
        Pushed(b, q, visited, n);
      }
    }
  }

  /** After the first `k` directions, each of them that leads to a free cell
      leads to a visited cell or to one on the stack. */
  lemma {:induction false} PushesReachAll(b: Board, visited: seq<Position>, queue: seq<Position>,
                                          p: Position, k: nat)
    requires k <= |Directions|
    ensures var r := Pushes(b, visited, queue, p, k);
      forall j :: 0 <= j < k && b.Empty(NeighbourPosition(p, Directions[j])) ==>
        NeighbourPosition(p, Directions[j]) in visited || NeighbourPosition(p, Directions[j]) in r
  {
    if k > 0 {
      PushesReachAll(b, visited, queue, p, k - 1);
      var q := Pushes(b, visited, queue, p, k - 1);
      assert forall x :: x in q ==> x in Pushes(b, visited, queue, p, k);
    }
  }

  /** `route` is what reconstruction makes of the path `built` by the search:
      the pruned reversal of its prefix to the end, empty exactly when no
      entry of `built` is next to the end, stepping between neighbours and
      starting next to the end. */
  ghost predicate Rebuilt(b: Board, route: seq<Position>, built: seq<Position>) {
    && route == Pruned(Reverse(PrefixToEnd(b, built)))
    && (route == [] <==> forall x :: x in built ==> !NeighbourIsEnd(b, x))
    && Chain(route)
    && (route != [] ==> IsNeighbour(route[0], b.end))
  }

  // ---------------------------------------------------------------------------
  // Where the route comes back to: every kept cell was reached from the start
  // ---------------------------------------------------------------------------

  /** `x` is next to the start or to an entry of `m`. */
  ghost predicate Attached(b: Board, m: seq<Position>, x: Position)
    decreases |m|
  {
    || IsNeighbour(x, b.start)
    || (m != [] && (IsNeighbour(x, m[|m| - 1]) || Attached(b, m[..|m| - 1], x)))
  }

  /** `Attached`, stated by index. */
  lemma {:induction false} AttachedIndex(b: Board, m: seq<Position>, x: Position)
    ensures Attached(b, m, x) <==>
      IsNeighbour(x, b.start) || exists j :: 0 <= j < |m| && IsNeighbour(x, m[j])
    decreases |m|
  {
    if m != [] {
      var n := |m| - 1;
      AttachedIndex(b, m[..n], x);
      if j :| 0 <= j < n && IsNeighbour(x, m[..n][j]) {
        assert m[j] == m[..n][j];
      }
      if j :| 0 <= j < |m| && IsNeighbour(x, m[j]) {
        if j < n {
          assert m[..n][j] == m[j];
        }
      }
    }
  }

  /** Every entry of `m` is next to the start or to an entry before it. */
  ghost predicate Grown(b: Board, m: seq<Position>)
    decreases |m|
  {
    m != [] ==> Grown(b, m[..|m| - 1]) && Attached(b, m[..|m| - 1], m[|m| - 1])
  }

  /** `Grown`, stated by index. */
  lemma {:induction false} GrownAt(b: Board, m: seq<Position>, i: nat)
    requires Grown(b, m) && i < |m|
    ensures Attached(b, m[..i], m[i])
    decreases |m|
  {
    var n := |m| - 1;
    if i < n {
      GrownAt(b, m[..n], i);
      assert m[..n][..i] == m[..i] && m[..n][i] == m[i];
    }
  }

  /** `x` is next to `a` or to an entry of `t`. */
  ghost predicate NextToAny(x: Position, a: Position, t: seq<Position>) {
    IsNeighbour(x, a) || exists j :: 0 <= j < |t| && IsNeighbour(x, t[j])
  }

  /** Read front to back, every entry is next to `a` or to an entry after it. */
  ghost predicate AnchoredAfter(a: Position, s: seq<Position>)
    decreases |s|
  {
    s != [] ==> NextToAny(s[0], a, s[1..]) && AnchoredAfter(a, s[1..])
  }

  lemma {:induction false} PruneFromEndsNextTo(a: Position, cur: Position, rest: seq<Position>)
    requires AnchoredAfter(a, rest) && NextToAny(cur, a, rest)
    ensures var t := PruneFrom(cur, rest);
      if t == [] then IsNeighbour(cur, a) else IsNeighbour(t[|t| - 1], a)
    decreases |rest|
  {
    if rest != [] {
      var tail := rest[1..];
      if IsNeighbour(cur, rest[0]) {
        PruneFromEndsNextTo(a, rest[0], tail);
        assert PruneFrom(cur, rest) == [rest[0]] + PruneFrom(rest[0], tail);
      } else {
        assert NextToAny(cur, a, tail) by {
          if !IsNeighbour(cur, a) {
            var j :| 0 <= j < |rest| && IsNeighbour(cur, rest[j]);
            assert j > 0 && tail[j - 1] == rest[j];
          }
        }
        PruneFromEndsNextTo(a, cur, tail);
      }
    }
  }

  /** When every entry is next to `a` or to a later entry, the last entry
      that pruning keeps is next to `a`. */
  lemma PrunedEndsNextTo(a: Position, s: seq<Position>)
    requires AnchoredAfter(a, s)
    ensures var t := Pruned(s); t != [] ==> IsNeighbour(t[|t| - 1], a)
  {
    if s != [] {
      PruneFromEndsNextTo(a, s[0], s[1..]);
    }
  }

  /** Each kept entry is next to the start or to an entry kept before it,
      which comes after it once the prefix is reversed. */
  lemma ReversedHead(b: Board, m: seq<Position>, k: nat)
    requires Grown(b, m) && 0 < k <= |m|
    ensures NextToAny(m[k - 1], b.start, Reverse(m[..k - 1]))
  {
    GrownAt(b, m, k - 1);
    AttachedIndex(b, m[..k - 1], m[k - 1]);
    if !IsNeighbour(m[k - 1], b.start) {
      var j :| 0 <= j < k - 1 && IsNeighbour(m[k - 1], m[..k - 1][j]);
      assert Reverse(m[..k - 1])[k - 2 - j] == m[j];
    }
  }

  /** Reversing a prefix of a path grown from the start puts every entry
      before the entries it was grown from. */
  lemma {:induction false} GrownReversed(b: Board, m: seq<Position>, k: nat)
    requires Grown(b, m) && k <= |m|
    ensures AnchoredAfter(b.start, Reverse(m[..k]))
  {
    if k > 0 {
      GrownReversed(b, m, k - 1);
      ReversedHead(b, m, k);
      var r := Reverse(m[..k]);
      var t := Reverse(m[..k - 1]);
      assert forall i :: 0 <= i < k - 1 ==> r[1..][i] == t[i];
      assert r[1..] == t;
    }
  }

  /** The route rebuilt from a path grown from the start ends next to the start. */
  lemma RouteEndsNextToStart(b: Board, m: seq<Position>)
    requires Grown(b, m)
    ensures var route := Pruned(Reverse(PrefixToEnd(b, m)));
      route != [] ==> IsNeighbour(route[|route| - 1], b.start)
  {
    GrownReversed(b, m, |PrefixToEnd(b, m)|);
    PrunedEndsNextTo(b.start, Reverse(PrefixToEnd(b, m)));
  }

  /** When the end cell is next to the start or to a kept cell, the route is
      empty only if the start and the end are neighbours. */
  lemma EmptyRouteOnlyNextToStart(b: Board, m: seq<Position>)
    requires Attached(b, m, b.end)
    ensures Pruned(Reverse(PrefixToEnd(b, m))) == [] ==> IsNeighbour(b.start, b.end)
  {
    var prefix := PrefixToEnd(b, m);
    PrefixToEndEndsNextToEnd(b, m);
    PrunedIsChain(Reverse(prefix));
    NeighbourSymmetric(b.start, b.end);
    AttachedIndex(b, m, b.end);
    if prefix == [] && !IsNeighbour(b.end, b.start) {
      var j :| 0 <= j < |m| && IsNeighbour(b.end, m[j]);
      var y := m[j];
      assert y in m;
      NeighbourSymmetric(b.end, y);
    }
  }

  // ---------------------------------------------------------------------------
  // Invariants of the search, on the values of its three lists
  // ---------------------------------------------------------------------------

  /** Nothing is queued, visited or kept twice, the start is visited, and the
      kept path holds visited free cells other than the start and the end. */
  ghost predicate StackConsistent(b: Board, queue: seq<Position>, visited: seq<Position>, path: seq<Position>) {
    && NoDups(queue) && NoDups(visited) && NoDups(path)
    && b.start in visited
    && (forall x :: x in queue ==> x == b.start || b.Empty(x))
    && (forall x :: x in path ==> x in visited && x != b.start && x != b.end && b.Empty(x))
  }

  /** Besides `StackConsistent`: only the top of the stack has been visited
      (it was marked at the end of the previous step and is popped next). */
  ghost predicate StackValid(b: Board, queue: seq<Position>, visited: seq<Position>, path: seq<Position>) {
    && StackConsistent(b, queue, visited, path)
    && (queue != [] ==>
          queue[|queue| - 1] in visited &&
          forall i :: 0 <= i < |queue| - 1 ==> queue[i] !in visited)
  }

  /** The stack holds distinct free cells none of which has been visited. */
  ghost predicate Unvisited(b: Board, queue: seq<Position>, visited: seq<Position>) {
    NoDups(queue) && forall x :: x in queue ==> x !in visited && b.Empty(x)
  }

  /** Popping the visited top leaves only unvisited cells. */
  lemma Popped(b: Board, queue: seq<Position>, visited: seq<Position>, path: seq<Position>)
    requires StackValid(b, queue, visited, path) && queue != []
    ensures Unvisited(b, queue[..|queue| - 1], visited)
  {
    var q := queue[..|queue| - 1];
    forall x | x in q ensures x !in visited && b.Empty(x) {
      var i :| 0 <= i < |q| && q[i] == x;
      assert queue[i] == x;
    }
  }

  /** Pushing a free cell that is neither visited nor queued keeps the stack unvisited. */
  lemma Pushed(b: Board, queue: seq<Position>, visited: seq<Position>, n: Position)
    requires Unvisited(b, queue, visited) && b.Empty(n) && n !in visited && n !in queue
    ensures Unvisited(b, queue + [n], visited)
  {
  }

  /** After expansion the search is still consistent. */
  lemma Expanded(b: Board, queue: seq<Position>, visited: seq<Position>, path: seq<Position>)
    requires StackConsistent(b, [], visited, path) && Unvisited(b, queue, visited)
    ensures StackConsistent(b, queue, visited, path)
  {
  }

  /** Marking the top of an unvisited stack visited (and perhaps keeping it)
      restores the step invariant. */
  lemma Marked(b: Board, queue: seq<Position>, visited: seq<Position>, path: seq<Position>, keep: bool)
    requires StackConsistent(b, [], visited, path) && Unvisited(b, queue, visited)
    requires queue != [] && queue[|queue| - 1] != b.end
    ensures var h := queue[|queue| - 1];
      StackValid(b, queue, visited + [h], if keep then path + [h] else path)
  {
    var h := queue[|queue| - 1];
    assert h in queue;
  }

  /** Some neighbour of `p` is a free cell that is neither visited nor queued. */
  predicate CanMoveFrom(b: Board, queue: seq<Position>, visited: seq<Position>, p: Position) {
    exists i :: 0 <= i < |Directions| &&
      b.Empty(NeighbourPosition(p, Directions[i])) &&
      !(NeighbourPosition(p, Directions[i]) in visited || NeighbourPosition(p, Directions[i]) in queue)
  }

  /** Where the stack's cells come from: the kept path `m` grows from the
      start, every queued cell other than the start is next to the start or
      to a kept cell, and the top is the start, a kept cell, or a cell with
      nowhere to go. */
  ghost predicate Rooted(b: Board, queue: seq<Position>, visited: seq<Position>, m: seq<Position>) {
    && Grown(b, m)
    && (forall x :: x in queue ==> x == b.start || Attached(b, m, x))
    && (queue != [] ==>
          var top := queue[|queue| - 1];
          top == b.start || top in m || !CanMoveFrom(b, queue, visited, top))
  }

  /** Where no direction leads to a free cell that is new, nothing is pushed. */
  lemma {:induction false} PushesNone(b: Board, visited: seq<Position>, queue: seq<Position>, p: Position, k: nat)
    requires k <= |Directions|
    requires forall i :: 0 <= i < k ==>
      var n := NeighbourPosition(p, Directions[i]); !b.Empty(n) || n in visited || n in queue
    ensures Pushes(b, visited, queue, p, k) == queue
  {
    if k > 0 {
      PushesNone(b, visited, queue, p, k - 1);
    }
  }

  /** Popping the top splits `Rooted` into what holds of the rest of the
      stack and what holds of the popped cell. */
  lemma RootedPopped(b: Board, queue: seq<Position>, visited: seq<Position>, m: seq<Position>)
    requires Rooted(b, queue, visited, m) && queue != []
    ensures forall x :: x in queue[..|queue| - 1] ==> x == b.start || Attached(b, m, x)
    ensures var p := queue[|queue| - 1];
      p == b.start || p in m || !CanMoveFrom(b, queue[..|queue| - 1] + [p], visited, p)
  {
    assert queue[..|queue| - 1] + [queue[|queue| - 1]] == queue;
    assert forall x :: x in queue[..|queue| - 1] ==> x in queue;
  }

  /** Pushing the neighbours of a popped cell `p` keeps every queued cell
      next to the start or to a kept cell: a cell that is neither the start
      nor kept has nowhere to go, so it pushes nothing. */
  lemma RootedPushed(b: Board, q: seq<Position>, p: Position, visited: seq<Position>, m: seq<Position>)
    requires forall x :: x in q ==> x == b.start || Attached(b, m, x)
    requires p == b.start || p in m || !CanMoveFrom(b, q + [p], visited, p)
    ensures forall x :: x in Pushes(b, visited, q, p, |Directions|) ==> x == b.start || Attached(b, m, x)
  {
    var r := Pushes(b, visited, q, p, |Directions|);
    if p == b.start || p in m {
      PushesAppends(b, visited, q, p, |Directions|);
      forall x | x in r ensures x == b.start || Attached(b, m, x) {
        var i :| 0 <= i < |r| && r[i] == x;
        if i < |q| {
          assert r[..|q|][i] == x;
        } else {
          NeighbourSymmetric(p, x);
          if p != b.start {
            var j :| 0 <= j < |m| && m[j] == p;
            AttachedIndex(b, m, x);
          }
        }
      }
    } else {
      NotOwnNeighbour(p);
      forall i | 0 <= i < |Directions|
        ensures var n := NeighbourPosition(p, Directions[i]); !b.Empty(n) || n in visited || n in q
      {
        assert IsNeighbour(p, NeighbourPosition(p, Directions[i]));
      }
      PushesNone(b, visited, q, p, |Directions|);
    }
  }

  /** Marking the top (which is not the start) and keeping it exactly when it
      can still move restores `Rooted`. */
  lemma RootedMarked(b: Board, queue: seq<Position>, visited: seq<Position>, m: seq<Position>, keep: bool)
    requires Grown(b, m) && queue != [] && queue[|queue| - 1] != b.start
    requires forall x :: x in queue ==> x == b.start || Attached(b, m, x)
    requires keep == CanMoveFrom(b, queue, visited + [queue[|queue| - 1]], queue[|queue| - 1])
    ensures var h := queue[|queue| - 1];
      Rooted(b, queue, visited + [h], if keep then m + [h] else m)
  {
    var h := queue[|queue| - 1];
    if keep {
      var m' := m + [h];
      assert h in queue;
      assert m'[..|m'| - 1] == m;
    }
  }

  /** What the search has covered between two steps: the top of the stack
      is the cell marked last and not yet expanded; every other visited cell
      has each free neighbour visited or stacked; and the end is visited only
      when it is the start. */
  ghost predicate ExploredBelowTop(b: Board, queue: seq<Position>, visited: seq<Position>) {
    && (b.end in visited ==> b.end == b.start)
    && (queue == [] ==> Explored(b, visited, []))
    && (queue != [] ==>
          && visited != [] && queue[|queue| - 1] == visited[|visited| - 1]
          && Explored(b, visited[..|visited| - 1], queue))
  }

  /** Popping the top `p` (the cell marked last) and pushing its free
      neighbours that are neither visited nor stacked leaves every visited
      cell with each free neighbour visited or stacked. */
  lemma ExploredPushed(b: Board, visited: seq<Position>, q: seq<Position>, p: Position)
    requires visited != [] && p == visited[|visited| - 1]
    requires Explored(b, visited[..|visited| - 1], q + [p])
    ensures Explored(b, visited, Pushes(b, visited, q, p, |Directions|))
  {
    var r := Pushes(b, visited, q, p, |Directions|);
    PushesAppends(b, visited, q, p, |Directions|);
    PushesReachAll(b, visited, q, p, |Directions|);
    var earlier := visited[..|visited| - 1];
    assert visited == earlier + [p];
    forall v, n | v in visited && IsNeighbour(v, n) && b.Empty(n) ensures n in visited || n in r {
      if v == p {
        var i :| 0 <= i < |Directions| && NeighbourPosition(p, Directions[i]) == n;
      } else {
        assert v in earlier;
        if n in q {
          var j :| 0 <= j < |q| && q[j] == n;
          assert r[..|q|][j] == n;
        }
      }
    }
  }

  /** Marking the top, which is not the end, leaves it as the one visited
      cell not yet expanded. */
  lemma ExploredMarked(b: Board, queue: seq<Position>, visited: seq<Position>, h: Position)
    requires Explored(b, visited, queue) && (b.end in visited ==> b.end == b.start)
    requires queue != [] && h == queue[|queue| - 1] && h != b.end
    ensures ExploredBelowTop(b, queue, visited + [h])
  {
    assert (visited + [h])[..|visited|] == visited;
  }

  /** Everything the search keeps between two steps. */
  ghost predicate BetweenSteps(b: Board, queue: seq<Position>, visited: seq<Position>, path: seq<Position>) {
    StackValid(b, queue, visited, path) && Rooted(b, queue, visited, path) && ExploredBelowTop(b, queue, visited)
  }

  /** Marking the top and keeping it exactly when it can still move (counting
      itself as visited) restores everything the search keeps between steps. */
  lemma MarkedAll(b: Board, queue: seq<Position>, visited: seq<Position>, path: seq<Position>, h: Position, keep: bool)
    requires StackConsistent(b, [], visited, path) && Unvisited(b, queue, visited)
    requires queue != [] && h == queue[|queue| - 1] && h != b.end
    requires Grown(b, path)
    requires forall x :: x in queue ==> x == b.start || Attached(b, path, x)
    requires Explored(b, visited, queue) && (b.end in visited ==> b.end == b.start)
    requires keep == CanMoveFrom(b, queue, visited + [h], h)
    ensures BetweenSteps(b, queue, visited + [h], if keep then path + [h] else path)
  {
    assert h in queue;
    Marked(b, queue, visited, path, keep);
    RootedMarked(b, queue, visited, path, keep);
    ExploredMarked(b, queue, visited, h);
  }

  /** A search that stops with nothing left to pop has visited every cell
      reachable from the start; the end is among them only if it is the start. */
  lemma Exhausted(b: Board, visited: seq<Position>)
    requires Explored(b, visited, []) && b.start in visited
    requires b.end in visited ==> b.end == b.start
    ensures b.end != b.start ==> !Reachable(b, b.end)
  {
    if b.end != b.start {
      ExploredUnreachable(b, visited, b.end);
    }
  }

  // ---------------------------------------------------------------------------
  // The search object
  // ---------------------------------------------------------------------------

  class Dfs {
    const board: Board
    /** The frontier, used as a stack: the last entry is expanded next. */
    var queue: seq<Position>
    /** Cells marked visited, in the order they were marked. */
    var visited: seq<Position>
    /** Visited cells that still had somewhere to go when they were visited. */
    var path: seq<Position>
    /** `path` as the search builds it: marking extends both alike, and
        reconstruction rewrites `path` only. */
    ghost var movable: seq<Position>

    /** Holds throughout the search. */
    ghost predicate Consistent()
      reads this`queue, this`visited, this`path
    {
      StackConsistent(board, queue, visited, path)
    }

    /** Holds between two steps of the search. */
    ghost predicate Valid()
      reads this`queue, this`visited, this`path
    {
      StackValid(board, queue, visited, path)
    }

    constructor (b: Board)
      ensures board == b && queue == [b.start] && visited == [b.start] && path == [] && movable == []
      ensures Valid() && Rooted(board, queue, visited, movable) && ExploredBelowTop(board, queue, visited)
    {
      board := b;
      queue := [b.start];
      visited := [b.start];
      path := [];
      movable := [];
    }

    /** The top of the stack. */
    function Head(): (r: Option<Position>)
      reads this`queue
      ensures r.None? <==> queue == []
      ensures r.Some? ==> queue == queue[..|queue| - 1] + [r.value]
    {
      if queue == [] then None else Some(queue[|queue| - 1])
    }

    method Enqueue(p: Position)
      modifies this
      ensures queue == old(queue) + [p] && Head() == Some(p)
      ensures visited == old(visited) && path == old(path) && movable == old(movable)
    {
      queue := queue + [p];
    }

    method Dequeue() returns (r: Option<Position>)
      modifies this
      ensures r == old(Head())
      ensures queue == if old(queue) == [] then [] else old(queue)[..|old(queue)| - 1]
      ensures visited == old(visited) && path == old(path) && movable == old(movable)
    {
      if queue == [] {
        r := None;
      } else {
        r := Some(queue[|queue| - 1]);
        queue := queue[..|queue| - 1];
      }
    }

    predicate Queued(p: Position)
      reads this`queue
    {
      p in queue
    }

    /** Visited, or waiting on the stack. */
    predicate PositionVisited(p: Position)
      reads this`queue, this`visited
    {
      p in visited || Queued(p)
    }

    /** Some neighbour of `p` is a free cell the search has not reached yet. */
    predicate CanMove(p: Position)
      reads this`queue, this`visited
      ensures CanMove(p) <==>
        exists n :: IsNeighbour(p, n) && board.Empty(n) && !PositionVisited(n)
    {
      CanMoveFrom(board, queue, visited, p)
    }

    /** Cut `path` after its first entry next to the end cell; clear it when
        there is none. */
    method PathToEndPosition()
      modifies this
      ensures path == PrefixToEnd(board, old(path))
      ensures queue == old(queue) && visited == old(visited) && movable == old(movable)
    {
      var neighbourOfEnd := FirstNeighbourOfEndPosition(board, path);
      // `indexOf(undefined) + 1` is 0, so without a match the whole path goes
      var from := if neighbourOfEnd.Some? then NextPositionIndex(path, neighbourOfEnd.value) else 0;
      CutIsPrefixToEnd(board, path);
      path := path[..from];
    }

    /** Reverse `path`, then walk it and delete every entry that is not a
        neighbour of the entry kept before it. */
    method DeleteIncorrectPositions()
      requires NoDups(path)
      modifies this
      ensures path == Pruned(Reverse(old(path)))
      ensures queue == old(queue) && visited == old(visited) && movable == old(movable)
    {
      ReverseNoDups(path);
      // the walk works on a local copy of the reversed path, stored back at the end
      var walk := Reverse(path);
      ghost var reversed := walk;
      var i := 0;
      while i < |walk|
        invariant i <= |walk| && NoDups(walk)
        invariant PrunedUpTo(reversed, walk, i)
        invariant unchanged(this)
        decreases |walk| - i
      {
        var position := walk[i];
        EnterEntry(reversed, walk, i);
        NextPositionOfEntry(walk, i);
        var next := NextPosition(walk, position);
        while next.Some? && !IsNeighbour(position, next.value)
          invariant i < |walk| && walk[i] == position && NoDups(walk)
          invariant PrunedAt(reversed, walk, i)
          invariant next == if i + 1 < |walk| then Some(walk[i + 1]) else None
          invariant unchanged(this)
          decreases |walk|
        {
          DeleteAfter(reversed, walk, i);
          // `NextPositionIndex(walk, position)` is `i + 1`: entries are distinct
          walk := walk[..i + 1] + walk[i + 2..];
          NextPositionOfEntry(walk, i);
          next := NextPosition(walk, position);
        }
        LeaveEntry(reversed, walk, i);
        i := i + 1;
      }
      assert walk[..i] == walk;
      path := walk;
    }

    /** The two reconstruction steps; returns the reconstructed path. */
    method FastestPath() returns (r: seq<Position>)
      requires Consistent()
      modifies this
      ensures path == Pruned(Reverse(PrefixToEnd(board, old(path))))
      ensures r == path && queue == old(queue) && visited == old(visited) && movable == old(movable)
      ensures Consistent()
      ensures Rebuilt(board, r, old(path))
      ensures Grown(board, old(path)) && r != [] ==> IsNeighbour(r[|r| - 1], board.start)
      ensures Attached(board, old(path), board.end) && r == [] ==> IsNeighbour(board.start, board.end)
    {
      if Grown(board, path) {
        RouteEndsNextToStart(board, path);
      }
      if Attached(board, path, board.end) {
        EmptyRouteOnlyNextToStart(board, path);
      }
      Reconstruction(board, path);
      PathToEndPosition();
      DeleteIncorrectPositions();
      r := path;
    }

    /** One expansion: in direction order, push every neighbour of `position`
        that is a free cell and neither visited nor queued. */
    method PushNeighbours(position: Position)
      requires Unvisited(board, queue, visited)
      modifies this
      ensures queue == Pushes(board, visited, old(queue), position, |Directions|)
      ensures Unvisited(board, queue, visited)
      ensures visited == old(visited) && path == old(path) && movable == old(movable)
      ensures |old(queue)| <= |queue| && queue[..|old(queue)|] == old(queue)
      ensures forall i :: |old(queue)| <= i < |queue| ==>
        IsNeighbour(position, queue[i]) && queue[i] !in old(queue)
      ensures forall k :: 0 <= k < |Directions| && board.Empty(NeighbourPosition(position, Directions[k])) ==>
        PositionVisited(NeighbourPosition(position, Directions[k]))
    {
      for k := 0 to |Directions|
        invariant queue == Pushes(board, visited, old(queue), position, k)
        invariant visited == old(visited) && path == old(path) && movable == old(movable)
      {
        var neighbour := NeighbourPosition(position, Directions[k]);
        if board.Empty(neighbour) && !PositionVisited(neighbour) {
          Enqueue(neighbour);
        }
      }
      PushesAppends(board, visited, old(queue), position, |Directions|);
      PushesUnvisited(board, visited, old(queue), position, |Directions|);
      PushesReachAll(board, visited, old(queue), position, |Directions|);
    }

    /** Mark the top of the stack visited, and keep it on the path when it
        can still move somewhere. */
    method MarkVisited(h: Position)
      requires StackConsistent(board, [], visited, path) && Unvisited(board, queue, visited)
      requires queue != [] && h == queue[|queue| - 1] && h != board.end
      requires path == movable && Grown(board, movable)
      requires forall x :: x in queue ==> x == board.start || Attached(board, movable, x)
      requires Explored(board, visited, queue) && (board.end in visited ==> board.end == board.start)
      modifies this
      ensures queue == old(queue) && visited == old(visited) + [h]
      ensures path == if CanMoveFrom(board, queue, visited, h) then old(path) + [h] else old(path)
      ensures movable == path
      ensures BetweenSteps(board, queue, visited, path)
    {
      // the source asks `canMove` after marking, so `h` itself counts as visited
      ghost var movesOn := CanMoveFrom(board, queue, visited + [h], h);
      MarkedAll(board, queue, visited, path, h, movesOn);
      Visit(h);
      KeepIfMovable(h);
    }

    /** Add `h` to the visited cells. */
    method Visit(h: Position)
      modifies this
      ensures visited == old(visited) + [h]
      ensures queue == old(queue) && path == old(path) && movable == old(movable)
    {
      visited := visited + [h];
    }

    /** Keep `h` on the path when it can still move somewhere. */
    method KeepIfMovable(h: Position)
      modifies this
      ensures path == if CanMoveFrom(board, queue, visited, h) then old(path) + [h] else old(path)
      ensures movable == path && queue == old(queue) && visited == old(visited)
    {
      var keep := CanMove(h);
      if keep {
        path := path + [h];
      }
      movable := path;
    }

    /** The first half of a pass of the search loop: pop the top of the
        stack and push its free unreached neighbours in direction order. */
    method PopAndPush()
      requires Valid() && path == movable && Rooted(board, queue, visited, movable) && queue != []
      requires ExploredBelowTop(board, queue, visited)
      modifies this
      ensures queue == Pushes(board, visited, old(queue)[..|old(queue)| - 1], old(queue)[|old(queue)| - 1], |Directions|)
      ensures visited == old(visited) && path == old(path) && movable == old(movable)
      ensures StackConsistent(board, [], visited, path) && Unvisited(board, queue, visited)
      ensures forall x :: x in queue ==> x == board.start || Attached(board, movable, x)
      ensures Explored(board, visited, queue) && (board.end in visited ==> board.end == board.start)
    {
      Popped(board, queue, visited, path);
      RootedPopped(board, queue, visited, movable);
      ghost var rest := queue[..|queue| - 1];
      var top := Dequeue();
      PushNeighbours(top.value);
      RootedPushed(board, rest, top.value, visited, movable);
      ExploredPushed(board, visited, rest, top.value);
    }

    /** The search: pop a cell, push its free unreached neighbours in direction
        order, then either stop (stack empty, or end cell on top) or mark the
        top visited and remember it when it can still move. */
    method Run() returns (r: Option<seq<Position>>)
      requires Valid() && path == movable && Rooted(board, queue, visited, movable)
      requires ExploredBelowTop(board, queue, visited)
      modifies this
      ensures Consistent()
      ensures r.None? ==> queue == [] && Valid() && Explored(board, visited, [])
      ensures r.None? && board.end != board.start ==> !Reachable(board, board.end)
      ensures r.Some? ==> Head() == Some(board.end) && r.value == path
      ensures r.Some? ==> Rebuilt(board, r.value, movable) && Grown(board, movable)
      ensures r.Some? && r.value == [] ==> IsNeighbour(board.start, board.end)
      ensures r.Some? && r.value != [] ==> IsNeighbour(r.value[|r.value| - 1], board.start)
    {
      while |queue| > 0
        invariant Valid() && path == movable && Rooted(board, queue, visited, movable)
        invariant ExploredBelowTop(board, queue, visited)
        decreases Unseen(board, visited)
      {
        PopAndPush();
        var head := Head();
        if head.None? {
          Exhausted(board, visited);
          return None;
        }
        if board.IsEndPosition(head.value) {
          assert queue[|queue| - 1] == board.end && board.end in queue;
          Expanded(board, queue, visited, path);
          assert Attached(board, movable, board.end);
          var fastest := FastestPath();
          return Some(fastest);
        }
        FewerLeft(board, visited, head.value);
        MarkVisited(head.value);
      }
      Exhausted(board, visited);
      return None;
    }
  }
}
