/** The backtracking search of Helper._Solve and Helper.Solve. */
module Solver {
  import opened BitBoard
  import opened Adjacency
  import opened Feasibility

  // ---------------------------------------------------------------------------
  // Hamiltonian paths

  /** No element occurs twice. */
  predicate Distinct<T(==)>(p: seq<T>)
  {
    forall i, j | 0 <= i < j < |p| :: p[i] != p[j]
  }

  function Elems(p: seq<nat>): set<nat>
  {
    set x | x in p
  }

  /** A walk through the set cells of b that visits each of them exactly once. */
  predicate IsHamiltonianPath(g: Grid, b: set<nat>, p: seq<nat>)
  {
    && InGrid(g, b)
    && IsWalk(g, b, p)
    && Distinct(p)
    && (forall x | x in b :: x in p)
  }

  ghost predicate HamiltonianFrom(g: Grid, b: set<nat>, s: nat)
  {
    exists p :: IsHamiltonianPath(g, b, p) && p[0] == s
  }

  lemma {:induction false} DistinctCard(p: seq<nat>)
    requires Distinct(p)
    ensures |Elems(p)| == |p|
  {
    if p != [] {
      DistinctCard(p[1..]);
      assert Elems(p) == Elems(p[1..]) + {p[0]};
      assert p[0] !in Elems(p[1..]);
    }
  }

  /** What a Hamiltonian path is, spelled out: it covers exactly the set cells, once each, so its
    * length is the population of the board, and each cell is one step from the next. */
  lemma HamiltonianPathFacts(g: Grid, b: set<nat>, p: seq<nat>)
    requires IsHamiltonianPath(g, b, p)
    ensures Elems(p) == b && |p| == |b|
    ensures forall i, j | 0 <= i < j < |p| :: p[i] != p[j]
    ensures forall i | 0 <= i < |p| - 1 :: Adjacent(g, p[i], p[i + 1])
  {
    DistinctCard(p);
  }

  lemma HamiltonianSingle(g: Grid, s: nat)
    requires s < Cells(g)
    ensures IsHamiltonianPath(g, {s}, [s])
  {
  }

  lemma HamiltonianCons(g: Grid, b: set<nat>, s: nat, p: seq<nat>)
    requires s in b && IsHamiltonianPath(g, b - {s}, p) && Adjacent(g, s, p[0])
    ensures IsHamiltonianPath(g, b, [s] + p)
  {
    var q := [s] + p;
    forall i | 0 <= i < |q| - 1 ensures Adjacent(g, q[i], q[i + 1]) {
      if i > 0 {
        assert q[i] == p[i - 1] && q[i + 1] == p[i];
      }
    }
    forall x | x in b ensures x in q {
      if x != s {
        assert x in p;
      }
    }
  }

  /** Removing the first cell of a Hamiltonian path of two or more cells leaves a Hamiltonian path
    * of the rest of the board, starting next to the removed cell. */
  lemma HamiltonianTail(g: Grid, b: set<nat>, p: seq<nat>)
    requires IsHamiltonianPath(g, b, p) && |p| >= 2
    ensures IsHamiltonianPath(g, b - {p[0]}, p[1..]) && Adjacent(g, p[0], p[1]) && p[1] in b - {p[0]}
  {
    var t := p[1..];
    forall i | 0 <= i < |t| ensures t[i] in b - {p[0]} {
      assert t[i] == p[i + 1];
    }
    forall i | 0 <= i < |t| - 1 ensures Adjacent(g, t[i], t[i + 1]) {
      assert t[i] == p[i + 1] && t[i + 1] == p[i + 2];
    }
    forall x | x in b - {p[0]} ensures x in t {
      var k :| 0 <= k < |p| && p[k] == x;
      assert t[k - 1] == x;
    }
  }

  // ---------------------------------------------------------------------------
  // The pruning is sound: a board with a Hamiltonian path passes IsBoardPossible

  lemma ParityClassCons(g: Grid, s: nat, e: set<nat>, c: nat)
    requires s !in e
    ensures |ParityClass(g, e + {s}, c)| == |ParityClass(g, e, c)| + (if Parity(g, s) == c then 1 else 0)
  {
    if Parity(g, s) == c {
      assert ParityClass(g, e + {s}, c) == ParityClass(g, e, c) + {s};
    } else {
      assert ParityClass(g, e + {s}, c) == ParityClass(g, e, c);
    }
  }

  /** Colours alternate along a walk, so a path's own colour class has as many cells as the other
    * class or one more. */
  lemma {:induction false} AlternatingColours(g: Grid, p: seq<nat>)
    requires |p| > 0 && Distinct(p)
    requires forall i | 0 <= i < |p| - 1 :: Adjacent(g, p[i], p[i + 1])
    ensures var own, other := |ParityClass(g, Elems(p), Parity(g, p[0]))|, |ParityClass(g, Elems(p), 1 - Parity(g, p[0]))|;
      own == other || own == other + 1
  {
    var c := Parity(g, p[0]);
    ParityClassHead(g, p, c);
    ParityClassHead(g, p, 1 - c);
    if |p| > 1 {
      var t := p[1..];
      WalkTail(g, p);
      AlternatingColours(g, t);
      AdjacentParity(g, p[0], p[1]);
      assert Parity(g, t[0]) == 1 - c && 1 - (1 - c) == c;
    } else {
      assert Elems(p[1..]) == {};
    }
  }

  /** Counting the colour classes of a path: its first cell adds one to its own class. */
  lemma ParityClassHead(g: Grid, p: seq<nat>, c: nat)
    requires |p| > 0 && Distinct(p)
    ensures |ParityClass(g, Elems(p), c)| == |ParityClass(g, Elems(p[1..]), c)| + (if Parity(g, p[0]) == c then 1 else 0)
  {
    assert p == [p[0]] + p[1..];
    assert Elems(p) == Elems(p[1..]) + {p[0]};
    assert p[0] !in Elems(p[1..]);
    ParityClassCons(g, p[0], Elems(p[1..]), c);
  }

  /** The rest of a walk after its first cell is still a walk. */
  lemma WalkTail(g: Grid, p: seq<nat>)
    requires |p| > 1
    requires forall i | 0 <= i < |p| - 1 :: Adjacent(g, p[i], p[i + 1])
    ensures forall i | 0 <= i < |p[1..]| - 1 :: Adjacent(g, p[1..][i], p[1..][i + 1])
  {
    var t := p[1..];
    forall i | 0 <= i < |t| - 1 ensures Adjacent(g, t[i], t[i + 1]) {
      assert t[i] == p[i + 1] && t[i + 1] == p[i + 2];
    }
  }

  /** A Hamiltonian path starts in the colour class that is the larger one, or in either when the
    * two are the same size. */
  lemma StartColour(g: Grid, b: set<nat>, p: seq<nat>)
    requires IsHamiltonianPath(g, b, p)
    ensures var own, other := |ParityClass(g, b, Parity(g, p[0]))|, |ParityClass(g, b, 1 - Parity(g, p[0]))|;
      own == other || own == other + 1
  {
    HamiltonianPathFacts(g, b, p);
    AlternatingColours(g, p);
  }

  /** IsBoardPossible is a necessary condition: every board with a Hamiltonian path passes it. */
  lemma PossibleIfHamiltonian(g: Grid, b: set<nat>, p: seq<nat>)
    requires IsHamiltonianPath(g, b, p)
    ensures BoardPossible(g, b)
  {
    HamiltonianPathFacts(g, b, p);
    AlternatingColours(g, p);
    assert Balanced(g, b) by {
      if Parity(g, p[0]) == 1 {
        assert 1 - Parity(g, p[0]) == 0;
      }
    }
    forall t | t in b ensures Reachable(g, b, p[0], t) {
      var k :| 0 <= k < |p| && p[k] == t;
      assert IsWalk(g, b, p[..k + 1]);
    }
    ConnectedFromSeed(g, b, p[0]);
  }

  // ---------------------------------------------------------------------------
  // Helper._Solve and Helper.Solve

  /** Moving from pos in direction d leads to a cell from which the rest of the board has a
    * Hamiltonian path. */
  ghost predicate Branch(g: Grid, rest: set<nat>, pos: nat, d: Direction)
  {
    Move(g, rest, pos, d).Some? && HamiltonianFrom(g, rest, Move(g, rest, pos, d).value)
  }

  /** When no direction leads on, there is no Hamiltonian path from pos: the search is complete. */
  lemma NoBranchNoPath(g: Grid, b: set<nat>, pos: nat)
    requires pos in b && |b| != 1
    requires !Branch(g, b - {pos}, pos, Up) && !Branch(g, b - {pos}, pos, Down)
    requires !Branch(g, b - {pos}, pos, Left) && !Branch(g, b - {pos}, pos, Right)
    ensures !HamiltonianFrom(g, b, pos)
  {
    if HamiltonianFrom(g, b, pos) {
      var p :| IsHamiltonianPath(g, b, p) && p[0] == pos;
      HamiltonianPathFacts(g, b, p);
      HamiltonianTail(g, b, p);
      AdjacentIsMove(g, b - {pos}, pos, p[1]);
      assert HamiltonianFrom(g, b - {pos}, p[1]);
      assert Branch(g, b - {pos}, pos, DirectionTo(g, pos, p[1]));
    }
  }

  /** A board that fails the pruning has no Hamiltonian path from any cell. */
  lemma ImpossibleNoPath(g: Grid, b: set<nat>, pos: nat)
    requires !BoardPossible(g, b)
    ensures !HamiltonianFrom(g, b, pos)
  {
    if HamiltonianFrom(g, b, pos) {
      var p :| IsHamiltonianPath(g, b, p) && p[0] == pos;
      PossibleIfHamiltonian(g, b, p);
    }
  }

  /** The path _Solve appends, as a value: the cell at `position` followed by the first completion
    * found by trying Up, Down, Left and Right in that order, or None when _Solve fails. */
  ghost function Search(g: Grid, b: set<nat>, position: Option<nat>): Option<seq<nat>>
    decreases |b|, 1
  {
    if position.None? || position.value !in b || !BoardPossible(g, b) then None
    else if |b| == 1 then Some([position.value])
    else
      var pos := position.value;
      assert |b - {pos}| + 1 == |b|;
      match SearchDirections(g, b - {pos}, pos)
      case None => None
      case Some(t) => Some([pos] + t)
  }

  /** The first of the four recursive attempts, in the order Up, Down, Left, Right, that succeeds. */
  ghost function SearchDirections(g: Grid, rest: set<nat>, pos: nat): Option<seq<nat>>
    decreases |rest| + 1, 0
  {
    var up := Search(g, rest, Move(g, rest, pos, Up));
    if up.Some? then up
    else
      var down := Search(g, rest, Move(g, rest, pos, Down));
      if down.Some? then down
      else
        var left := Search(g, rest, Move(g, rest, pos, Left));
        if left.Some? then left
        else Search(g, rest, Move(g, rest, pos, Right))
  }

  /** The three ways Search unfolds once position names a set cell of a possible board. */
  lemma SearchUnfold(g: Grid, b: set<nat>, pos: nat)
    requires pos in b && BoardPossible(g, b)
    ensures |b| == 1 ==> Search(g, b, Some(pos)) == Some([pos])
    ensures |b| != 1 ==> Search(g, b, Some(pos)).Some? == SearchDirections(g, b - {pos}, pos).Some?
    ensures |b| != 1 && Search(g, b, Some(pos)).Some? ==>
      Search(g, b, Some(pos)).value == [pos] + SearchDirections(g, b - {pos}, pos).value
  {
  }

  /** The search is sound and complete: it finds a path exactly when a Hamiltonian path of b starts
    * at `position`, and what it finds is one. */
  lemma {:induction false} SearchCorrect(g: Grid, b: set<nat>, position: Option<nat>)
    ensures Search(g, b, position).Some? <==> position.Some? && HamiltonianFrom(g, b, position.value)
    ensures Search(g, b, position).Some? ==>
      IsHamiltonianPath(g, b, Search(g, b, position).value) && Search(g, b, position).value[0] == position.value
    decreases |b|, 1
  {
    if position.None? || position.value !in b {
      return;
    }
    var pos := position.value;
    if !BoardPossible(g, b) {
      ImpossibleNoPath(g, b, pos);
    } else if |b| == 1 {
      assert |b - {pos}| == 0;
      assert b == {pos};
      HamiltonianSingle(g, pos);
    } else {
      var rest := b - {pos};
      SearchDirectionsCorrect(g, rest, pos);
      match SearchDirections(g, rest, pos)
      case None =>
        NoBranchNoPath(g, b, pos);
      case Some(t) =>
        HamiltonianCons(g, b, pos, t);
    }
  }

  lemma {:induction false} SearchDirectionsCorrect(g: Grid, rest: set<nat>, pos: nat)
    requires pos < Cells(g)
    ensures SearchDirections(g, rest, pos).Some? <==>
      Branch(g, rest, pos, Up) || Branch(g, rest, pos, Down) ||
      Branch(g, rest, pos, Left) || Branch(g, rest, pos, Right)
    ensures SearchDirections(g, rest, pos).Some? ==>
      var t := SearchDirections(g, rest, pos).value;
      IsHamiltonianPath(g, rest, t) && Adjacent(g, pos, t[0])
    decreases |rest| + 1, 0
  {
    SearchCorrect(g, rest, Move(g, rest, pos, Up));
    SearchCorrect(g, rest, Move(g, rest, pos, Down));
    SearchCorrect(g, rest, Move(g, rest, pos, Left));
    SearchCorrect(g, rest, Move(g, rest, pos, Right));
    MoveIsAdjacent(g, rest, pos, Up);
    MoveIsAdjacent(g, rest, pos, Down);
    MoveIsAdjacent(g, rest, pos, Left);
    MoveIsAdjacent(g, rest, pos, Right);
  }

  /** The shared path list of _Solve: a cell is appended on descent and popped on failure. */
  class PathSearch {
    const grid: Grid
    var path: seq<nat>

    constructor (g: Grid)
      ensures grid == g && path == []
    {
      grid := g;
      path := [];
    }

    /** Helper._Solve: try to extend `path` by a Hamiltonian path of `b` starting at `position`,
      * trying the directions in the order Up, Down, Left, Right. On success the path is extended by
      * exactly the path Search describes; on failure it is as on entry. */
    method TryExtend(b: set<nat>, position: Option<nat>) returns (found: bool)
      modifies this
      decreases |b|, 2
      ensures found <==> Search(grid, b, position).Some?
      ensures found ==> path == old(path) + Search(grid, b, position).value
      ensures !found ==> path == old(path)
    {
      if position.None? {
        return false;
      }
      var pos := position.value;
      if pos !in b {
        return false;
      }
      var possible := IsBoardPossible(grid, b);
      if !possible {
        return false;
      }
      found := Descend(b, pos);
    }

    /** The part of _Solve after the checks: append the cell, stop if it was the last one, otherwise
      * clear it and try the four directions, popping the cell again if none succeeds. */
    method Descend(b: set<nat>, pos: nat) returns (found: bool)
      requires pos in b && BoardPossible(grid, b)
      modifies this
      decreases |b|, 1
      ensures found <==> Search(grid, b, Some(pos)).Some?
      ensures found ==> path == old(path) + Search(grid, b, Some(pos)).value
      ensures !found ==> path == old(path)
    {
      SearchUnfold(grid, b, pos);
      path := path + [pos];
      var size := Size(grid, b);
      if size == 1 {
        return true;
      }
      var rest := b - {pos};
      assert |rest| + 1 == |b|;
      found := TryDirections(rest, pos);
      if found {
        assert path == old(path) + ([pos] + SearchDirections(grid, rest, pos).value);
        return true;
      }
      path := path[..|path| - 1];
    }

    /** The four recursive attempts of _Solve, Up, Down, Left, Right, each on the board with the
      * current cell cleared, stopping at the first that succeeds. */
    method TryDirections(rest: set<nat>, pos: nat) returns (found: bool)
      modifies this
      decreases |rest| + 1, 0
      ensures found <==> SearchDirections(grid, rest, pos).Some?
      ensures found ==> path == old(path) + SearchDirections(grid, rest, pos).value
      ensures !found ==> path == old(path)
    {
      found := TryExtend(rest, Move(grid, rest, pos, Up));
      if !found {
        found := TryExtend(rest, Move(grid, rest, pos, Down));
      }
      if !found {
        found := TryExtend(rest, Move(grid, rest, pos, Left));
      }
      if !found {
        found := TryExtend(rest, Move(grid, rest, pos, Right));
      }
    }
  }

  /** Helper.Solve: the path found by the search from `start`, or the empty path when there is none. */
  method Solve(g: Grid, b: set<nat>, start: nat) returns (path: seq<nat>)
    ensures path == (if Search(g, b, Some(start)).Some? then Search(g, b, Some(start)).value else [])
    ensures path != [] <==> HamiltonianFrom(g, b, start)
    ensures path != [] ==>
      && path[0] == start
      && |path| == |b|
      && Elems(path) == b
      && (forall i, j | 0 <= i < j < |path| :: path[i] != path[j])
      && (forall i | 0 <= i < |path| - 1 :: Adjacent(g, path[i], path[i + 1]))
  {
    var search := new PathSearch(g);
    var found := search.TryExtend(b, Some(start));
    path := search.path;
    SearchCorrect(g, b, Some(start));
    if found {
      assert path == Search(g, b, Some(start)).value;
      HamiltonianPathFacts(g, b, path);
    }
  }
}
