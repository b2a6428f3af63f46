/** The feasibility pruning of Helper.IsBoardPossible and the population count Helper.Size. */
module Feasibility {
  import opened BitBoard
  import opened Adjacency

  // ---------------------------------------------------------------------------
  // Specification: parity balance and connectivity

  /** The set cells of b whose checkerboard colour is c. */
  function ParityClass(g: Grid, b: set<nat>, c: nat): set<nat>
  {
    set x | x in b && Parity(g, x) == c
  }

  /** The two colour classes of b differ in size by at most one. */
  predicate Balanced(g: Grid, b: set<nat>)
  {
    var even, odd := |ParityClass(g, b, 0)|, |ParityClass(g, b, 1)|;
    even <= odd + 1 && odd <= even + 1
  }

  /** A non-empty sequence of set cells of b, each adjacent to the next. */
  predicate IsWalk(g: Grid, b: set<nat>, p: seq<nat>)
  {
    && |p| > 0
    && (forall i | 0 <= i < |p| :: p[i] in b)
    && (forall i | 0 <= i < |p| - 1 :: Adjacent(g, p[i], p[i + 1]))
  }

  ghost predicate Reachable(g: Grid, b: set<nat>, s: nat, t: nat)
  {
    exists p :: IsWalk(g, b, p) && p[0] == s && p[|p| - 1] == t
  }

  /** Every set cell can reach every other through set cells. */
  ghost predicate Connected(g: Grid, b: set<nat>)
  {
    forall s, t | s in b && t in b :: Reachable(g, b, s, t)
  }

  /** What IsBoardPossible decides: a non-empty board of grid cells, colour-balanced and connected. */
  ghost predicate BoardPossible(g: Grid, b: set<nat>)
  {
    b != {} && InGrid(g, b) && Balanced(g, b) && Connected(g, b)
  }

  // ---------------------------------------------------------------------------
  // Reachability is an equivalence on the set cells

  lemma ReachableRefl(g: Grid, b: set<nat>, s: nat)
    requires s in b
    ensures Reachable(g, b, s, s)
  {
    assert IsWalk(g, b, [s]);
  }

  lemma ReachableStep(g: Grid, b: set<nat>, s: nat, x: nat, y: nat)
    requires Reachable(g, b, s, x) && Adjacent(g, x, y) && y in b
    ensures Reachable(g, b, s, y)
  {
    var p :| IsWalk(g, b, p) && p[0] == s && p[|p| - 1] == x;
    assert IsWalk(g, b, p + [y]);
  }

  function Reverse(p: seq<nat>): (r: seq<nat>)
    ensures |r| == |p| && forall i | 0 <= i < |p| :: r[i] == p[|p| - 1 - i]
  {
    if p == [] then [] else Reverse(p[1..]) + [p[0]]
  }

  lemma ReachableSym(g: Grid, b: set<nat>, s: nat, t: nat)
    requires Reachable(g, b, s, t)
    ensures Reachable(g, b, t, s)
  {
    var p :| IsWalk(g, b, p) && p[0] == s && p[|p| - 1] == t;
    var r := Reverse(p);
    forall i | 0 <= i < |r| - 1 ensures Adjacent(g, r[i], r[i + 1]) {
      assert r[i + 1] == p[|p| - 2 - i] && r[i] == p[(|p| - 2 - i) + 1];
    }
    assert IsWalk(g, b, r);
  }

  lemma ReachableTrans(g: Grid, b: set<nat>, s: nat, t: nat, u: nat)
    requires Reachable(g, b, s, t) && Reachable(g, b, t, u)
    ensures Reachable(g, b, s, u)
  {
    var p :| IsWalk(g, b, p) && p[0] == s && p[|p| - 1] == t;
    var q :| IsWalk(g, b, q) && q[0] == t && q[|q| - 1] == u;
    var pq := p + q[1..];
    forall i | 0 <= i < |pq| - 1 ensures Adjacent(g, pq[i], pq[i + 1]) {
      if i + 1 < |p| {
        assert pq[i] == p[i] && pq[i + 1] == p[i + 1];
      } else if i + 1 == |p| {
        assert pq[i] == q[0] && pq[i + 1] == q[1];
      } else {
        assert pq[i] == q[i - |p| + 1] && pq[i + 1] == q[i - |p| + 2];
      }
    }
    assert IsWalk(g, b, pq);
  }

  /** Connectivity can be checked from any single set cell: the reason the search may start from
    * whichever cell it finds first. */
  lemma ConnectedFromSeed(g: Grid, b: set<nat>, seed: nat)
    requires seed in b
    ensures Connected(g, b) <==> forall t | t in b :: Reachable(g, b, seed, t)
  {
    if forall t | t in b :: Reachable(g, b, seed, t) {
      forall s, t | s in b && t in b ensures Reachable(g, b, s, t) {
        ReachableSym(g, b, seed, s);
        ReachableTrans(g, b, s, seed, t);
      }
    }
  }

  /** A set of cells closed under Move within b holds every cell reachable from any of its members. */
  lemma ClosedHoldsReachable(g: Grid, b: set<nat>, v: set<nat>, s: nat, t: nat)
    requires v <= b && s in v && Reachable(g, b, s, t)
    requires forall x, d | x in v :: Move(g, b, x, d).Some? ==> Move(g, b, x, d).value in v
    ensures t in v
  {
    var p :| IsWalk(g, b, p) && p[0] == s && p[|p| - 1] == t;
    var i := 0;
    while i < |p| - 1
      invariant 0 <= i < |p| && p[i] in v
    {
      AdjacentIsMove(g, b, p[i], p[i + 1]);
      assert Move(g, b, p[i], DirectionTo(g, p[i], p[i + 1])).Some?;
      i := i + 1;
    }
  }

  // ---------------------------------------------------------------------------
  // Counting set cells below a bit index

  function CellsBelow(b: set<nat>, k: nat): set<nat>
  {
    set x | x in b && x < k
  }

  lemma CellsBelowStep(g: Grid, b: set<nat>, k: nat)
    ensures forall c :: (|ParityClass(g, CellsBelow(b, k + 1), c)|
      == |ParityClass(g, CellsBelow(b, k), c)| + (if k in b && Parity(g, k) == c then 1 else 0))
  {
    forall c ensures |ParityClass(g, CellsBelow(b, k + 1), c)|
      == |ParityClass(g, CellsBelow(b, k), c)| + (if k in b && Parity(g, k) == c then 1 else 0)
    {
      if k in b && Parity(g, k) == c {
        assert ParityClass(g, CellsBelow(b, k + 1), c) == ParityClass(g, CellsBelow(b, k), c) + {k};
      } else {
        assert ParityClass(g, CellsBelow(b, k + 1), c) == ParityClass(g, CellsBelow(b, k), c);
      }
    }
  }

  lemma CellsBelowCard(b: set<nat>, k: nat)
    ensures |CellsBelow(b, k + 1)| == |CellsBelow(b, k)| + (if k in b then 1 else 0)
  {
    if k in b {
      assert CellsBelow(b, k + 1) == CellsBelow(b, k) + {k};
    } else {
      assert CellsBelow(b, k + 1) == CellsBelow(b, k);
    }
  }

  /** Helper.Size: count the set bits by walking a one-bit mask over the board's bits. */
  method Size(g: Grid, b: set<nat>) returns (size: nat)
    requires InGrid(g, b)
    ensures size == |b|
  {
    size := 0;
    var mask := 0;
    while mask < Cells(g)
      invariant mask <= Cells(g)
      invariant size == |CellsBelow(b, mask)|
    {
      CellsBelowCard(b, mask);
      if mask in b {
        size := size + 1;
      }
      mask := mask + 1;
    }
    assert CellsBelow(b, mask) == b;
  }

  // ---------------------------------------------------------------------------
  // The breadth-first search of IsBoardPossible
  //
  // The FIFO `visited` may hold a cell several times: a cell is marked only when it is popped,
  // and popping an already marked cell enqueues its unmarked neighbours again. The search still
  // ends. Give each queue entry (ghost) the number of unmarked cells at the time it was enqueued.
  // An entry's label is at least the current number of unmarked cells, and strictly more once its
  // cell is marked; every entry enqueued while processing a popped entry gets a strictly smaller
  // label than the popped one. So the sum of 5^label drops: at most four entries of 5^(l-1) replace
  // one of 5^l.

  function Pow5(n: nat): (r: nat)
    ensures r >= 1
  {
    if n == 0 then 1 else 5 * Pow5(n - 1)
  }

  lemma {:induction false} Pow5Monotone(a: nat, b: nat)
    requires a <= b
    ensures Pow5(a) <= Pow5(b)
  {
    if a < b {
      Pow5Monotone(a, b - 1);
    }
  }

  function SumPow5(s: seq<nat>): nat
  {
    if s == [] then 0 else Pow5(s[0]) + SumPow5(s[1..])
  }

  lemma {:induction false} SumPow5Append(s: seq<nat>, x: nat)
    ensures SumPow5(s + [x]) == SumPow5(s) + Pow5(x)
  {
    if s != [] {
      assert (s + [x])[1..] == s[1..] + [x];
      SumPow5Append(s[1..], x);
    }
  }

  /** The invariant of the queue: its cells are set grid cells reached from the seed, and the
    * labels bound the number of unmarked cells as described above. */
  ghost predicate QueueInv(g: Grid, b: set<nat>, seed: nat, marked: set<nat>, queue: seq<nat>, labels: seq<nat>)
  {
    && |labels| == |queue|
    && (forall i | 0 <= i < |queue| :: queue[i] in b && queue[i] < Cells(g) && Reachable(g, b, seed, queue[i]))
    && (forall i | 0 <= i < |queue| :: labels[i] >= |b - marked|)
    && (forall i | 0 <= i < |queue| :: queue[i] in marked ==> labels[i] > |b - marked|)
  }

  /** The nested `visit` of IsBoardPossible: enqueue the neighbour in direction d if it is set and
    * not yet marked. */
  method Visit(g: Grid, b: set<nat>, marked: set<nat>, position: nat, d: Direction,
               queue: seq<nat>, ghost seed: nat, ghost labels: seq<nat>)
    returns (queue': seq<nat>, ghost labels': seq<nat>)
    requires position in marked && position < Cells(g) && marked <= b
    requires Reachable(g, b, seed, position)
    requires QueueInv(g, b, seed, marked, queue, labels)
    ensures QueueInv(g, b, seed, marked, queue', labels')
    ensures queue' == queue + (if Move(g, b, position, d).Some? && Move(g, b, position, d).value !in marked
                               then [Move(g, b, position, d).value] else [])
    ensures Move(g, b, position, d).Some? ==>
      Move(g, b, position, d).value in marked || Move(g, b, position, d).value in queue'
    ensures forall y | y in queue :: y in queue'
    ensures SumPow5(labels') <= SumPow5(labels) + Pow5(|b - marked|)
  {
    var next := Move(g, b, position, d);
    queue', labels' := queue, labels;
    if next.Some? && next.value !in marked {
      MoveIsAdjacent(g, b, position, d);
      ReachableStep(g, b, seed, position, next.value);
      queue' := queue + [next.value];
      labels' := labels + [|b - marked|];
      SumPow5Append(labels, |b - marked|);
    }
  }

  /** Every set neighbour of a marked cell is marked or waiting in the queue. */
  ghost predicate Closed(g: Grid, b: set<nat>, marked: set<nat>, queue: seq<nat>)
  {
    forall x, d | x in marked && Move(g, b, x, d).Some? ::
      Move(g, b, x, d).value in marked || Move(g, b, x, d).value in queue
  }

  /** Everything the queue loop keeps, apart from termination. */
  ghost predicate SearchInv(g: Grid, b: set<nat>, seed: nat, marked: set<nat>, queue: seq<nat>, labels: seq<nat>)
  {
    && marked <= b && InGrid(g, marked)
    && (forall x | x in marked :: Reachable(g, b, seed, x))
    && QueueInv(g, b, seed, marked, queue, labels)
    && (seed in marked || (marked == {} && queue == [seed]))
    && Closed(g, b, marked, queue)
  }

  /** Popping the head and marking it keeps the queue invariant, and the head's label exceeds the
    * new number of unmarked cells. */
  lemma PopAndMark(g: Grid, b: set<nat>, seed: nat, marked: set<nat>, queue: seq<nat>, labels: seq<nat>)
    requires queue != [] && QueueInv(g, b, seed, marked, queue, labels)
    ensures QueueInv(g, b, seed, marked + {queue[0]}, queue[1..], labels[1..])
    ensures |b - (marked + {queue[0]})| < labels[0]
  {
    var marked' := marked + {queue[0]};
    if queue[0] !in marked {
      assert b - marked == (b - marked') + {queue[0]};
    } else {
      assert marked' == marked;
    }
    assert |b - marked'| <= |b - marked|;
    forall i | 0 <= i < |queue| - 1 && queue[1..][i] in marked'
      ensures labels[1..][i] > |b - marked'|
    {
      assert queue[1..][i] == queue[i + 1] && labels[1..][i] == labels[i + 1];
    }
  }

  lemma ClosedAfterRound(g: Grid, b: set<nat>, marked: set<nat>, queue: seq<nat>, queue': seq<nat>)
    requires queue != [] && Closed(g, b, marked, queue)
    requires forall y | y in queue[1..] :: y in queue'
    requires forall d | Move(g, b, queue[0], d).Some? ::
      Move(g, b, queue[0], d).value in marked + {queue[0]} || Move(g, b, queue[0], d).value in queue'
    ensures Closed(g, b, marked + {queue[0]}, queue')
  {
    forall x, d | x in marked + {queue[0]} && Move(g, b, x, d).Some?
      ensures Move(g, b, x, d).value in marked + {queue[0]} || Move(g, b, x, d).value in queue'
    {
      var y := Move(g, b, x, d).value;
      if x != queue[0] && y !in marked && y != queue[0] {
        assert y in queue;
        assert y in queue[1..];
      }
    }
  }

  /** One round of the queue loop: pop, mark, visit the four neighbours. */
  method SearchStep(g: Grid, b: set<nat>, marked: set<nat>, queue: seq<nat>, ghost seed: nat, ghost labels: seq<nat>)
    returns (marked': set<nat>, queue': seq<nat>, ghost labels': seq<nat>)
    requires queue != []
    requires SearchInv(g, b, seed, marked, queue, labels)
    ensures SearchInv(g, b, seed, marked', queue', labels')
    ensures SumPow5(labels') < SumPow5(labels)
  {
    var position := queue[0];
    var rest := queue[1..];
    ghost var restLabels := labels[1..];
    assert SumPow5(labels) == Pow5(labels[0]) + SumPow5(restLabels);
    marked' := marked + {position};
    ghost var u := |b - marked'|;
    PopAndMark(g, b, seed, marked, queue, labels);
    if marked == {} {
      ReachableRefl(g, b, seed);
    }
    var q1, q2, q3: seq<nat>;
    ghost var l1, l2, l3: seq<nat>;
    q1, l1 := Visit(g, b, marked', position, Up, rest, seed, restLabels);
    q2, l2 := Visit(g, b, marked', position, Down, q1, seed, l1);
    q3, l3 := Visit(g, b, marked', position, Left, q2, seed, l2);
    queue', labels' := Visit(g, b, marked', position, Right, q3, seed, l3);
    assert SumPow5(labels') <= SumPow5(restLabels) + 4 * Pow5(u);
    Pow5Monotone(u + 1, labels[0]);
    forall d | Move(g, b, position, d).Some?
      ensures Move(g, b, position, d).value in marked' || Move(g, b, position, d).value in queue'
    {
      var y := Move(g, b, position, d).value;
      if y !in marked' {
        match d
        case Up => assert y in q1 && y in q2 && y in q3;
        case Down => assert y in q2 && y in q3;
        case Left => assert y in q3;
        case Right =>
      }
    }
    ClosedAfterRound(g, b, marked, queue, queue');
  }

  /** The row-major scan of IsBoardPossible: count the set cells of each colour and remember the
    * first set cell met. */
  method CountColours(g: Grid, b: set<nat>) returns (numCells: seq<nat>, visited: seq<nat>)
    ensures |numCells| == 2
    ensures forall c | 0 <= c < 2 :: numCells[c] == |ParityClass(g, CellsBelow(b, Cells(g)), c)|
    ensures visited == [] ==> CellsBelow(b, Cells(g)) == {}
    ensures visited != [] ==>
      |visited| == 1 && visited[0] in b && visited[0] < Cells(g) && CellsBelow(b, visited[0]) == {}
  {
    numCells := [0, 0];
    visited := [];
    var row := 0;
    while row < g.height
      invariant row <= g.height && |numCells| == 2
      invariant forall c | 0 <= c < 2 :: numCells[c] == |ParityClass(g, CellsBelow(b, g.width * row), c)|
      invariant visited == [] ==> CellsBelow(b, g.width * row) == {}
      invariant visited != [] ==>
        |visited| == 1 && visited[0] in b && visited[0] < Cells(g) && CellsBelow(b, visited[0]) == {}
    {
      var col := 0;
      while col < g.width
        invariant col <= g.width && |numCells| == 2
        invariant forall c | 0 <= c < 2 :: numCells[c] == |ParityClass(g, CellsBelow(b, g.width * row + col), c)|
        invariant visited == [] ==> CellsBelow(b, g.width * row + col) == {}
        invariant visited != [] ==>
          |visited| == 1 && visited[0] in b && visited[0] < Cells(g) && CellsBelow(b, visited[0]) == {}
      {
        var position := CellIndex(g, row, col);
        RowColOfIndex(g, row, col);
        CellsBelowStep(g, b, position);
        InGridRow(g, position);
        if position in b {
          numCells := numCells[(row + col) % 2 := numCells[(row + col) % 2] + 1];
          if visited == [] {
            visited := [position];
          }
        } else {
          assert CellsBelow(b, position + 1) == CellsBelow(b, position);
        }
        col := col + 1;
      }
      assert g.width * row + g.width == g.width * (row + 1);
      row := row + 1;
    }
    assert g.width * g.height == Cells(g);
  }

  /** The queue loop of IsBoardPossible: breadth-first search from `seed` through set cells,
    * accumulating the marked cells in visitedBits. */
  method MarkReachable(g: Grid, b: set<nat>, seed: nat) returns (visitedBits: set<nat>)
    requires seed in b && seed < Cells(g)
    ensures visitedBits <= b && InGrid(g, visitedBits)
    ensures forall t | t in b :: t in visitedBits <==> Reachable(g, b, seed, t)
  {
    var visited := [seed];
    visitedBits := {};
    ghost var labels: seq<nat> := [|b|];
    while visited != []
      invariant SearchInv(g, b, seed, visitedBits, visited, labels)
      decreases SumPow5(labels)
    {
      visitedBits, visited, labels := SearchStep(g, b, visitedBits, visited, seed, labels);
    }
    forall t | t in b && Reachable(g, b, seed, t) ensures t in visitedBits {
      ClosedHoldsReachable(g, b, visitedBits, seed, t);
    }
  }

  /** Helper.IsBoardPossible: reject the empty board, then a colour imbalance of more than one,
    * then a board whose breadth-first search from its first set cell (row-major) does not mark
    * every set cell. */
  method IsBoardPossible(g: Grid, b: set<nat>) returns (possible: bool)
    ensures possible <==> BoardPossible(g, b)
  {
    if b == {} {
      return false;
    }
    var numCells, visited := CountColours(g, b);
    assert InGrid(g, b) ==> CellsBelow(b, Cells(g)) == b;
    if (if numCells[0] >= numCells[1] then numCells[0] - numCells[1] else numCells[1] - numCells[0]) > 1 {
      return false;
    }
    if visited == [] {
      // No set cell inside the grid: nothing is marked, so the board is not all marked.
      return false;
    }
    var visitedBits := MarkReachable(g, b, visited[0]);
    possible := b == visitedBits;
    ConnectedFromSeed(g, b, visited[0]);
  }
}
