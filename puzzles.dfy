/** Board generation and selection: Helper.GetAllPossibleBoards, the filter of
  * Helper.FindAllPuzzles and Helper.ParsePosition and Helper.ParseBoard on converted numbers. */
module Puzzles {
  import opened BitBoard
  import opened Adjacency
  import opened Canonical
  import opened Feasibility
  import opened Solver

  // ---------------------------------------------------------------------------
  // itertools.combinations

  predicate Increasing(c: seq<nat>)
  {
    forall i, j | 0 <= i < j < |c| :: c[i] < c[j]
  }

  /** Every element of c is one of lo .. n-1. */
  predicate Within(c: seq<nat>, lo: nat, n: nat)
  {
    forall i | 0 <= i < |c| :: lo <= c[i] < n
  }

  /** c is a k-combination of the numbers lo .. n-1, listed in increasing order. */
  predicate Combo(c: seq<nat>, lo: nat, n: nat, k: nat)
  {
    |c| == k && Increasing(c) && Within(c, lo, n)
  }

  function Prepend(x: nat, cs: seq<seq<nat>>): seq<seq<nat>>
  {
    seq(|cs|, i requires 0 <= i < |cs| => [x] + cs[i])
  }

  /** `itertools.combinations(range(lo, n), k)`: the combinations containing lo come first, then
    * the ones that do not. */
  function Combinations(lo: nat, n: nat, k: nat): seq<seq<nat>>
    decreases n - lo
  {
    if k == 0 then [[]]
    else if lo >= n then []
    else Prepend(lo, Combinations(lo + 1, n, k - 1)) + Combinations(lo + 1, n, k)
  }

  function Binomial(m: nat, k: nat): nat
  {
    if k == 0 then 1
    else if m == 0 then 0
    else Binomial(m - 1, k - 1) + Binomial(m - 1, k)
  }

  /** Every tuple produced is a k-combination of lo .. n-1. */
  lemma {:induction false} CombinationsSound(lo: nat, n: nat, k: nat)
    ensures forall i | 0 <= i < |Combinations(lo, n, k)| :: Combo(Combinations(lo, n, k)[i], lo, n, k)
    decreases n - lo
  {
    var cs := Combinations(lo, n, k);
    if k > 0 && lo < n {
      var with, without := Combinations(lo + 1, n, k - 1), Combinations(lo + 1, n, k);
      CombinationsSound(lo + 1, n, k - 1);
      CombinationsSound(lo + 1, n, k);
      forall i | 0 <= i < |cs| ensures Combo(cs[i], lo, n, k) {
        if i < |with| {
          assert cs[i] == [lo] + with[i];
          assert Combo(with[i], lo + 1, n, k - 1);
        } else {
          assert cs[i] == without[i - |with|];
        }
      }
    }
  }

  /** Every k-combination of lo .. n-1 is produced. */
  lemma {:induction false} CombinationsComplete(lo: nat, n: nat, k: nat, c: seq<nat>)
    requires Combo(c, lo, n, k)
    ensures c in Combinations(lo, n, k)
    decreases n - lo
  {
    if k > 0 {
      var with, without := Combinations(lo + 1, n, k - 1), Combinations(lo + 1, n, k);
      assert lo <= c[0] < n;
      if c[0] == lo {
        ComboTail(c, lo, n, k);
        CombinationsComplete(lo + 1, n, k - 1, c[1..]);
        var j :| 0 <= j < |with| && with[j] == c[1..];
        assert Prepend(lo, with)[j] == c;
      } else {
        ComboAbove(c, lo, n, k);
        CombinationsComplete(lo + 1, n, k, c);
      }
    }
  }

  lemma ComboTail(c: seq<nat>, lo: nat, n: nat, k: nat)
    requires Combo(c, lo, n, k) && k > 0
    ensures Combo(c[1..], c[0] + 1, n, k - 1)
  {
    forall i | 0 <= i < |c[1..]| ensures c[0] + 1 <= c[1..][i] {
      assert c[0] < c[i + 1];
    }
  }

  lemma ComboAbove(c: seq<nat>, lo: nat, n: nat, k: nat)
    requires Combo(c, lo, n, k) && k > 0 && c[0] != lo
    ensures Combo(c, lo + 1, n, k)
  {
    forall i | 0 <= i < |c| ensures lo + 1 <= c[i] {
      if i > 0 {
        assert c[0] < c[i];
      }
    }
  }

  /** No tuple is produced twice. */
  lemma {:induction false} CombinationsDistinct(lo: nat, n: nat, k: nat)
    ensures Distinct(Combinations(lo, n, k))
    decreases n - lo
  {
    var cs := Combinations(lo, n, k);
    if k > 0 && lo < n {
      var with, without := Combinations(lo + 1, n, k - 1), Combinations(lo + 1, n, k);
      CombinationsDistinct(lo + 1, n, k - 1);
      CombinationsDistinct(lo + 1, n, k);
      CombinationsSound(lo + 1, n, k);
      forall i, j | 0 <= i < j < |cs| ensures cs[i] != cs[j] {
        if j < |with| {
          assert cs[i] == [lo] + with[i] && cs[j] == [lo] + with[j];
          assert cs[i][1..] == with[i] && cs[j][1..] == with[j];
        } else if i >= |with| {
          assert cs[i] == without[i - |with|] && cs[j] == without[j - |with|];
        } else {
          assert cs[i] == [lo] + with[i];
          assert cs[j] == without[j - |with|];
          assert Combo(cs[j], lo + 1, n, k);
          assert cs[j][0] != cs[i][0];
        }
      }
    }
  }

  /** There are Binomial(n - lo, k) of them. */
  lemma {:induction false} CombinationsCount(lo: nat, n: nat, k: nat)
    requires lo <= n
    ensures |Combinations(lo, n, k)| == Binomial(n - lo, k)
    decreases n - lo
  {
    if k > 0 && lo < n {
      CombinationsCount(lo + 1, n, k - 1);
      CombinationsCount(lo + 1, n, k);
    }
  }

  function Factorial(n: nat): (r: nat)
    ensures r >= 1
  {
    if n == 0 then 1 else n * Factorial(n - 1)
  }

  /** Python 2 `/` on non-negative integers. */
  function Quotient(a: nat, b: nat): (q: nat)
    requires b > 0
    ensures b * q <= a < b * (q + 1)
  {
    a / b
  }

  /** The total `all_num` of FindAllPuzzles: factorials combined with Python 2 integer division;
    * None when num exceeds the number of cells and `math.factorial` of a negative raises. */
  function AllNum(cells: nat, num: nat): (r: Option<nat>)
    ensures r.Some? <==> num <= cells
  {
    if num > cells then None
    else
      var whole, below, chosen := Factorial(cells), Factorial(cells - num), Factorial(num);
      Some(Quotient(Quotient(whole, below), chosen))
  }

  /** Pascal's rule agrees with the factorial formula. */
  lemma {:induction false} BinomialFactorial(m: nat, k: nat)
    requires k <= m
    ensures Binomial(m, k) * Factorial(k) * Factorial(m - k) == Factorial(m)
  {
    if k == 0 {
    } else if k == m {
      BinomialAbove(m - 1, k);
      BinomialFactorial(m - 1, k - 1);
      assert Binomial(m, k) == Binomial(m - 1, k - 1);
      assert Factorial(k) == k * Factorial(k - 1);
    } else {
      BinomialFactorial(m - 1, k - 1);
      BinomialFactorial(m - 1, k);
      var fk1, fmk1 := Factorial(k - 1), Factorial(m - k - 1);
      assert m - (k - 1) - 1 == m - k;
      PascalStep(Binomial(m - 1, k - 1), Binomial(m - 1, k), k, m - k, fk1, fmk1, Factorial(m - 1));
    }
  }

  /** The algebra of one Pascal step: with F == a * x * (j * y) == b * (k * x) * y,
    * (a + b) * (k * x) * (j * y) == (k + j) * F. */
  lemma PascalStep(a: int, b: int, k: int, j: int, x: int, y: int, f: int)
    requires a * x * (j * y) == f && b * (k * x) * y == f
    ensures (a + b) * (k * x) * (j * y) == (k + j) * f
  {
    calc {
      (a + b) * (k * x) * (j * y);
      a * (k * x) * (j * y) + b * (k * x) * (j * y);
      { assert a * (k * x) * (j * y) == k * (a * x * (j * y));
        assert b * (k * x) * (j * y) == j * (b * (k * x) * y); }
      k * f + j * f;
    }
  }

  lemma {:induction false} BinomialAbove(m: nat, k: nat)
    requires k > m
    ensures Binomial(m, k) == 0
  {
    if m > 0 {
      BinomialAbove(m - 1, k - 1);
      BinomialAbove(m - 1, k);
    }
  }

  /** The total FindAllPuzzles reports is the number of generated boards, Binomial(cells, num). */
  lemma AllNumIsBinomial(cells: nat, num: nat)
    requires num <= cells
    ensures AllNum(cells, num) == Some(Binomial(cells, num))
  {
    var b, fk, fmk := Binomial(cells, num), Factorial(num), Factorial(cells - num);
    BinomialFactorial(cells, num);
    assert Factorial(cells) == fmk * (b * fk) + 0;
    DivModUnique(fmk, b * fk, 0);
    assert fk * b + 0 == b * fk;
    DivModUnique(fk, b, 0);
  }

  // ---------------------------------------------------------------------------
  // From a combination to a board

  /** The members of s in lo .. n-1, in increasing order. */
  function Ascending(s: set<nat>, lo: nat, n: nat): seq<nat>
    decreases n - lo
  {
    if lo >= n then []
    else if lo in s then [lo] + Ascending(s, lo + 1, n)
    else Ascending(s, lo + 1, n)
  }

  lemma {:induction false} AscendingFacts(s: set<nat>, lo: nat, n: nat)
    ensures Increasing(Ascending(s, lo, n)) && Within(Ascending(s, lo, n), lo, n)
    ensures forall x | x in Ascending(s, lo, n) :: x in s
    ensures forall x | x in s && lo <= x < n :: x in Ascending(s, lo, n)
    decreases n - lo
  {
    if lo < n {
      var rest := Ascending(s, lo + 1, n);
      AscendingFacts(s, lo + 1, n);
      if lo in s {
        var a := [lo] + rest;
        forall i, j | 0 <= i < j < |a| ensures a[i] < a[j] {
          if i > 0 {
            assert a[i] == rest[i - 1] && a[j] == rest[j - 1];
          } else {
            assert a[j] == rest[j - 1];
          }
        }
        forall i | 0 <= i < |a| ensures lo <= a[i] < n {
          if i > 0 {
            assert a[i] == rest[i - 1];
          }
        }
        forall x | x in s && lo <= x < n ensures x in a {
          if x != lo {
            assert x in rest;
          }
        }
      } else {
        forall x | x in s && lo <= x < n ensures x in rest {
          assert x != lo;
        }
      }
    }
  }

  lemma IncreasingDistinct(c: seq<nat>)
    requires Increasing(c)
    ensures Distinct(c)
  {
  }

  /** An increasing sequence is determined by its elements. */
  lemma {:induction false} IncreasingElemsInjective(p: seq<nat>, q: seq<nat>)
    requires Increasing(p) && Increasing(q) && Elems(p) == Elems(q)
    ensures p == q
  {
    if p == [] && q != [] {
      FirstInElems(q);
    } else if q == [] && p != [] {
      FirstInElems(p);
    } else if p != [] {
      assert p[0] in Elems(q);
      assert q != [];
      assert q[0] in Elems(p);
      var i :| 0 <= i < |p| && p[i] == q[0];
      var j :| 0 <= j < |q| && q[j] == p[0];
      assert p[0] == q[0];
      TailElems(p);
      TailElems(q);
      IncreasingElemsInjective(p[1..], q[1..]);
      assert p == [p[0]] + p[1..] && q == [q[0]] + q[1..];
    }
  }

  lemma FirstInElems(p: seq<nat>)
    requires p != []
    ensures p[0] in Elems(p)
  {
  }

  lemma TailElems(p: seq<nat>)
    requires p != [] && Increasing(p)
    ensures Elems(p[1..]) == Elems(p) - {p[0]}
  {
    assert Elems(p) == Elems(p[1..]) + {p[0]} by {
      assert p == [p[0]] + p[1..];
    }
    forall x | x in p[1..] ensures x != p[0] {
      var i :| 0 <= i < |p[1..]| && p[1..][i] == x;
      assert p[0] < p[i + 1];
    }
  }

  /** The boards GetAllPossibleBoards yields, one per combination of num grid cells. */
  function AllBoards(g: Grid, num: nat): seq<set<nat>>
  {
    var cs := Combinations(0, Cells(g), num);
    seq(|cs|, i requires 0 <= i < |cs| => Elems(cs[i]))
  }

  /** The generated boards are exactly the boards of num grid cells, each once: there are
    * Binomial(height * width, num) of them. */
  lemma AllBoardsSound(g: Grid, num: nat)
    ensures |AllBoards(g, num)| == Binomial(Cells(g), num)
    ensures forall b | b in AllBoards(g, num) :: InGrid(g, b) && |b| == num
    ensures Distinct(AllBoards(g, num))
  {
    var cs := Combinations(0, Cells(g), num);
    var bs := AllBoards(g, num);
    CombinationsCount(0, Cells(g), num);
    CombinationsSound(0, Cells(g), num);
    CombinationsDistinct(0, Cells(g), num);
    forall b | b in bs ensures InGrid(g, b) && |b| == num {
      var i :| 0 <= i < |bs| && bs[i] == b;
      assert Combo(cs[i], 0, Cells(g), num);
      IncreasingDistinct(cs[i]);
      DistinctCard(cs[i]);
    }
    forall i, j | 0 <= i < j < |bs| ensures bs[i] != bs[j] {
      assert Combo(cs[i], 0, Cells(g), num) && Combo(cs[j], 0, Cells(g), num);
      if bs[i] == bs[j] {
        IncreasingElemsInjective(cs[i], cs[j]);
      }
    }
  }

  /** Every board of num grid cells is generated. */
  lemma AllBoardsComplete(g: Grid, num: nat, b: set<nat>)
    requires InGrid(g, b) && |b| == num
    ensures b in AllBoards(g, num)
  {
    var a := Ascending(b, 0, Cells(g));
    AscendingFacts(b, 0, Cells(g));
    assert Elems(a) == b;
    IncreasingDistinct(a);
    DistinctCard(a);
    CombinationsComplete(0, Cells(g), num, a);
    var cs := Combinations(0, Cells(g), num);
    var i :| 0 <= i < |cs| && cs[i] == a;
    assert AllBoards(g, num)[i] == b;
  }

  // ---------------------------------------------------------------------------
  // Helper.GetAllPossibleBoards

  /** The inner loop of GetAllPossibleBoards: OR together the one-hot value of each position. */
  method PositionsToBoard(positions: seq<nat>) returns (board: set<nat>)
    ensures board == Elems(positions)
  {
    board := {};
    for i := 0 to |positions|
      invariant board == Elems(positions[..i])
    {
      assert positions[..i + 1] == positions[..i] + [positions[i]];
      board := board + {positions[i]};
    }
    assert positions[..|positions|] == positions;
  }

  /** Helper.GetAllPossibleBoards, with the generator's output collected into a sequence. */
  method GetAllPossibleBoards(g: Grid, num: nat) returns (boards: seq<set<nat>>)
    ensures boards == AllBoards(g, num)
  {
    var cs := Combinations(0, Cells(g), num);
    boards := [];
    for i := 0 to |cs|
      invariant |boards| == i && forall j | 0 <= j < i :: boards[j] == Elems(cs[j])
    {
      var board := PositionsToBoard(cs[i]);
      boards := boards + [board];
    }
  }

  // ---------------------------------------------------------------------------
  // The filter of Helper.FindAllPuzzles

  /** A board is solved only if it is its own key and passes IsBoardPossible. */
  method KeepBoard(g: Grid, m: Masks, b: set<nat>) returns (keep: bool)
    requires MasksOf(g, m)
    ensures keep <==> Key(g, b) == b && BoardPossible(g, b)
  {
    var key := DeduplicateBoard(g, m, b);
    if key != b {
      return false;
    }
    keep := IsBoardPossible(g, b);
  }

  /** The kept boards are the possible boards that touch the top row and the left column. */
  lemma KeptIffAlignedPossible(g: Grid, b: set<nat>)
    ensures Key(g, b) == b && BoardPossible(g, b) <==> Aligned(g, b) && BoardPossible(g, b)
  {
    if BoardPossible(g, b) {
      KeyFixedIffAligned(g, b);
    }
  }

  /** Of the placements of one shape, at most one is kept: a kept board moved down or right within
    * the grid is no longer its own key. */
  lemma KeptOncePerShape(g: Grid, b: set<nat>, dr: nat, dc: nat)
    requires InGrid(g, b) && b != {} && Fits(g, b, dr, dc)
    requires Key(g, b) == b && Key(g, Translate(g, b, dr, dc)) == Translate(g, b, dr, dc)
    ensures dr == 0 && dc == 0
  {
    KeyTranslate(g, b, dr, dc);
    TranslateFixed(g, b, dr, dc);
  }

  /** A non-empty board that a move within the grid leaves unchanged was not moved. */
  lemma TranslateFixed(g: Grid, b: set<nat>, dr: nat, dc: nat)
    requires InGrid(g, b) && b != {} && Fits(g, b, dr, dc) && Translate(g, b, dr, dc) == b
    ensures dr == 0 && dc == 0
  {
    TranslateMin(g, b, dr, dc);
    FirstRowColAreMin(g, b);
    MinRowUnique(g, b, FirstRow(g, b), FirstRow(g, b) + dr);
    MinColUnique(g, b, FirstCol(g, b), FirstCol(g, b) + dc);
  }

  // ---------------------------------------------------------------------------
  // Helper.ParsePosition and Helper.ParseBoard, after the strings are split and converted by `int`

  /** Helper.ParsePosition on a 1-based (row, col): the bit `width * (row - 1) + (col - 1)`, or
    * None where that shift is negative and `1 << shift` raises. */
  function ParsePosition(g: Grid, row: int, col: int): (r: Option<nat>)
    ensures r.Some? <==> g.width * (row - 1) + (col - 1) >= 0
  {
    var shift := g.width * (row - 1) + (col - 1);
    if shift < 0 then None else Some(shift)
  }

  /** A position inside the grid parses to its cell: decoding it gives back the 0-based row and
    * column. */
  lemma ParsePositionInGrid(g: Grid, row: int, col: int)
    requires 1 <= row <= g.height && 1 <= col <= g.width
    ensures ParsePosition(g, row, col).Some?
    ensures var x := ParsePosition(g, row, col).value;
      x < Cells(g) && Row(g, x) == row - 1 && Col(g, x) == col - 1
  {
    var x := CellIndex(g, row - 1, col - 1);
    RowColOfIndex(g, row - 1, col - 1);
    InGridRow(g, x);
  }

  /** Column 0 below the first row wraps to the last cell of the row above; nothing is raised. */
  lemma ParsePositionWraps(g: Grid, row: int)
    requires 2 <= row <= g.height
    ensures ParsePosition(g, row, 0).Some?
    ensures var x := ParsePosition(g, row, 0).value;
      x < Cells(g) && Row(g, x) == row - 2 && Col(g, x) == g.width - 1
  {
    assert g.width * (row - 1) - 1 == CellIndex(g, row - 2, g.width - 1);
    ParsePositionInGrid(g, row - 1, g.width);
  }

  /** The cells named by the parsed positions. */
  function ParsedCells(g: Grid, positions: seq<(int, int)>): set<nat>
  {
    set i | 0 <= i < |positions| && ParsePosition(g, positions[i].0, positions[i].1).Some?
      :: ParsePosition(g, positions[i].0, positions[i].1).value
  }

  /** Every position parses. */
  predicate AllParse(g: Grid, positions: seq<(int, int)>)
  {
    forall i | 0 <= i < |positions| :: ParsePosition(g, positions[i].0, positions[i].1).Some?
  }

  lemma ParsedCellsStep(g: Grid, positions: seq<(int, int)>, i: nat)
    requires i < |positions| && ParsePosition(g, positions[i].0, positions[i].1).Some?
    ensures ParsedCells(g, positions[..i + 1]) ==
      ParsedCells(g, positions[..i]) + {ParsePosition(g, positions[i].0, positions[i].1).value}
  {
    var r, s := positions[..i + 1], positions[..i];
    forall x | x in ParsedCells(g, r)
      ensures x in ParsedCells(g, s) + {ParsePosition(g, positions[i].0, positions[i].1).value}
    {
      var j :| 0 <= j < |r| && ParsePosition(g, r[j].0, r[j].1).Some? && x == ParsePosition(g, r[j].0, r[j].1).value;
      if j < i {
        assert s[j] == r[j];
      }
    }
    forall x | x in ParsedCells(g, s) ensures x in ParsedCells(g, r) {
      var j :| 0 <= j < |s| && ParsePosition(g, s[j].0, s[j].1).Some? && x == ParsePosition(g, s[j].0, s[j].1).value;
      assert r[j] == s[j];
    }
    assert r[i] == positions[i];
  }

  /** Helper.ParseBoard: start from the board with every grid cell set and clear the bit of each
    * parsed position; None when a position raises. */
  method ParseBoard(g: Grid, positions: seq<(int, int)>) returns (board: Option<set<nat>>)
    ensures board.Some? <==> AllParse(g, positions)
    ensures board.Some? ==>
      forall x: nat :: x in board.value <==> x < Cells(g) && x !in ParsedCells(g, positions)
  {
    var b := Range(0, Cells(g));
    for i := 0 to |positions|
      invariant AllParse(g, positions[..i])
      invariant forall x: nat :: x in b <==> x < Cells(g) && x !in ParsedCells(g, positions[..i])
    {
      var position := ParsePosition(g, positions[i].0, positions[i].1);
      if position.None? {
        return None;
      }
      ParsedCellsStep(g, positions, i);
      b := b - {position.value};
      assert positions[..i + 1][i] == positions[i];
      assert forall j | 0 <= j < i :: positions[..i + 1][j] == positions[..i][j];
    }
    assert positions[..|positions|] == positions;
    board := Some(b);
  }
}
