/** Bit encoding of a height x width grid.
  * Cell (row, col) is bit row * width + col of a board integer; a board is modelled by the
  * set of indices of its set bits, and a one-hot position 1 << k by its index k.
  * This module keeps the integer view where the program relies on it (EncodePosition,
  * DecodePosition, shifting one-hot values) and builds the row and column masks. */
module BitBoard {

  datatype Dims = Dims(height: nat, width: nat)

  /** The dimensions the model covers: both at least 1. A zero width makes DecodePosition and the
    * Left/Right guards of GetPositionAfterMove divide by zero; the other operations, and every
    * operation on a zero height, would still run, on a grid with no cells. */
  type Grid = g: Dims | g.height > 0 && g.width > 0 witness Dims(1, 1)

  /** Number of cells of the grid, which is also the number of bits a board uses. */
  function Cells(g: Grid): nat { g.height * g.width }

  /** Every set bit of `b` is a cell of the grid. */
  predicate InGrid(g: Grid, b: set<nat>) { forall x | x in b :: x < Cells(g) }

  function Row(g: Grid, x: nat): nat { x / g.width }
  function Col(g: Grid, x: nat): nat { x % g.width }
  function CellIndex(g: Grid, row: nat, col: nat): nat { g.width * row + col }

  // ---------------------------------------------------------------------------
  // Row-major index arithmetic

  lemma DivModUnique(w: nat, r: nat, c: nat)
    requires c < w
    ensures (w * r + c) / w == r && (w * r + c) % w == c
  {
    var x := w * r + c;
    var q, m := x / w, x % w;
    assert x == w * q + m;
    if q > r {
      assert w * q >= w * (r + 1) by { MulMonotone(w, r + 1, q); }
      assert false;
    } else if q < r {
      assert w * r >= w * (q + 1) by { MulMonotone(w, q + 1, r); }
      assert false;
    }
  }

  lemma MulMonotone(w: nat, a: nat, b: nat)
    requires a <= b
    ensures w * a <= w * b
  {
    assert w * b == w * a + w * (b - a);
  }

  /** Row and Col decode CellIndex for every in-range column. */
  lemma RowColOfIndex(g: Grid, row: nat, col: nat)
    requires col < g.width
    ensures Row(g, CellIndex(g, row, col)) == row && Col(g, CellIndex(g, row, col)) == col
  {
    DivModUnique(g.width, row, col);
  }

  /** Every index is the CellIndex of its own row and column. */
  lemma IndexOfRowCol(g: Grid, x: nat)
    ensures Col(g, x) < g.width && x == CellIndex(g, Row(g, x), Col(g, x))
  {
  }

  /** A bit index is a grid cell exactly when its row is below the height. */
  lemma InGridRow(g: Grid, x: nat)
    ensures x < Cells(g) <==> Row(g, x) < g.height
  {
    var r, c := Row(g, x), Col(g, x);
    IndexOfRowCol(g, x);
    if r < g.height {
      MulMonotone(g.width, r + 1, g.height);
    } else {
      MulMonotone(g.width, g.height, r);
    }
  }

  /** Adding one full row keeps the column and moves one row down. */
  lemma AddRow(g: Grid, x: nat)
    ensures Row(g, x + g.width) == Row(g, x) + 1 && Col(g, x + g.width) == Col(g, x)
  {
    IndexOfRowCol(g, x);
    assert x + g.width == CellIndex(g, Row(g, x) + 1, Col(g, x));
    RowColOfIndex(g, Row(g, x) + 1, Col(g, x));
  }

  // ---------------------------------------------------------------------------
  // Integers as bit strings

  function Pow2(k: nat): (r: nat)
    ensures r >= 1
  {
    if k == 0 then 1 else 2 * Pow2(k - 1)
  }

  /** Python's int.bit_length for non-negative integers. */
  function BitLength(n: nat): nat
  {
    if n == 0 then 0 else 1 + BitLength(n / 2)
  }

  /** Number of set bits. */
  function PopCount(n: nat): nat
  {
    if n == 0 then 0 else n % 2 + PopCount(n / 2)
  }

  /** 1 << k has exactly one set bit, and it is the top bit k. */
  lemma {:induction false} OneHotPow2(k: nat)
    ensures PopCount(Pow2(k)) == 1 && BitLength(Pow2(k)) == k + 1
  {
    if k > 0 {
      OneHotPow2(k - 1);
      assert Pow2(k) / 2 == Pow2(k - 1) && Pow2(k) % 2 == 0;
    }
  }

  lemma {:induction false} PopCountZero(n: nat)
    requires PopCount(n) == 0
    ensures n == 0
  {
    if n != 0 {
      PopCountZero(n / 2);
    }
  }

  /** Every value with exactly one set bit is 1 shifted by (bit_length - 1). */
  lemma {:induction false} OneHotIsPow2(n: nat)
    requires PopCount(n) == 1
    ensures n > 0 && n == Pow2(BitLength(n) - 1)
  {
    if n % 2 == 1 {
      PopCountZero(n / 2);
    } else {
      OneHotIsPow2(n / 2);
    }
  }

  lemma {:induction false} Pow2Add(a: nat, b: nat)
    ensures Pow2(a) * Pow2(b) == Pow2(a + b)
  {
    if a > 0 {
      Pow2Add(a - 1, b);
    }
  }

  /** Shifting a one-hot value left or right by s moves its bit index by s; this is why a
    * position can be modelled by its index and a shift by an index offset. */
  lemma ShiftOneHot(k: nat, s: nat)
    ensures Pow2(k) * Pow2(s) == Pow2(k + s)
    ensures s <= k ==> Pow2(k) / Pow2(s) == Pow2(k - s)
  {
    Pow2Add(k, s);
    if s <= k {
      Pow2Add(k - s, s);
      var q := Pow2(k - s);
      assert Pow2(k) == Pow2(s) * q + 0;
      DivModUnique(Pow2(s), q, 0);
    }
  }

  // ---------------------------------------------------------------------------
  // Helper.EncodePosition / Helper.DecodePosition

  /** The one-hot integer of cell (row, col). */
  function EncodePosition(g: Grid, row: nat, col: nat): (p: nat)
    ensures PopCount(p) == 1
    ensures BitLength(p) == CellIndex(g, row, col) + 1
  {
    OneHotPow2(CellIndex(g, row, col));
    Pow2(CellIndex(g, row, col))
  }

  /** The (row, col) of the top set bit of `p`; the program only calls it on one-hot values. */
  function DecodePosition(g: Grid, p: nat): (rc: (nat, nat))
    requires p > 0
    ensures rc.1 < g.width && BitLength(p) == CellIndex(g, rc.0, rc.1) + 1
  {
    var shift := BitLength(p) - 1;
    IndexOfRowCol(g, shift);
    (shift / g.width, shift % g.width)
  }

  lemma DecodeEncode(g: Grid, row: nat, col: nat)
    requires col < g.width
    ensures DecodePosition(g, EncodePosition(g, row, col)) == (row, col)
  {
    RowColOfIndex(g, row, col);
  }

  lemma EncodeDecode(g: Grid, p: nat)
    requires PopCount(p) == 1
    ensures p > 0 && EncodePosition(g, DecodePosition(g, p).0, DecodePosition(g, p).1) == p
  {
    OneHotIsPow2(p);
  }

  // ---------------------------------------------------------------------------
  // Masks

  /** Masks.rows and Masks.cols: one mask per row and one per column. */
  datatype Masks = Masks(rows: seq<set<nat>>, cols: seq<set<nat>>)

  /** The cells of row i. */
  function RowCells(g: Grid, i: nat): set<nat>
  {
    set x: nat | x < Cells(g) && Row(g, x) == i
  }

  /** The cells of column j. */
  function ColCells(g: Grid, j: nat): set<nat>
  {
    set x: nat | x < Cells(g) && Col(g, x) == j
  }

  predicate MasksOf(g: Grid, m: Masks)
  {
    && |m.rows| == g.height && |m.cols| == g.width
    && (forall i | 0 <= i < g.height :: m.rows[i] == RowCells(g, i))
    && (forall j | 0 <= j < g.width :: m.cols[j] == ColCells(g, j))
  }

  predicate Between(lo: nat, x: nat, hi: nat) { lo <= x < hi }

  function Range(lo: nat, hi: nat): set<nat>
  {
    set x: nat | x < hi && Between(lo, x, hi)
  }

  /** `s << n` on the set-of-bits view. */
  function Shl(s: set<nat>, n: nat): set<nat>
  {
    set x | x in s :: x + n
  }

  lemma ShlRange(lo: nat, hi: nat, n: nat)
    ensures Shl(Range(lo, hi), n) == Range(lo + n, hi + n)
  {
    forall x | x in Range(lo + n, hi + n) ensures x in Shl(Range(lo, hi), n) {
      assert x - n in Range(lo, hi);
    }
  }

  lemma RangeExtendLow(hi: nat)
    ensures Range(1, hi + 1) + {0} == Range(0, hi + 1)
  {
    assert Range(0, hi + 1) <= Range(1, hi + 1) + {0};
  }

  lemma RowRange(g: Grid, i: nat)
    requires i < g.height
    ensures Range(g.width * i, g.width * i + g.width) == RowCells(g, i)
  {
    forall x: nat ensures x in RowCells(g, i) <==> g.width * i <= x < g.width * i + g.width {
      IndexOfRowCol(g, x);
      InGridRow(g, x);
      if g.width * i <= x < g.width * i + g.width {
        RowColOfIndex(g, i, x - g.width * i);
      } else if Row(g, x) < i {
        MulMonotone(g.width, Row(g, x) + 1, i);
      } else if Row(g, x) > i {
        MulMonotone(g.width, i + 1, Row(g, x));
      }
    }
  }

  /** The column-0 cells of the first k rows. */
  function ColPrefix(g: Grid, k: nat): set<nat>
  {
    set x: nat | x < g.width * k && Col(g, x) == 0
  }

  lemma ColPrefixMember(g: Grid, k: nat, x: nat)
    ensures x in ColPrefix(g, k + 1) <==> x == 0 || (x >= g.width && x - g.width in ColPrefix(g, k))
  {
    var w := g.width;
    assert w * (k + 1) == w * k + w;
    if x >= w {
      AddRow(g, x - w);
    } else {
      DivModUnique(w, 0, x);
      MulMonotone(w, 1, k + 1);
    }
  }

  lemma ColPrefixStep(g: Grid, k: nat)
    ensures Shl(ColPrefix(g, k), g.width) + {0} == ColPrefix(g, k + 1)
  {
    forall x: nat ensures x in ColPrefix(g, k + 1) <==> x in Shl(ColPrefix(g, k), g.width) + {0} {
      ColPrefixMember(g, k, x);
    }
  }

  lemma ColShiftMember(g: Grid, j: nat, x: nat)
    requires j + 1 < g.width
    ensures x in ColCells(g, j + 1) <==> x >= 1 && x - 1 in ColCells(g, j)
  {
    if x >= 1 {
      var y := x - 1;
      IndexOfRowCol(g, y);
      InGridRow(g, x);
      InGridRow(g, y);
      if Col(g, y) == j {
        assert x == CellIndex(g, Row(g, y), j + 1);
        RowColOfIndex(g, Row(g, y), j + 1);
      }
      if Col(g, x) == j + 1 {
        IndexOfRowCol(g, x);
        assert y == CellIndex(g, Row(g, x), j);
        RowColOfIndex(g, Row(g, x), j);
      }
    }
  }

  lemma ColShift(g: Grid, j: nat)
    requires j + 1 < g.width
    ensures Shl(ColCells(g, j), 1) == ColCells(g, j + 1)
  {
    forall x: nat ensures x in ColCells(g, j + 1) <==> x in Shl(ColCells(g, j), 1) {
      ColShiftMember(g, j, x);
    }
  }

  /** Masks.__init__: shift accumulators to build the row masks, then the column masks. */
  method BuildMasks(g: Grid) returns (m: Masks)
    ensures MasksOf(g, m)
  {
    var w := g.width;
    var rows: seq<set<nat>> := [];
    var oneRow: set<nat> := {};
    var k := 0;
    while k < w
      invariant k <= w
      invariant oneRow == Range(0, k)
    {
      ShlRange(0, k, 1);
      RangeExtendLow(k);
      oneRow := Shl(oneRow, 1) + {0};
      k := k + 1;
    }
    var i := 0;
    while i < g.height
      invariant i <= g.height && |rows| == i
      invariant oneRow == Range(w * i, w * i + w)
      invariant forall r | 0 <= r < i :: rows[r] == RowCells(g, r)
    {
      RowRange(g, i);
      rows := rows + [oneRow];
      ShlRange(w * i, w * i + w, w);
      assert w * (i + 1) == w * i + w;
      oneRow := Shl(oneRow, w);
      i := i + 1;
    }

    var cols: seq<set<nat>> := [];
    var oneCol: set<nat> := {};
    k := 0;
    while k < g.height
      invariant k <= g.height
      invariant oneCol == ColPrefix(g, k)
    {
      ColPrefixStep(g, k);
      oneCol := Shl(oneCol, w) + {0};
      k := k + 1;
    }
    assert oneCol == ColCells(g, 0) by {
      assert w * g.height == Cells(g);
    }
    var j := 0;
    while j < w
      invariant j <= w && |cols| == j
      invariant j < w ==> oneCol == ColCells(g, j)
      invariant forall c | 0 <= c < j :: cols[c] == ColCells(g, c)
    {
      cols := cols + [oneCol];
      if j + 1 < w {
        ColShift(g, j);
      }
      oneCol := Shl(oneCol, 1);
      j := j + 1;
    }
    m := Masks(rows, cols);
  }
}
