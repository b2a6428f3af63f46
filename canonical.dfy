/** Helper.DeduplicateBoard: the top-left-aligned key of a board's shape. */
module Canonical {
  import opened BitBoard

  // ---------------------------------------------------------------------------
  // Specification

  /** `board >> n` on the set-of-bits view: bits below n fall off, the others move down by n. */
  function Shr(b: set<nat>, n: nat): set<nat>
  {
    set x | x in b && x >= n :: x - n
  }

  /** The number of leading rows, from row i on, that hold no cell of b (the height when none do). */
  function FirstRowFrom(g: Grid, b: set<nat>, i: nat): (r: nat)
    requires i <= g.height
    ensures i <= r <= g.height
    decreases g.height - i
  {
    if i == g.height then g.height
    else if b * RowCells(g, i) != {} then i
    else FirstRowFrom(g, b, i + 1)
  }

  /** The number of leading columns, from column j on, that hold no cell of b. */
  function FirstColFrom(g: Grid, b: set<nat>, j: nat): (c: nat)
    requires j <= g.width
    ensures j <= c <= g.width
    decreases g.width - j
  {
    if j == g.width then g.width
    else if b * ColCells(g, j) != {} then j
    else FirstColFrom(g, b, j + 1)
  }

  function FirstRow(g: Grid, b: set<nat>): nat { FirstRowFrom(g, b, 0) }

  function FirstCol(g: Grid, b: set<nat>): nat { FirstColFrom(g, b, 0) }

  /** The key of a board: the board shifted up past its empty leading rows and left past its empty
    * leading columns; the empty board is its own key. */
  function Key(g: Grid, b: set<nat>): set<nat>
  {
    if b == {} then {} else Shr(b, CellIndex(g, FirstRow(g, b), FirstCol(g, b)))
  }

  /** r is the topmost row holding a cell of b. */
  predicate MinRow(g: Grid, b: set<nat>, r: nat)
  {
    b * RowCells(g, r) != {} && forall x | x in b :: r <= Row(g, x)
  }

  /** c is the leftmost column holding a cell of b. */
  predicate MinCol(g: Grid, b: set<nat>, c: nat)
  {
    b * ColCells(g, c) != {} && forall x | x in b :: c <= Col(g, x)
  }

  /** A board touching both the top row and the left column. */
  predicate Aligned(g: Grid, b: set<nat>)
  {
    b * RowCells(g, 0) != {} && b * ColCells(g, 0) != {}
  }

  /** Every cell moved down dr rows and right dc columns stays on the grid. */
  predicate Fits(g: Grid, b: set<nat>, dr: nat, dc: nat)
  {
    forall x | x in b :: Row(g, x) + dr < g.height && Col(g, x) + dc < g.width
  }

  /** The board moved down dr rows and right dc columns: `board << (dr * width + dc)`, which moves
    * each cell without wrapping when the board Fits (TranslateCell). */
  function Translate(g: Grid, b: set<nat>, dr: nat, dc: nat): set<nat>
  {
    Shl(b, CellIndex(g, dr, dc))
  }

  // ---------------------------------------------------------------------------
  // The scans find the topmost row and the leftmost column

  lemma {:induction false} FirstRowFromIsMin(g: Grid, b: set<nat>, i: nat)
    requires InGrid(g, b) && b != {} && i <= g.height
    requires forall x | x in b :: i <= Row(g, x)
    ensures MinRow(g, b, FirstRowFrom(g, b, i)) && FirstRowFrom(g, b, i) < g.height
    decreases g.height - i
  {
    var y :| y in b;
    InGridRow(g, y);
    if b * RowCells(g, i) == {} {
      forall x | x in b ensures i + 1 <= Row(g, x) {
        InGridRow(g, x);
        assert x !in b * RowCells(g, i);
      }
      FirstRowFromIsMin(g, b, i + 1);
    }
  }

  lemma {:induction false} FirstColFromIsMin(g: Grid, b: set<nat>, j: nat)
    requires InGrid(g, b) && b != {} && j <= g.width
    requires forall x | x in b :: j <= Col(g, x)
    ensures MinCol(g, b, FirstColFrom(g, b, j)) && FirstColFrom(g, b, j) < g.width
    decreases g.width - j
  {
    var y :| y in b;
    IndexOfRowCol(g, y);
    if b * ColCells(g, j) == {} {
      forall x | x in b ensures j + 1 <= Col(g, x) {
        assert x !in b * ColCells(g, j);
      }
      FirstColFromIsMin(g, b, j + 1);
    }
  }

  /** On a non-empty board, the row scan stops at the topmost occupied row and the column scan at
    * the leftmost occupied column. */
  lemma FirstRowColAreMin(g: Grid, b: set<nat>)
    requires InGrid(g, b) && b != {}
    ensures MinRow(g, b, FirstRow(g, b)) && MinCol(g, b, FirstCol(g, b))
  {
    FirstRowFromIsMin(g, b, 0);
    FirstColFromIsMin(g, b, 0);
  }

  lemma MinRowUnique(g: Grid, b: set<nat>, r1: nat, r2: nat)
    requires MinRow(g, b, r1) && MinRow(g, b, r2)
    ensures r1 == r2
  {
    var x1 :| x1 in b * RowCells(g, r1);
    var x2 :| x2 in b * RowCells(g, r2);
  }

  lemma MinColUnique(g: Grid, b: set<nat>, c1: nat, c2: nat)
    requires MinCol(g, b, c1) && MinCol(g, b, c2)
    ensures c1 == c2
  {
    var x1 :| x1 in b * ColCells(g, c1);
    var x2 :| x2 in b * ColCells(g, c2);
  }

  // ---------------------------------------------------------------------------
  // Cell arithmetic

  /** Shifting a cell right of column c and below row r down by r*width + c moves it r rows up and
    * c columns left: it never wraps into another row. */
  lemma ShiftCell(g: Grid, x: nat, r: nat, c: nat)
    requires r <= Row(g, x) && c <= Col(g, x)
    ensures x >= CellIndex(g, r, c)
    ensures x - CellIndex(g, r, c) == CellIndex(g, Row(g, x) - r, Col(g, x) - c)
    ensures Row(g, x - CellIndex(g, r, c)) == Row(g, x) - r
    ensures Col(g, x - CellIndex(g, r, c)) == Col(g, x) - c
  {
    var w, row, col := g.width, Row(g, x), Col(g, x);
    IndexOfRowCol(g, x);
    assert w * row == w * (row - r) + w * r;
    RowColOfIndex(g, row - r, col - c);
  }

  lemma {:induction false} ShrCard(b: set<nat>, n: nat)
    requires forall x | x in b :: x >= n
    ensures |Shr(b, n)| == |b|
    decreases |b|
  {
    if b != {} {
      var y :| y in b;
      var rest := b - {y};
      ShrCard(rest, n);
      forall z ensures z in Shr(b, n) <==> z in Shr(rest, n) + {y - n} {
        if z in Shr(b, n) && z != y - n {
          var x :| x in b && x >= n && z == x - n;
          assert x in rest;
        }
      }
      assert Shr(b, n) == Shr(rest, n) + {y - n};
    }
  }

  // ---------------------------------------------------------------------------
  // Properties of the key

  lemma CellIndexAdd(g: Grid, r: nat, c: nat, dr: nat, dc: nat)
    ensures CellIndex(g, r + dr, c + dc) == CellIndex(g, r, c) + CellIndex(g, dr, dc)
  {
    assert g.width * (r + dr) == g.width * r + g.width * dr;
  }

  /** Adding dr*width + dc to a cell that stays left of the right edge moves it down dr rows and
    * right dc columns. */
  lemma TranslateCell(g: Grid, x: nat, dr: nat, dc: nat)
    requires Col(g, x) + dc < g.width
    ensures Row(g, x + CellIndex(g, dr, dc)) == Row(g, x) + dr
    ensures Col(g, x + CellIndex(g, dr, dc)) == Col(g, x) + dc
    ensures x + CellIndex(g, dr, dc) < Cells(g) <==> Row(g, x) + dr < g.height
  {
    var row, col := Row(g, x), Col(g, x);
    IndexOfRowCol(g, x);
    CellIndexAdd(g, row, col, dr, dc);
    RowColOfIndex(g, row + dr, col + dc);
    InGridRow(g, x + CellIndex(g, dr, dc));
  }

  lemma ShlShr(b: set<nat>, n: nat)
    requires forall x | x in b :: x >= n
    ensures Shl(Shr(b, n), n) == b
  {
    forall x | x in b ensures x in Shl(Shr(b, n), n) {
      assert x - n in Shr(b, n);
    }
  }

  lemma ShrShl(b: set<nat>, d: nat, n: nat)
    ensures Shr(Shl(b, d), n + d) == Shr(b, n)
  {
    forall y | y in Shr(b, n) ensures y in Shr(Shl(b, d), n + d) {
      var x :| x in b && x >= n && y == x - n;
      assert x + d in Shl(b, d);
    }
  }

  /** Each cell x of a non-empty board appears in its key as x - s, s being the shift, moved up by
    * the empty leading rows and left by the empty leading columns, and still on the grid. */
  lemma KeyCell(g: Grid, b: set<nat>, x: nat)
    requires InGrid(g, b) && b != {} && x in b
    ensures var r, c := FirstRow(g, b), FirstCol(g, b);
      var s := CellIndex(g, r, c);
      && x >= s && x - s in Key(g, b) && x - s < Cells(g)
      && Row(g, x - s) + r == Row(g, x) && Col(g, x - s) + c == Col(g, x)
  {
    var r, c := FirstRow(g, b), FirstCol(g, b);
    FirstRowColAreMin(g, b);
    ShiftCell(g, x, r, c);
    InGridRow(g, x);
    InGridRow(g, x - CellIndex(g, r, c));
  }

  /** Deduplicating keeps the number of cells. */
  lemma KeyCard(g: Grid, b: set<nat>)
    requires InGrid(g, b) && b != {}
    ensures |Key(g, b)| == |b|
  {
    var s := CellIndex(g, FirstRow(g, b), FirstCol(g, b));
    forall x | x in b ensures x >= s {
      KeyCell(g, b, x);
    }
    ShrCard(b, s);
  }

  /** The key touches the top row and the left column. */
  lemma KeyAligned(g: Grid, b: set<nat>)
    requires InGrid(g, b) && b != {}
    ensures Aligned(g, Key(g, b))
  {
    var r, c := FirstRow(g, b), FirstCol(g, b);
    var s := CellIndex(g, r, c);
    FirstRowColAreMin(g, b);
    var x0 :| x0 in b * RowCells(g, r);
    var x1 :| x1 in b * ColCells(g, c);
    KeyCell(g, b, x0);
    KeyCell(g, b, x1);
    assert x0 - s in Key(g, b) * RowCells(g, 0);
    assert x1 - s in Key(g, b) * ColCells(g, 0);
  }

  /** The key of a non-empty board is the same shape moved to the top-left corner: it lies on the
    * grid, has the same number of cells, touches the top row and the left column, and moving it
    * back down and right by the board's empty leading rows and columns gives the board again. */
  lemma KeyIsTranslate(g: Grid, b: set<nat>)
    requires InGrid(g, b) && b != {}
    ensures var r, c := FirstRow(g, b), FirstCol(g, b);
      && InGrid(g, Key(g, b)) && |Key(g, b)| == |b| && Aligned(g, Key(g, b))
      && Fits(g, Key(g, b), r, c) && Translate(g, Key(g, b), r, c) == b
  {
    var r, c := FirstRow(g, b), FirstCol(g, b);
    var s := CellIndex(g, r, c);
    var k := Key(g, b);
    forall y | y in k ensures y < Cells(g) && Row(g, y) + r < g.height && Col(g, y) + c < g.width {
      assert y + s in b;
      KeyCell(g, b, y + s);
      InGridRow(g, y + s);
    }
    forall x | x in b ensures x >= s {
      KeyCell(g, b, x);
    }
    ShlShr(b, s);
    KeyCard(g, b);
    KeyAligned(g, b);
  }

  /** An aligned board is its own key. */
  lemma KeyOfAligned(g: Grid, b: set<nat>)
    requires InGrid(g, b) && b != {} && Aligned(g, b)
    ensures Key(g, b) == b
  {
    FirstRowColAreMin(g, b);
    MinRowUnique(g, b, FirstRow(g, b), 0);
    MinColUnique(g, b, FirstCol(g, b), 0);
    assert CellIndex(g, 0, 0) == 0;
    assert Shr(b, 0) == b;
  }

  /** A non-empty board is its own key exactly when it touches both the top row and the left
    * column: the key is the one top-left-aligned board of its shape. */
  lemma KeyFixedIffAligned(g: Grid, b: set<nat>)
    requires InGrid(g, b) && b != {}
    ensures Key(g, b) == b <==> Aligned(g, b)
  {
    KeyAligned(g, b);
    if Aligned(g, b) {
      KeyOfAligned(g, b);
    }
  }

  /** Deduplicating a key changes nothing. */
  lemma KeyIdempotent(g: Grid, b: set<nat>)
    requires InGrid(g, b)
    ensures Key(g, Key(g, b)) == Key(g, b)
  {
    if b != {} {
      KeyIsTranslate(g, b);
      KeyOfAligned(g, Key(g, b));
    }
  }

  /** Moving a board's cells within the grid moves its topmost row and leftmost column with them. */
  lemma TranslateMin(g: Grid, b: set<nat>, dr: nat, dc: nat)
    requires InGrid(g, b) && b != {} && Fits(g, b, dr, dc)
    ensures var t := Translate(g, b, dr, dc);
      && InGrid(g, t) && t != {}
      && MinRow(g, t, FirstRow(g, b) + dr) && MinCol(g, t, FirstCol(g, b) + dc)
  {
    var d := CellIndex(g, dr, dc);
    var t := Translate(g, b, dr, dc);
    var r, c := FirstRow(g, b), FirstCol(g, b);
    FirstRowColAreMin(g, b);
    TranslateBounds(g, b, dr, dc, r, c);
    var x0 :| x0 in b * RowCells(g, r);
    var x1 :| x1 in b * ColCells(g, c);
    TranslateCell(g, x0, dr, dc);
    TranslateCell(g, x1, dr, dc);
    assert x0 + d in t * RowCells(g, r + dr);
    assert x1 + d in t * ColCells(g, c + dc);
  }

  /** A translated board that Fits stays on the grid, below and right of the translated bounds. */
  lemma TranslateBounds(g: Grid, b: set<nat>, dr: nat, dc: nat, r: nat, c: nat)
    requires Fits(g, b, dr, dc)
    requires forall x | x in b :: r <= Row(g, x) && c <= Col(g, x)
    ensures forall u | u in Translate(g, b, dr, dc) :: u < Cells(g) && r + dr <= Row(g, u) && c + dc <= Col(g, u)
  {
    forall u | u in Translate(g, b, dr, dc) ensures u < Cells(g) && r + dr <= Row(g, u) && c + dc <= Col(g, u) {
      var x :| x in b && u == x + CellIndex(g, dr, dc);
      TranslateCell(g, x, dr, dc);
    }
  }

  /** Boards of the same shape share a key: moving a board down and right within the grid does
    * not change its key. */
  lemma KeyTranslate(g: Grid, b: set<nat>, dr: nat, dc: nat)
    requires InGrid(g, b) && b != {} && Fits(g, b, dr, dc)
    ensures Key(g, Translate(g, b, dr, dc)) == Key(g, b)
  {
    var t := Translate(g, b, dr, dc);
    var r, c := FirstRow(g, b), FirstCol(g, b);
    TranslateMin(g, b, dr, dc);
    FirstRowColAreMin(g, t);
    MinRowUnique(g, t, FirstRow(g, t), r + dr);
    MinColUnique(g, t, FirstCol(g, t), c + dc);
    CellIndexAdd(g, r, c, dr, dc);
    ShrShl(b, CellIndex(g, dr, dc), CellIndex(g, r, c));
  }

  /** Two non-empty boards that share a key are that key moved down and right within the grid:
    * they have the same shape. */
  lemma SameKeySameShape(g: Grid, b1: set<nat>, b2: set<nat>)
    requires InGrid(g, b1) && b1 != {} && InGrid(g, b2) && b2 != {}
    requires Key(g, b1) == Key(g, b2)
    ensures var k := Key(g, b1);
      && InGrid(g, k) && k != {}
      && Fits(g, k, FirstRow(g, b1), FirstCol(g, b1)) && b1 == Translate(g, k, FirstRow(g, b1), FirstCol(g, b1))
      && Fits(g, k, FirstRow(g, b2), FirstCol(g, b2)) && b2 == Translate(g, k, FirstRow(g, b2), FirstCol(g, b2))
  {
    KeyIsTranslate(g, b1);
    KeyIsTranslate(g, b2);
  }

  /** Conversely, two placements of the same shape share a key. */
  lemma SameShapeSameKey(g: Grid, k: set<nat>, r1: nat, c1: nat, r2: nat, c2: nat)
    requires InGrid(g, k) && k != {} && Fits(g, k, r1, c1) && Fits(g, k, r2, c2)
    ensures Key(g, Translate(g, k, r1, c1)) == Key(g, Translate(g, k, r2, c2))
  {
    KeyTranslate(g, k, r1, c1);
    KeyTranslate(g, k, r2, c2);
  }

  // ---------------------------------------------------------------------------
  // Helper.DeduplicateBoard

  /** Helper.DeduplicateBoard: scan the row masks, then the column masks, for the first one that
    * meets the board, and shift the board down by that many rows and columns. */
  method DeduplicateBoard(g: Grid, m: Masks, b: set<nat>) returns (key: set<nat>)
    requires MasksOf(g, m)
    ensures key == Key(g, b)
  {
    if b == {} {
      return b;
    }
    var r := 0;
    while r < |m.rows|
      invariant r <= g.height && FirstRowFrom(g, b, r) == FirstRow(g, b)
    {
      if m.rows[r] * b != {} {
        break;
      }
      r := r + 1;
    }
    var c := 0;
    while c < |m.cols|
      invariant c <= g.width && FirstColFrom(g, b, c) == FirstCol(g, b)
    {
      if m.cols[c] * b != {} {
        break;
      }
      c := c + 1;
    }
    assert r == FirstRow(g, b) && c == FirstCol(g, b);
    assert r * g.width + c == CellIndex(g, r, c);
    key := Shr(b, r * g.width + c);
  }
}
