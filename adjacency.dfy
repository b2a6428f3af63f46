/** Moving a position by one cell: Direction, Helper.GetPositionAfterMove and Helper.Move. */
module Adjacency {
  import opened BitBoard

  datatype Direction = Up | Down | Left | Right

  datatype Option<T> = None | Some(value: T)

  /** Two grid cells that are one horizontal or vertical step apart. */
  predicate Adjacent(g: Grid, x: nat, y: nat)
  {
    && x < Cells(g) && y < Cells(g)
    && (|| (Row(g, x) == Row(g, y) && (Col(g, x) + 1 == Col(g, y) || Col(g, y) + 1 == Col(g, x)))
        || (Col(g, x) == Col(g, y) && (Row(g, x) + 1 == Row(g, y) || Row(g, y) + 1 == Row(g, x))))
  }

  /** The colour of a cell in the checkerboard two-colouring: (row + col) mod 2. */
  function Parity(g: Grid, x: nat): nat { (Row(g, x) + Col(g, x)) % 2 }

  lemma AdjacentParity(g: Grid, x: nat, y: nat)
    requires Adjacent(g, x, y)
    ensures Parity(g, x) != Parity(g, y)
  {
  }

  /** The cell edge a direction cannot cross. */
  predicate AtEdge(g: Grid, pos: nat, d: Direction)
  {
    match d
    case Up => Row(g, pos) == 0
    case Down => Row(g, pos) == g.height - 1
    case Left => Col(g, pos) == 0
    case Right => Col(g, pos) == g.width - 1
  }

  function DeltaRow(d: Direction): int
  {
    match d
    case Up => -1
    case Down => 1
    case _ => 0
  }

  function DeltaCol(d: Direction): int
  {
    match d
    case Left => -1
    case Right => 1
    case _ => 0
  }

  /** The number of bits a one-hot position is shifted by to move in direction d. */
  function ShiftAmount(g: Grid, d: Direction): nat
  {
    if d == Up || d == Down then g.width else 1
  }

  /** Helper.GetPositionAfterMove, on the bit index `pos` of a one-hot position: the guards
    * test the offset (bit_length - 1) of the position, the moves shift by a whole row or by one. */
  function GetPositionAfterMove(g: Grid, pos: nat, d: Direction): Option<nat>
  {
    match d
    case Up => if pos >= g.width then Some(pos - g.width) else None
    case Down => if pos < g.width * (g.height - 1) then Some(pos + g.width) else None
    case Left => if pos % g.width > 0 then Some(pos - 1) else None
    case Right => if pos % g.width < g.width - 1 then Some(pos + 1) else None
  }

  /** Helper.Move: the neighbour, provided it is still set in the board. */
  function Move(g: Grid, b: set<nat>, pos: nat, d: Direction): Option<nat>
  {
    match GetPositionAfterMove(g, pos, d)
    case None => None
    case Some(q) => if q in b then Some(q) else None
  }

  /** The cell reached from pos by one step in direction d, if it is a grid cell. */
  predicate StepTo(g: Grid, pos: nat, d: Direction, q: nat)
  {
    && q < Cells(g)
    && Row(g, q) as int == Row(g, pos) as int + DeltaRow(d)
    && Col(g, q) as int == Col(g, pos) as int + DeltaCol(d)
  }

  /** The edge rules: no neighbour exactly at the matching edge; otherwise the neighbour is the
    * grid cell one row or one column over, and its one-hot value is the position shifted by a
    * row (Up/Down) or by one bit (Left/Right). */
  lemma GetPositionAfterMoveSpec(g: Grid, pos: nat, d: Direction)
    requires pos < Cells(g)
    ensures GetPositionAfterMove(g, pos, d).None? <==> AtEdge(g, pos, d)
    ensures GetPositionAfterMove(g, pos, d).Some? ==>
      var q := GetPositionAfterMove(g, pos, d).value;
      && StepTo(g, pos, d, q)
      && (d == Up || d == Left ==> Pow2(q) == Pow2(pos) / Pow2(ShiftAmount(g, d)))
      && (d == Down || d == Right ==> Pow2(q) == Pow2(pos) * Pow2(ShiftAmount(g, d)))
  {
    match d
    case Up => MoveUp(g, pos);
    case Down => MoveDown(g, pos);
    case Left => MoveLeft(g, pos);
    case Right => MoveRight(g, pos);
  }

  lemma MoveUp(g: Grid, pos: nat)
    requires pos < Cells(g)
    ensures pos >= g.width <==> Row(g, pos) != 0
    ensures pos >= g.width ==> StepTo(g, pos, Up, pos - g.width) && Pow2(pos - g.width) == Pow2(pos) / Pow2(g.width)
  {
    var w, r, c := g.width, Row(g, pos), Col(g, pos);
    IndexOfRowCol(g, pos);
    InGridRow(g, pos);
    if r >= 1 {
      MulMonotone(w, 1, r);
      assert pos - w == CellIndex(g, r - 1, c);
      RowColOfIndex(g, r - 1, c);
      InGridRow(g, pos - w);
      ShiftOneHot(pos, w);
    }
  }

  lemma MoveDown(g: Grid, pos: nat)
    requires pos < Cells(g)
    ensures pos < g.width * (g.height - 1) <==> Row(g, pos) != g.height - 1
    ensures pos < g.width * (g.height - 1) ==>
      StepTo(g, pos, Down, pos + g.width) && Pow2(pos + g.width) == Pow2(pos) * Pow2(g.width)
  {
    var w, r := g.width, Row(g, pos);
    IndexOfRowCol(g, pos);
    InGridRow(g, pos);
    if r + 1 < g.height {
      MulMonotone(w, r + 1, g.height - 1);
      AddRow(g, pos);
      InGridRow(g, pos + w);
      ShiftOneHot(pos, w);
    } else {
      MulMonotone(w, g.height - 1, r);
    }
  }

  lemma MoveLeft(g: Grid, pos: nat)
    requires pos < Cells(g)
    ensures pos % g.width > 0 <==> Col(g, pos) != 0
    ensures pos % g.width > 0 ==> StepTo(g, pos, Left, pos - 1) && Pow2(pos - 1) == Pow2(pos) / Pow2(1)
  {
    var r, c := Row(g, pos), Col(g, pos);
    if c > 0 {
      IndexOfRowCol(g, pos);
      assert pos - 1 == CellIndex(g, r, c - 1);
      RowColOfIndex(g, r, c - 1);
      InGridRow(g, pos);
      InGridRow(g, pos - 1);
      ShiftOneHot(pos, 1);
    }
  }

  lemma MoveRight(g: Grid, pos: nat)
    requires pos < Cells(g)
    ensures pos % g.width < g.width - 1 <==> Col(g, pos) != g.width - 1
    ensures pos % g.width < g.width - 1 ==> StepTo(g, pos, Right, pos + 1) && Pow2(pos + 1) == Pow2(pos) * Pow2(1)
  {
    var r, c := Row(g, pos), Col(g, pos);
    if c + 1 < g.width {
      IndexOfRowCol(g, pos);
      assert pos + 1 == CellIndex(g, r, c + 1);
      RowColOfIndex(g, r, c + 1);
      InGridRow(g, pos);
      InGridRow(g, pos + 1);
      ShiftOneHot(pos, 1);
    }
  }

  /** A successful move lands on a set, adjacent cell. */
  lemma MoveIsAdjacent(g: Grid, b: set<nat>, pos: nat, d: Direction)
    requires pos < Cells(g)
    ensures Move(g, b, pos, d).Some? ==>
      Move(g, b, pos, d).value in b && Adjacent(g, pos, Move(g, b, pos, d).value)
  {
    GetPositionAfterMoveSpec(g, pos, d);
  }

  /** The direction from x to an adjacent y. */
  function DirectionTo(g: Grid, x: nat, y: nat): Direction
  {
    if Row(g, y) + 1 == Row(g, x) then Up
    else if Row(g, x) + 1 == Row(g, y) then Down
    else if Col(g, y) + 1 == Col(g, x) then Left
    else Right
  }

  /** Every set cell adjacent to pos is reached by Move in the direction towards it. */
  lemma AdjacentIsMove(g: Grid, b: set<nat>, pos: nat, q: nat)
    requires Adjacent(g, pos, q) && q in b
    ensures Move(g, b, pos, DirectionTo(g, pos, q)) == Some(q)
  {
    var d := DirectionTo(g, pos, q);
    GetPositionAfterMoveSpec(g, pos, d);
    var q' := GetPositionAfterMove(g, pos, d).value;
    CellFromRowCol(g, q, q');
  }

  /** A cell is determined by its row and column. */
  lemma CellFromRowCol(g: Grid, x: nat, y: nat)
    requires Row(g, x) == Row(g, y) && Col(g, x) == Col(g, y)
    ensures x == y
  {
    IndexOfRowCol(g, x);
    IndexOfRowCol(g, y);
  }
}
