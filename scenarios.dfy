/** Small concrete boards, worked through the model. */
module Scenarios {
  import opened BitBoard
  import opened Adjacency
  import opened Feasibility
  import opened Solver

  /** On a 2 x 2 grid, the two cells (0, 1) and (1, 0) share a colour and touch only diagonally:
    * the pruning rejects the board, so no start has a path. */
  lemma DiagonalPairHasNoPath(s: nat)
    ensures !BoardPossible(Dims(2, 2), {1, 2})
    ensures !HamiltonianFrom(Dims(2, 2), {1, 2}, s)
  {
    var g := Dims(2, 2);
    assert Parity(g, 1) == 1 && Parity(g, 2) == 1;
    assert ParityClass(g, {1, 2}, 1) == {1, 2};
    assert ParityClass(g, {1, 2}, 0) == {};
    ImpossibleNoPath(g, {1, 2}, s);
  }

  /** On a full 2 x 2 grid a path starts at cell 0 and goes round the square. */
  lemma SquareHasPath()
    ensures HamiltonianFrom(Dims(2, 2), Range(0, 4), 0)
  {
    var g := Dims(2, 2);
    var p := [0, 1, 3, 2];
    assert forall x | x in Range(0, 4) :: x == 0 || x == 1 || x == 2 || x == 3;
    assert IsHamiltonianPath(g, Range(0, 4), p);
  }

  /** On a full 1 x 3 grid the end cells have colour 0 and the middle cell colour 1, so every path
    * starts and ends on colour 0: there is none from the middle. */
  lemma MiddleStartHasNoPath()
    ensures !HamiltonianFrom(Dims(1, 3), Range(0, 3), 1)
  {
    var g := Dims(1, 3);
    if HamiltonianFrom(g, Range(0, 3), 1) {
      var p :| IsHamiltonianPath(g, Range(0, 3), p) && p[0] == 1;
      StartColour(g, Range(0, 3), p);
      LineClasses();
    }
  }

  lemma LineClasses()
    ensures Parity(Dims(1, 3), 1) == 1
    ensures ParityClass(Dims(1, 3), Range(0, 3), 1) == {1}
    ensures ParityClass(Dims(1, 3), Range(0, 3), 0) == {0, 2}
  {
    var g := Dims(1, 3);
    assert Parity(g, 0) == 0 && Parity(g, 1) == 1 && Parity(g, 2) == 0;
    assert Range(0, 3) == {0, 1, 2};
  }

  /** On a full 1 x 3 grid the only path from the leftmost cell is [0, 1, 2], and it is what the
    * search finds. */
  lemma LineFromLeft()
    ensures IsHamiltonianPath(Dims(1, 3), Range(0, 3), [0, 1, 2])
    ensures forall p | IsHamiltonianPath(Dims(1, 3), Range(0, 3), p) && p[0] == 0 :: p == [0, 1, 2]
    ensures Search(Dims(1, 3), Range(0, 3), Some(0)) == Some([0, 1, 2])
  {
    var g := Dims(1, 3);
    assert Range(0, 3) == {0, 1, 2};
    assert IsHamiltonianPath(g, Range(0, 3), [0, 1, 2]);
    forall p | IsHamiltonianPath(g, Range(0, 3), p) && p[0] == 0 ensures p == [0, 1, 2] {
      LineUnique(p);
    }
    SearchCorrect(g, Range(0, 3), Some(0));
    LineUnique(Search(g, Range(0, 3), Some(0)).value);
  }

  lemma LineUnique(p: seq<nat>)
    requires IsHamiltonianPath(Dims(1, 3), Range(0, 3), p) && p[0] == 0
    ensures p == [0, 1, 2]
  {
    var g := Dims(1, 3);
    HamiltonianPathFacts(g, Range(0, 3), p);
    assert Range(0, 3) == {0, 1, 2};
    assert |p| == 3;
    assert Adjacent(g, p[0], p[1]) && Adjacent(g, p[1], p[2]);
    assert p[1] in {0, 1, 2} && p[2] in {0, 1, 2};
    assert p[1] == 1;
    assert p[2] == 2;
  }

  /** On a full 3 x 3 grid a path starts at the centre cell 4: up, then around the border. */
  lemma CentreStartHasPath()
    ensures IsHamiltonianPath(Dims(3, 3), Range(0, 9), CentrePath())
    ensures HamiltonianFrom(Dims(3, 3), Range(0, 9), 4)
  {
    CentreWalk();
    CentreDistinct();
    CentreCovers();
    assert CentrePath()[0] == 4;
  }

  function CentrePath(): seq<nat> { [4, 1, 0, 3, 6, 7, 8, 5, 2] }

  lemma CentreWalk()
    ensures IsWalk(Dims(3, 3), Range(0, 9), CentrePath())
  {
    var p := CentrePath();
    CentreSteps();
    forall i | 0 <= i < |p| - 1 ensures Adjacent(Dims(3, 3), p[i], p[i + 1]) {
    }
  }

  lemma CentreDistinct()
    ensures Distinct(CentrePath())
  {
    var p := CentrePath();
    forall i, j | 0 <= i < j < |p| ensures p[i] != p[j] {
      assert PositionIn(p[i]) == i && PositionIn(p[j]) == j;
    }
  }

  lemma CentreCovers()
    ensures forall x | x in Range(0, 9) :: x in CentrePath()
  {
    forall x | x in Range(0, 9) ensures x in CentrePath() {
      assert CentrePath()[PositionIn(x)] == x;
    }
  }

  /** Where each cell of the 3 x 3 grid occurs on the centre path. */
  function PositionIn(x: nat): (i: nat)
    requires x < 9
    ensures i < 9 && CentrePath()[i] == x
  {
    [2, 1, 8, 3, 0, 7, 4, 5, 6][x]
  }

  lemma CentreSteps()
    ensures Adjacent(Dims(3, 3), 4, 1) && Adjacent(Dims(3, 3), 1, 0) && Adjacent(Dims(3, 3), 0, 3)
    ensures Adjacent(Dims(3, 3), 3, 6) && Adjacent(Dims(3, 3), 6, 7) && Adjacent(Dims(3, 3), 7, 8)
    ensures Adjacent(Dims(3, 3), 8, 5) && Adjacent(Dims(3, 3), 5, 2)
  {
  }
}
