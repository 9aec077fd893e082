/** The carousel layout: fifteen columns, two of five missions then one reward
    per block, and the clamped column cursor the arrow buttons move. */
module Columns {
  import opened Scoring

  datatype Column = Missions(from: int, to: int) | Reward(index: int)

  /** Number of columns in the track (three per block). */
  const ColumnCount := 3 * Blocks

  /** Column `i` of the track: block `i / 3`, first half, second half, reward. */
  function ColumnAt(i: int): Column
    requires 0 <= i < ColumnCount
  {
    var b := i / 3;
    if i % 3 == 0 then Missions(10 * b + 1, 10 * b + 5)
    else if i % 3 == 1 then Missions(10 * b + 6, 10 * b + 10)
    else Reward(b)
  }

  /** `makeColumnsOrder`: for each block, push the two mission columns and the reward. */
  method MakeColumnsOrder() returns (order: seq<Column>)
    ensures |order| == ColumnCount
    ensures forall i :: 0 <= i < ColumnCount ==> order[i] == ColumnAt(i)
  {
    order := [];
    var b := 0;
    while b < Blocks
      invariant 0 <= b <= Blocks
      invariant |order| == 3 * b
      invariant forall i :: 0 <= i < 3 * b ==> order[i] == ColumnAt(i)
    {
      var mA := b * 10 + 1;
      var mB := b * 10 + 6;
      order := order + [Missions(mA, mA + 4)];
      order := order + [Missions(mB, mB + 4)];
      order := order + [Reward(b)];
      b := b + 1;
    }
  }

  predicate Shows(c: Column, n: int)
  {
    c.Missions? && c.from <= n <= c.to
  }

  /** The column that shows mission `n`. */
  function ColumnOf(n: int): int
  {
    3 * BlockForMission(n) + (if JsRem10(n - 1) < 5 then 0 else 1)
  }

  /** Every mission 1..50 is shown in exactly one column, and that column lies
      before the reward of the mission's block. */
  lemma EachMissionInOneColumn(n: int)
    requires 1 <= n <= 10 * Blocks
    ensures 0 <= ColumnOf(n) < ColumnCount && Shows(ColumnAt(ColumnOf(n)), n)
    ensures forall j :: 0 <= j < ColumnCount && j != ColumnOf(n) ==> !Shows(ColumnAt(j), n)
    ensures ColumnAt(3 * BlockForMission(n) + 2) == Reward(BlockForMission(n))
    ensures ColumnOf(n) < 3 * BlockForMission(n) + 2
  {
    var b := BlockForMission(n);
    assert 0 <= b < Blocks;
    assert ColumnOf(n) / 3 == b;
    forall j | 0 <= j < ColumnCount && j != ColumnOf(n)
      ensures !Shows(ColumnAt(j), n)
    {
      if j / 3 != b {
        assert j / 3 < b || j / 3 > b;
      }
    }
  }

  /** Each mission column shows five consecutive missions inside one block; the
      reward columns are numbered 0..4 in order. */
  lemma ColumnShape(i: int)
    requires 0 <= i < ColumnCount
    ensures ColumnAt(i).Missions? ==>
              ColumnAt(i).to == ColumnAt(i).from + 4 &&
              BlockForMission(ColumnAt(i).from) == BlockForMission(ColumnAt(i).to) == i / 3
    ensures ColumnAt(i).Reward? <==> i % 3 == 2
    ensures ColumnAt(i).Reward? ==> 0 <= ColumnAt(i).index < Blocks
  {
  }

  /** The arrow buttons: one column left or right, clamped to the carousel. */
  function Step(colIndex: int, delta: int): (r: int)
    ensures 0 <= r < ColumnCount
    ensures 0 <= colIndex + delta < ColumnCount ==> r == colIndex + delta
  {
    Clamp(colIndex + delta, 0, ColumnCount - 1)
  }

  /** Stepping back undoes stepping forward except at the last column. */
  lemma StepBackUndoesForward(colIndex: int)
    requires 0 <= colIndex < ColumnCount - 1
    ensures Step(Step(colIndex, 1), -1) == colIndex
  {
  }

  /** Pressing an arrow at the edge of the track keeps the cursor where it is. */
  lemma StepAtEdges()
    ensures Step(0, -1) == 0
    ensures Step(ColumnCount - 1, 1) == ColumnCount - 1
  {
  }
}
