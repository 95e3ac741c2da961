/**
  The outcome mapping of a game: start column to final column.

  Within a row that obeys the rung rule, crossing the row swaps the two ends of
  every rung and leaves every other column alone, so crossing the row twice
  comes back to the start. Walking the rows in reverse order therefore undoes a
  walk, and the mapping from start column to final column is a permutation of
  the columns.
 */
module Outcomes {
  import opened Ladders
  import opened Paths

  /** Crossing a rule-abiding row swaps the two ends of each rung and leaves a
      column that touches no rung where it is; so the left-first check of
      `simulate_path` never has to break a tie. */
  lemma ShiftIsTransposition(row: Row, c: int)
    requires NoAdjacentRungs(row) && 0 <= c <= |row|
    ensures !(0 < c && c < |row| && row[c - 1] && row[c])
    ensures c < |row| && row[c] ==> Shift(row, c) == Some(c + 1)
    ensures 0 < c && row[c - 1] ==> Shift(row, c) == Some(c - 1)
    ensures !(c < |row| && row[c]) && !(0 < c && row[c - 1]) ==> Shift(row, c) == Some(c)
  {
  }

  /** Crossing a rule-abiding row twice leads back to the start column. */
  lemma ShiftInvolution(row: Row, c: int)
    requires NoAdjacentRungs(row) && 0 <= c <= |row|
    ensures Shift(row, c).Some? && Shift(row, Shift(row, c).value) == Some(c)
  {
    ShiftIsTransposition(row, c);
    ShiftIsTransposition(row, Shift(row, c).value);
  }

  /** The rows of `ladder`, bottom to top. */
  function Reverse(ladder: Ladder): (r: Ladder)
    ensures |r| == |ladder|
    ensures forall i :: 0 <= i < |r| ==> r[i] == ladder[|ladder| - 1 - i]
    decreases |ladder|
  {
    if |ladder| == 0 then [] else Reverse(ladder[1..]) + [ladder[0]]
  }

  /** Crossing one more row at the bottom. */
  lemma {:induction false} DescendAppend(ladder: Ladder, row: Row, c: int)
    ensures Descend(ladder + [row], c) ==
      match Descend(ladder, c)
      case None => None
      case Some(d) => Shift(row, d)
    decreases |ladder|
  {
    if |ladder| == 0 {
      assert [] + [row] == [row];
      assert [row][1..] == [];
    } else {
      assert (ladder + [row])[1..] == ladder[1..] + [row];
      match Shift(ladder[0], c)
      case None =>
      case Some(next) => DescendAppend(ladder[1..], row, next);
    }
  }

  /** From one of `n` columns, crossing rows of `n - 1` cells each succeeds
      and reaches one of the `n` columns. */
  lemma {:induction false} DescendInRange(ladder: Ladder, n: int, c: int)
    requires forall r :: 0 <= r < |ladder| ==> |ladder[r]| == n - 1
    requires 0 <= c < n
    ensures Descend(ladder, c).Some? && 0 <= Descend(ladder, c).value < n
    decreases |ladder|
  {
    if |ladder| > 0 {
      DescendInRange(ladder[1..], n, Shift(ladder[0], c).value);
    }
  }

  /** Walking the rows of a well-formed ladder bottom to top leads from a
      participant's final column back to their start column. */
  lemma {:induction false} ReverseUndoesDescend(ladder: Ladder, n: int, c: int)
    requires WellFormed(ladder, n) && 0 <= c < n
    ensures Descend(ladder, c).Some?
    ensures Descend(Reverse(ladder), Descend(ladder, c).value) == Some(c)
    decreases |ladder|
  {
    DescendInRange(ladder, n, c);
    if |ladder| > 0 {
      var row := ladder[0];
      var next := Shift(row, c).value;
      var d := Descend(ladder, c).value;
      assert Descend(ladder[1..], next) == Some(d);
      ReverseUndoesDescend(ladder[1..], n, next);
      DescendAppend(Reverse(ladder[1..]), row, d);
      ShiftInvolution(row, c);
    }
  }

  /** The rows of a well-formed ladder in reverse order form a well-formed ladder. */
  lemma ReverseWellFormed(ladder: Ladder, n: int)
    requires WellFormed(ladder, n)
    ensures WellFormed(Reverse(ladder), n)
    ensures Reverse(Reverse(ladder)) == ladder
  {
    var rr := Reverse(Reverse(ladder));
    assert forall i :: 0 <= i < |rr| ==> rr[i] == ladder[i];
  }

  /** The start column of the participant who ends in column `t`: the column
      reached by walking the rows from the bottom up. */
  function StartColumn(ladder: Ladder, t: int): Option<int> {
    Descend(Reverse(ladder), t)
  }

  /** For a ladder whose rows obey the rung rule, the start-to-final-column
      mapping of `simulate_path` is a permutation of the `n` columns: every
      start column has a final column among the `n`, and `StartColumn` is its
      inverse on both sides, so no two start columns share a final column and
      every column is the final column of some start column. */
  lemma OutcomeIsPermutation(ladder: Ladder, n: int)
    requires WellFormed(ladder, n)
    ensures forall s :: 0 <= s < n ==>
      && FinalColumn(ladder, s).Some?
      && 0 <= FinalColumn(ladder, s).value < n
      && StartColumn(ladder, FinalColumn(ladder, s).value) == Some(s)
    ensures forall t :: 0 <= t < n ==>
      && StartColumn(ladder, t).Some?
      && 0 <= StartColumn(ladder, t).value < n
      && FinalColumn(ladder, StartColumn(ladder, t).value) == Some(t)
  {
    forall s | 0 <= s < n
      ensures FinalColumn(ladder, s).Some? && 0 <= FinalColumn(ladder, s).value < n
      ensures StartColumn(ladder, FinalColumn(ladder, s).value) == Some(s)
    {
      FinalColumnIsDescend(ladder, s);
      DescendInRange(ladder, n, s);
      ReverseUndoesDescend(ladder, n, s);
    }
    ReverseWellFormed(ladder, n);
    forall t | 0 <= t < n
      ensures StartColumn(ladder, t).Some? && 0 <= StartColumn(ladder, t).value < n
      ensures FinalColumn(ladder, StartColumn(ladder, t).value) == Some(t)
    {
      DescendInRange(Reverse(ladder), n, t);
      ReverseUndoesDescend(Reverse(ladder), n, t);
      FinalColumnIsDescend(ladder, StartColumn(ladder, t).value);
    }
  }

  /** No two participants of a well-formed ladder end in the same column. */
  lemma FinalColumnsDistinct(ladder: Ladder, n: int, a: int, b: int)
    requires WellFormed(ladder, n) && 0 <= a < n && 0 <= b < n && a != b
    ensures FinalColumn(ladder, a) != FinalColumn(ladder, b)
  {
    OutcomeIsPermutation(ladder, n);
  }

  /** Without the rung rule the mapping is no permutation: in the row
      `[True, True]` columns 0 and 2 both end in column 1, while column 1,
      checking its left rung first, ends in column 0. */
  lemma AdjacentRungsBreakPermutation()
    ensures !NoAdjacentRungs([true, true])
    ensures FinalColumn([[true, true]], 0) == Some(1)
    ensures FinalColumn([[true, true]], 2) == Some(1)
    ensures FinalColumn([[true, true]], 1) == Some(0)
  {
    assert SimulatePath([[true, true]], 0).path == [Waypoint(0, 0), Waypoint(0, 1), Waypoint(1, 1), Waypoint(1, 2)];
    assert SimulatePath([[true, true]], 2).path == [Waypoint(2, 0), Waypoint(2, 1), Waypoint(1, 1), Waypoint(1, 2)];
    assert SimulatePath([[true, true]], 1).path == [Waypoint(1, 0), Waypoint(1, 1), Waypoint(0, 1), Waypoint(0, 2)];
  }

  /** Three columns, a rung between columns 0 and 1 in the first row and one
      between columns 1 and 2 in the second: 0 ends in 2, 1 in 0 and 2 in 1. */
  lemma ThreeColumnScenario()
    ensures FinalColumn([[true, false], [false, true]], 0) == Some(2)
    ensures FinalColumn([[true, false], [false, true]], 1) == Some(0)
    ensures FinalColumn([[true, false], [false, true]], 2) == Some(1)
  {
    FinalColumnIsDescend([[true, false], [false, true]], 0);
    FinalColumnIsDescend([[true, false], [false, true]], 1);
    FinalColumnIsDescend([[true, false], [false, true]], 2);
  }

  /** Two columns and one row: a rung swaps the two participants, including
      the sideways waypoint at mid-row; no rung leaves both where they are. */
  lemma TwoColumnSwap()
    ensures SimulatePath([[true]], 0) == Ok([Waypoint(0, 0), Waypoint(0, 1), Waypoint(1, 1), Waypoint(1, 2)])
    ensures SimulatePath([[true]], 1) == Ok([Waypoint(1, 0), Waypoint(1, 1), Waypoint(0, 1), Waypoint(0, 2)])
    ensures SimulatePath([[false]], 0) == Ok([Waypoint(0, 0), Waypoint(0, 1), Waypoint(0, 2)])
    ensures SimulatePath([[false]], 1) == Ok([Waypoint(1, 0), Waypoint(1, 1), Waypoint(1, 2)])
  {
  }
}
