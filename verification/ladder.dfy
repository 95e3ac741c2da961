/**
  The ladder of an Amidakuji ("ghost-leg") lottery and its generator.

  A ladder is a list of rows, top to bottom. A row for `n` participants has
  `n - 1` cells; cell `j` is true when a rung joins column `j` to column `j + 1`.
  The generator scans each row left to right: a coin decides whether gap `j`
  gets a rung, and a rung makes the scan skip gap `j + 1`, so no two rungs of
  a row share a column.
 */
module Ladders {

  type Row = seq<bool>
  type Ladder = seq<Row>

  /** The outcomes of successive `random.choice([True, False])` calls:
      `coins(k)` is the result of the k-th call. */
  type CoinStream = nat -> bool

  /** Length of `[False] * (nPeople - 1)`: a non-positive count gives an empty list. */
  function RowWidth(nPeople: int): nat {
    if nPeople > 1 then nPeople - 1 else 0
  }

  /** Number of iterations of `range(nRows)`. */
  function RowCount(nRows: int): nat {
    if nRows > 0 then nRows else 0
  }

  /** No column is the endpoint of two rungs of the row. */
  predicate NoAdjacentRungs(row: Row) {
    forall j :: 0 <= j < |row| - 1 ==> !(row[j] && row[j + 1])
  }

  /** Every row has one cell per gap between `nPeople` columns and obeys the rung rule. */
  predicate WellFormed(ladder: Ladder, nPeople: int) {
    forall r :: 0 <= r < |ladder| ==> |ladder[r]| == nPeople - 1 && NoAdjacentRungs(ladder[r])
  }

  /** The cells `j .. w-1` that the scan of a row of width `w` lays out when it
      reaches gap `j` and its next coin is `coins(k)`, paired with the index of
      the first coin it leaves unread. */
  function ScanFrom(w: nat, j: nat, coins: CoinStream, k: nat): (res: (Row, nat))
    requires j <= w
    ensures |res.0| == w - j
    ensures NoAdjacentRungs(res.0)
    ensures j < w ==> res.0[0] == coins(k)
    ensures k + (w - j + 1) / 2 <= res.1 <= k + (w - j)
    decreases w - j
  {
    if j == w then ([], k)
    else if coins(k) then
      if j + 1 == w then ([true], k + 1)
      else
        var rest := ScanFrom(w, j + 2, coins, k + 1);
        ([true, false] + rest.0, rest.1)
    else
      var rest := ScanFrom(w, j + 1, coins, k + 1);
      ([false] + rest.0, rest.1)
  }

  /** The `count` rows of width `w` generated one after the other from coin `k`
      on, paired with the index of the first coin left unread. */
  function RowsFrom(w: nat, count: nat, coins: CoinStream, k: nat): (res: (Ladder, nat))
    ensures |res.0| == count
    ensures forall r :: 0 <= r < count ==> |res.0[r]| == w && NoAdjacentRungs(res.0[r])
    ensures k <= res.1
    decreases count
  {
    if count == 0 then ([], k)
    else
      var row := ScanFrom(w, 0, coins, k);
      var rest := RowsFrom(w, count - 1, coins, row.1);
      ([row.0] + rest.0, rest.1)
  }

  /** One pass of the row loop of `generate_ladder`: a row of `w` cells, all
      empty at first, scanned left to right from coin `drawn` on; a rung at gap
      `j` makes the scan skip gap `j + 1`. Returns the row and the index of the
      first coin left unread. */
  method GenerateRow(w: nat, coins: CoinStream, drawn0: nat) returns (row: Row, drawn: nat)
    ensures (row, drawn) == ScanFrom(w, 0, coins, drawn0)
    ensures |row| == w && NoAdjacentRungs(row)
  {
    row := seq(w, _ => false);
    drawn := drawn0;
    ghost var target := ScanFrom(w, 0, coins, drawn0);
    var j := 0;
    while j < w
      invariant 0 <= j <= w + 1
      invariant |row| == w
      invariant forall i :: 0 <= i < j && i < w ==> row[i] == target.0[i]
      invariant forall i :: j <= i < w ==> !row[i]
      invariant j <= w ==> ScanFrom(w, j, coins, drawn) == (target.0[j..], target.1)
      invariant j == w + 1 ==> drawn == target.1
      decreases w + 1 - j
    {
      if coins(drawn) {
        ScanRung(w, j, coins, drawn);
        row := row[j := true];
        j := j + 2;
      } else {
        ScanNoRung(w, j, coins, drawn);
        j := j + 1;
      }
      drawn := drawn + 1;
    }
    if j == w {
      assert ScanFrom(w, w, coins, drawn).1 == drawn;
    }
    assert row == target.0;
  }

  /** A rung at gap `j` fills cells `j` and `j + 1` and leaves the rest to the
      scan from gap `j + 2`. */
  lemma ScanRung(w: nat, j: nat, coins: CoinStream, k: nat)
    requires j < w && coins(k)
    ensures var s := ScanFrom(w, j, coins, k);
      && s.0[0]
      && (j + 1 < w ==> !s.0[1] && ScanFrom(w, j + 2, coins, k + 1) == (s.0[2..], s.1))
      && (j + 1 == w ==> s.1 == k + 1)
  {
    if j + 1 < w {
      var tail := ScanFrom(w, j + 2, coins, k + 1);
      assert ([true, false] + tail.0)[2..] == tail.0;
    }
  }

  /** No rung at gap `j` leaves cell `j` empty and the rest to the scan from
      gap `j + 1`. */
  lemma ScanNoRung(w: nat, j: nat, coins: CoinStream, k: nat)
    requires j < w && !coins(k)
    ensures var s := ScanFrom(w, j, coins, k);
      && !s.0[0]
      && ScanFrom(w, j + 1, coins, k + 1) == (s.0[1..], s.1)
  {
    var tail := ScanFrom(w, j + 1, coins, k + 1);
    assert ([false] + tail.0)[1..] == tail.0;
  }

  /** `generate_ladder(nPeople, nRows)` when `random.choice` yields `coins(0), coins(1), ...`. */
  method GenerateLadder(nPeople: int, nRows: int, coins: CoinStream) returns (ladder: Ladder)
    ensures |ladder| == RowCount(nRows)
    ensures forall r :: 0 <= r < |ladder| ==> |ladder[r]| == RowWidth(nPeople) && NoAdjacentRungs(ladder[r])
    ensures nPeople >= 1 ==> WellFormed(ladder, nPeople)
    ensures ladder == RowsFrom(RowWidth(nPeople), RowCount(nRows), coins, 0).0
  {
    var w := RowWidth(nPeople);
    var count := RowCount(nRows);
    ghost var target := RowsFrom(w, count, coins, 0).0;
    ladder := [];
    var drawn: nat := 0;
    var r := 0;
    while r < nRows
      invariant 0 <= r <= count
      invariant ladder == target[..r]
      invariant RowsFrom(w, count - r, coins, drawn).0 == target[r..]
    {
      var row;
      ghost var rest := RowsFrom(w, count - r, coins, drawn).0;
      row, drawn := GenerateRow(w, coins, drawn);
      assert rest == [row] + RowsFrom(w, count - r - 1, coins, drawn).0;
      assert target[r] == row && target[r + 1..] == rest[1..];
      ladder := ladder + [row];
      r := r + 1;
    }
    assert target[..r] == target;
  }

  /** The coins the scan reads to lay out `row`: one per gap it visits. */
  function Flips(row: Row): seq<bool>
    decreases |row|
  {
    if |row| == 0 then []
    else if row[0] then [true] + (if |row| == 1 then [] else Flips(row[2..]))
    else [false] + Flips(row[1..])
  }

  /** The coins the generator reads to lay out every row of `ladder`, in order. */
  function LadderFlips(ladder: Ladder): seq<bool>
    decreases |ladder|
  {
    if |ladder| == 0 then [] else Flips(ladder[0]) + LadderFlips(ladder[1..])
  }

  /** A coin stream that starts, at index `k`, with the flips `f`. */
  predicate Supplies(coins: CoinStream, k: nat, f: seq<bool>) {
    forall i :: 0 <= i < |f| ==> coins(k + i) == f[i]
  }

  /** Feeding the scan the flips of a rule-abiding row reproduces that row. */
  lemma {:induction false} ScanReadsFlips(w: nat, j: nat, coins: CoinStream, k: nat, row: Row)
    requires j <= w && |row| == w - j && NoAdjacentRungs(row)
    requires Supplies(coins, k, Flips(row))
    ensures ScanFrom(w, j, coins, k) == (row, k + |Flips(row)|)
    decreases w - j
  {
    if j < w {
      assert coins(k) == Flips(row)[0];
      if row[0] {
        if j + 1 < w {
          var rest := row[2..];
          assert !row[1];
          assert Flips(row) == [true] + Flips(rest);
          forall i | 0 <= i < |Flips(rest)|
            ensures coins(k + 1 + i) == Flips(rest)[i]
          {
            assert Flips(row)[1 + i] == Flips(rest)[i];
          }
          ScanReadsFlips(w, j + 2, coins, k + 1, rest);
          assert row == [true, false] + rest;
        } else {
          assert row == [true];
          assert Flips(row) == [true];
        }
      } else {
        var rest := row[1..];
        assert Flips(row) == [false] + Flips(rest);
        forall i | 0 <= i < |Flips(rest)|
          ensures coins(k + 1 + i) == Flips(rest)[i]
        {
          assert Flips(row)[1 + i] == Flips(rest)[i];
        }
        ScanReadsFlips(w, j + 1, coins, k + 1, rest);
        assert row == [false] + rest;
      }
    }
  }

  /** Feeding the generator the flips of a ladder of rule-abiding rows of width `w`
      reproduces that ladder. */
  lemma {:induction false} RowsReadFlips(w: nat, ladder: Ladder, coins: CoinStream, k: nat)
    requires forall r :: 0 <= r < |ladder| ==> |ladder[r]| == w && NoAdjacentRungs(ladder[r])
    requires Supplies(coins, k, LadderFlips(ladder))
    ensures RowsFrom(w, |ladder|, coins, k) == (ladder, k + |LadderFlips(ladder)|)
    decreases |ladder|
  {
    if |ladder| > 0 {
      var head := Flips(ladder[0]);
      var tail := LadderFlips(ladder[1..]);
      assert LadderFlips(ladder) == head + tail;
      forall i | 0 <= i < |head|
        ensures coins(k + i) == head[i]
      {
        assert LadderFlips(ladder)[i] == head[i];
      }
      ScanReadsFlips(w, 0, coins, k, ladder[0]);
      forall i | 0 <= i < |tail|
        ensures coins(k + |head| + i) == tail[i]
      {
        assert LadderFlips(ladder)[|head| + i] == tail[i];
      }
      RowsReadFlips(w, ladder[1..], coins, k + |head|);
      assert ladder == [ladder[0]] + ladder[1..];
    }
  }

  /** The stream that yields `f` and then only `False`. */
  function StreamOf(f: seq<bool>): CoinStream {
    (i: nat) => if i < |f| then f[i] else false
  }

  /** The generator can produce every ladder that obeys the rung rule: together
      with the contract of `GenerateLadder`, its possible outputs are exactly the
      well-formed ladders. */
  lemma EveryWellFormedLadderIsGenerated(ladder: Ladder, nPeople: int)
    requires nPeople >= 1 && WellFormed(ladder, nPeople)
    ensures exists coins: CoinStream :: RowsFrom(RowWidth(nPeople), |ladder|, coins, 0).0 == ladder
  {
    var w := RowWidth(nPeople);
    var f := LadderFlips(ladder);
    var coins := StreamOf(f);
    forall i | 0 <= i < |f|
      ensures coins(0 + i) == f[i]
    {
    }
    assert forall r :: 0 <= r < |ladder| ==> |ladder[r]| == w && NoAdjacentRungs(ladder[r]);
    RowsReadFlips(w, ladder, coins, 0);
    assert RowsFrom(w, |ladder|, coins, 0).0 == ladder;
  }
}
