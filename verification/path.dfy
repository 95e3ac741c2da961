/**
  The walk of one participant down a ladder (`simulate_path`).

  Heights are counted in half-rows so that no fractions are needed: the top of
  row `y` is at `2 * y`, its rungs at `2 * y + 1` and its bottom at `2 * y + 2`.
  The source indexes rows the Python way: a negative index counts from the end,
  and any other index outside the row raises `IndexError`, which the model
  returns as a value.
 */
module Paths {
  import opened Ladders

  datatype Option<T> = None | Some(value: T)

  /** A point of the walk: a column and a height in half-rows. */
  datatype Waypoint = Waypoint(col: int, half: nat)

  type Path = seq<Waypoint>

  /** What `simulate_path` returns: a path, or the `IndexError` it raised while
      crossing row `row` from column `col`. */
  datatype PathResult = Ok(path: Path) | IndexError(row: nat, col: int)

  /** Python's `row[i]`. */
  function Lookup(row: Row, i: int): (r: Option<bool>)
    ensures r.Some? <==> -|row| <= i < |row|
  {
    if 0 <= i < |row| then Some(row[i])
    else if -|row| <= i < 0 then Some(row[|row| + i])
    else None
  }

  /** The column after crossing `row` from column `col`: the rung on the left is
      checked first, then the rung on the right; `None` when an index raises.
      Each `and` of the source evaluates its indexing only when the bound test
      before it holds. */
  function Shift(row: Row, col: int): (r: Option<int>)
    ensures r.None? <==> col > |row| || col < -|row|
    ensures r.Some? ==> col - 1 <= r.value <= col + 1
    ensures 0 <= col <= |row| ==> r.Some? && 0 <= r.value <= |row|
    ensures 0 < col <= |row| && row[col - 1] ==> r == Some(col - 1)
    ensures 0 <= col < |row| && row[col] && !(0 < col && row[col - 1]) ==> r == Some(col + 1)
    ensures 0 <= col <= |row| && !(0 < col && row[col - 1]) && !(col < |row| && row[col]) ==> r == Some(col)
    ensures -|row| <= col < 0 ==> r == Some(if row[|row| + col] then col + 1 else col)
  {
    var left := if col > 0 then Lookup(row, col - 1) else Some(false);
    match left
    case None => None
    case Some(true) => Some(col - 1)
    case Some(false) =>
      var right := if col < |row| then Lookup(row, col) else Some(false);
      match right
      case None => None
      case Some(true) => Some(col + 1)
      case Some(false) => Some(col)
  }

  /** The waypoints the loop of `simulate_path` appends for the rows of `ladder`,
      entered at column `col` and height `2 * y`. */
  function Walk(ladder: Ladder, col: int, y: nat): (r: PathResult)
    decreases |ladder|
  {
    if |ladder| == 0 then Ok([])
    else
      match Shift(ladder[0], col)
      case None => IndexError(y, col)
      case Some(next) =>
        var crossing := if next != col then [Waypoint(next, 2 * y + 1)] else [];
        match Walk(ladder[1..], next, y + 1)
        case IndexError(r, c) => IndexError(r, c)
        case Ok(rest) => Ok([Waypoint(col, 2 * y + 1)] + crossing + [Waypoint(next, 2 * y + 2)] + rest)
  }

  /** `simulate_path(ladder, start)`. */
  function SimulatePath(ladder: Ladder, start: int): (r: PathResult)
    ensures r.Ok? ==> |r.path| >= 1 && r.path[0] == Waypoint(start, 0)
  {
    match Walk(ladder, start, 0)
    case IndexError(row, col) => IndexError(row, col)
    case Ok(p) => Ok([Waypoint(start, 0)] + p)
  }

  /** The column where the participant starting at `start` ends: the column of
      the last waypoint, `path[-1][0]`. */
  function FinalColumn(ladder: Ladder, start: int): Option<int> {
    match SimulatePath(ladder, start)
    case IndexError(_, _) => None
    case Ok(p) => Some(p[|p| - 1].col)
  }

  /** The column reached after crossing every row, one `Shift` at a time. */
  function Descend(ladder: Ladder, col: int): Option<int>
    decreases |ladder|
  {
    if |ladder| == 0 then Some(col)
    else
      match Shift(ladder[0], col)
      case None => None
      case Some(next) => Descend(ladder[1..], next)
  }

  /** The number of rows whose rung moves the walker, counted up to the first
      row that raises. */
  function Turns(ladder: Ladder, col: int): nat
    decreases |ladder|
  {
    if |ladder| == 0 then 0
    else
      match Shift(ladder[0], col)
      case None => 0
      case Some(next) => (if next != col then 1 else 0) + Turns(ladder[1..], next)
  }

  /** One move of the walk: down half a row in the same column, or, at the
      height of a row's rungs, sideways to a neighbouring column. */
  predicate Move(a: Waypoint, b: Waypoint) {
    || (b.half == a.half + 1 && b.col == a.col)
    || (b.half == a.half && a.half % 2 == 1 && (b.col == a.col + 1 || b.col == a.col - 1))
  }

  /** Each waypoint of `p` follows from the one before it by a `Move`. */
  predicate Moves(p: Path) {
    forall i :: 0 <= i < |p| - 1 ==> Move(p[i], p[i + 1])
  }

  /** Two walks that meet at a waypoint form one walk. */
  lemma JoinMoves(a: Path, b: Path)
    requires |a| > 0 && Moves(a) && Moves([a[|a| - 1]] + b)
    ensures Moves(a + b)
  {
    var c := [a[|a| - 1]] + b;
    forall i | 0 <= i < |a + b| - 1
      ensures Move((a + b)[i], (a + b)[i + 1])
    {
      if i >= |a| - 1 {
        assert (a + b)[i] == c[i - |a| + 1];
        assert (a + b)[i + 1] == c[i - |a| + 2];
      }
    }
  }

  /** The walk through the rows succeeds exactly when crossing them one `Shift`
      at a time does, and ends, at the bottom of the last row, in the column
      that `Descend` reaches. */
  lemma {:induction false} WalkEnds(ladder: Ladder, col: int, y: nat)
    ensures Walk(ladder, col, y).Ok? <==> Descend(ladder, col).Some?
    ensures Walk(ladder, col, y).Ok? ==>
      var q := [Waypoint(col, 2 * y)] + Walk(ladder, col, y).path;
      q[|q| - 1] == Waypoint(Descend(ladder, col).value, 2 * (y + |ladder|))
    decreases |ladder|
  {
    if |ladder| > 0 {
      match Shift(ladder[0], col)
      case None =>
      case Some(next) =>
        WalkEnds(ladder[1..], next, y + 1);
    }
  }

  /** A walk through the rows appends two waypoints per row, plus one for every
      row whose rung moves the walker. */
  lemma {:induction false} WalkLength(ladder: Ladder, col: int, y: nat)
    ensures Walk(ladder, col, y).Ok? ==> |Walk(ladder, col, y).path| == 2 * |ladder| + Turns(ladder, col)
    decreases |ladder|
  {
    if |ladder| > 0 {
      match Shift(ladder[0], col)
      case None =>
      case Some(next) =>
        WalkLength(ladder[1..], next, y + 1);
    }
  }

  /** Every step of a walk through the rows is a `Move`. */
  lemma {:induction false} WalkMoves(ladder: Ladder, col: int, y: nat)
    ensures Walk(ladder, col, y).Ok? ==> Moves([Waypoint(col, 2 * y)] + Walk(ladder, col, y).path)
    decreases |ladder|
  {
    if |ladder| > 0 {
      match Shift(ladder[0], col)
      case None =>
      case Some(next) =>
        WalkMoves(ladder[1..], next, y + 1);
        var r := Walk(ladder[1..], next, y + 1);
        if r.Ok? {
          var crossing := if next != col then [Waypoint(next, 2 * y + 1)] else [];
          var head := [Waypoint(col, 2 * y), Waypoint(col, 2 * y + 1)] + crossing + [Waypoint(next, 2 * y + 2)];
          assert Moves(head);
          JoinMoves(head, r.path);
          assert [Waypoint(col, 2 * y)] + Walk(ladder, col, y).path == head + r.path;
        }
    }
  }

  /** Walking from a column inside a ladder whose rows all have `n - 1` cells
      never raises, and every waypoint lies on one of the `n` columns, within
      the rows walked. */
  lemma {:induction false} WalkInBounds(ladder: Ladder, col: int, y: nat, n: int)
    requires 0 <= col < n
    requires forall r :: 0 <= r < |ladder| ==> |ladder[r]| == n - 1
    ensures Walk(ladder, col, y).Ok?
    ensures forall w :: w in Walk(ladder, col, y).path ==> 0 <= w.col < n && 2 * y < w.half <= 2 * (y + |ladder|)
    decreases |ladder|
  {
    if |ladder| > 0 {
      var next := Shift(ladder[0], col).value;
      WalkInBounds(ladder[1..], next, y + 1, n);
    }
  }

  /** A walk that raises does so at the first row it cannot cross: the rows
      above it are crossed, and the column it reaches there lies outside the
      indices that row accepts. */
  lemma {:induction false} WalkFails(ladder: Ladder, col: int, y: nat)
    ensures Walk(ladder, col, y).IndexError? ==>
      var e := Walk(ladder, col, y);
      && y <= e.row < y + |ladder|
      && Descend(ladder[..e.row - y], col) == Some(e.col)
      && Shift(ladder[e.row - y], e.col).None?
    decreases |ladder|
  {
    if |ladder| > 0 {
      match Shift(ladder[0], col)
      case None =>
        assert ladder[..0] == [];
      case Some(next) =>
        WalkFails(ladder[1..], next, y + 1);
        var e := Walk(ladder, col, y);
        if e.IndexError? {
          var m := e.row - y;
          assert ladder[..m][1..] == ladder[1..][..m - 1];
        }
    }
  }

  /** When `simulate_path` raises `IndexError` at row `r` from column `c`, the
      rows above `r` lead from the start column to `c`, and `c` is beyond the
      end of row `r` or more negative than its length. */
  lemma PathFails(ladder: Ladder, start: int)
    ensures SimulatePath(ladder, start).IndexError? ==>
      var e := SimulatePath(ladder, start);
      && e.row < |ladder|
      && Descend(ladder[..e.row], start) == Some(e.col)
      && (e.col > |ladder[e.row]| || e.col < -|ladder[e.row]|)
  {
    WalkFails(ladder, start, 0);
  }

  /** Waypoint `w` of a walk entered at column `col` and height `2 * y` lies
      on the track the rows dictate: `k` rows below the entry, a waypoint at a
      row boundary is in the column reached by crossing those `k` rows, and a
      waypoint at the rung height of the next row is in the column before or
      after crossing that row. */
  predicate OnTrack(ladder: Ladder, col: int, y: nat, w: Waypoint) {
    && 2 * y <= w.half <= 2 * (y + |ladder|)
    && var k := (w.half - 2 * y) / 2;
    && (w.half % 2 == 0 ==> Descend(ladder[..k], col) == Some(w.col))
    && (w.half % 2 == 1 ==>
          && k < |ladder|
          && (Descend(ladder[..k], col) == Some(w.col) || Descend(ladder[..k + 1], col) == Some(w.col)))
  }

  /** Crossing the first `k + 1` rows is crossing the first row, then `k` more. */
  lemma DescendPrefix(ladder: Ladder, col: int, next: int, k: nat)
    requires |ladder| > 0 && Shift(ladder[0], col) == Some(next) && k < |ladder|
    ensures Descend(ladder[..k + 1], col) == Descend(ladder[1..][..k], next)
  {
    assert ladder[..k + 1][1..] == ladder[1..][..k];
  }

  /** A waypoint on the track of the rows below the first is on the track of
      the whole walk. */
  lemma OnTrackBelow(ladder: Ladder, col: int, next: int, y: nat, w: Waypoint)
    requires |ladder| > 0 && Shift(ladder[0], col) == Some(next)
    requires OnTrack(ladder[1..], next, y + 1, w)
    ensures OnTrack(ladder, col, y, w)
  {
    var k := (w.half - 2 * y) / 2;
    assert k >= 1 && (w.half - 2 * (y + 1)) / 2 == k - 1;
    DescendPrefix(ladder, col, next, k - 1);
    if w.half % 2 == 1 {
      DescendPrefix(ladder, col, next, k);
    }
  }

  /** Every waypoint of a walk lies on the track the rows dictate. */
  lemma {:induction false} WalkFollowsRows(ladder: Ladder, col: int, y: nat)
    ensures Walk(ladder, col, y).Ok? ==>
      forall w :: w in Walk(ladder, col, y).path ==> OnTrack(ladder, col, y, w)
    decreases |ladder|
  {
    if |ladder| > 0 {
      match Shift(ladder[0], col)
      case None =>
      case Some(next) =>
        WalkFollowsRows(ladder[1..], next, y + 1);
        var r := Walk(ladder[1..], next, y + 1);
        if r.Ok? {
          assert ladder[..0] == [];
          assert ladder[..1][1..] == [];
          assert Descend(ladder[..0], col) == Some(col);
          assert Descend(ladder[..1], col) == Some(next);
          forall w | w in r.path
            ensures OnTrack(ladder, col, y, w)
          {
            OnTrackBelow(ladder, col, next, y, w);
          }
        }
    }
  }

  /** Every waypoint of the path lies where the rows send the walker: at the
      top or bottom of row `k` it is in the column reached by crossing the
      first `k` rows; at the rung height of row `k` it is in the column before
      or after crossing row `k`. With `PathMoves` and `PathLength` this fixes
      the whole trace. */
  lemma PathFollowsRows(ladder: Ladder, start: int)
    ensures SimulatePath(ladder, start).Ok? ==>
      forall w :: w in SimulatePath(ladder, start).path ==>
        && w.half <= 2 * |ladder|
        && (w.half % 2 == 0 ==> Descend(ladder[..w.half / 2], start) == Some(w.col))
        && (w.half % 2 == 1 ==>
              || Descend(ladder[..w.half / 2], start) == Some(w.col)
              || Descend(ladder[..w.half / 2 + 1], start) == Some(w.col))
  {
    WalkFollowsRows(ladder, start, 0);
    assert ladder[..0] == [];
    if SimulatePath(ladder, start).Ok? {
      var p := SimulatePath(ladder, start).path;
      forall w | w in p
        ensures OnTrack(ladder, start, 0, w)
      {
        if w != p[0] {
          assert w in p[1..];
        }
      }
    }
  }

  /** The path starts at the top of the start column and ends at the bottom of
      the ladder, in the column reached by crossing every row; it exists exactly
      when crossing every row succeeds. */
  lemma PathEnds(ladder: Ladder, start: int)
    ensures SimulatePath(ladder, start).Ok? <==> Descend(ladder, start).Some?
    ensures SimulatePath(ladder, start).Ok? ==>
      var p := SimulatePath(ladder, start).path;
      && p[0] == Waypoint(start, 0)
      && p[|p| - 1] == Waypoint(Descend(ladder, start).value, 2 * |ladder|)
  {
    WalkEnds(ladder, start, 0);
  }

  /** The path has one waypoint for the start, two per row, and one more for
      each row whose rung moves the walker; so between `1 + 2R` and `1 + 3R`. */
  lemma PathLength(ladder: Ladder, start: int)
    ensures SimulatePath(ladder, start).Ok? ==>
      && |SimulatePath(ladder, start).path| == 1 + 2 * |ladder| + Turns(ladder, start)
      && |SimulatePath(ladder, start).path| <= 1 + 3 * |ladder|
  {
    WalkLength(ladder, start, 0);
    TurnsBound(ladder, start);
  }

  /** At most one turn per row. */
  lemma {:induction false} TurnsBound(ladder: Ladder, col: int)
    ensures Turns(ladder, col) <= |ladder|
    decreases |ladder|
  {
    if |ladder| > 0 {
      match Shift(ladder[0], col)
      case None =>
      case Some(next) => TurnsBound(ladder[1..], next);
    }
  }

  /** Between consecutive waypoints the walker either goes down half a row in
      the same column or, at the height of a row's rungs, moves one column
      sideways: the column changes by at most one and the height never drops. */
  lemma PathMoves(ladder: Ladder, start: int)
    ensures SimulatePath(ladder, start).Ok? ==> Moves(SimulatePath(ladder, start).path)
    ensures SimulatePath(ladder, start).Ok? ==>
      var p := SimulatePath(ladder, start).path;
      forall i :: 0 <= i < |p| - 1 ==>
        -1 <= p[i + 1].col - p[i].col <= 1 && p[i].half <= p[i + 1].half
  {
    WalkMoves(ladder, start, 0);
  }

  /** From a column inside a ladder whose rows all have `n - 1` cells, the walk
      never raises and stays on the `n` columns, between the top and the bottom
      of the ladder. */
  lemma PathInBounds(ladder: Ladder, start: int, n: int)
    requires 0 <= start < n
    requires forall r :: 0 <= r < |ladder| ==> |ladder[r]| == n - 1
    ensures SimulatePath(ladder, start).Ok?
    ensures forall w :: w in SimulatePath(ladder, start).path ==> 0 <= w.col < n && w.half <= 2 * |ladder|
  {
    WalkInBounds(ladder, start, 0, n);
  }

  /** The final column of the path is the column reached by crossing every row. */
  lemma FinalColumnIsDescend(ladder: Ladder, start: int)
    ensures FinalColumn(ladder, start) == Descend(ladder, start)
  {
    PathEnds(ladder, start);
  }
}
