# Ghost-leg (Amidakuji) lottery: a verified model of the ladder core

This project models the combinatorial core of the Streamlit "visual ladder
game" `sadari.py`. It covers two parts:

- `generate_ladder` builds `n_rows` rows of `n_people - 1` cells. It scans each
  row left to right. At each gap a coin decides whether to place a rung, and a
  rung makes the scan skip the next gap.
- `simulate_path` walks one participant from a start column to the bottom of
  the ladder. It checks the rung on the left before the rung on the right, and
  it records one waypoint at the top of the start column. Then each row adds a
  waypoint at mid-row, one more after a sideways move when a rung is taken, and
  one at the bottom of the row.

It proves three things:

- the generator never places two rungs on one column of a row;
- crossing such a row swaps the two ends of every rung, so it is an involution;
- the mapping from start column to final column is therefore a permutation.

Files:

- `ladder.dfy` (module `Ladders`): rows, ladders, the rung rule and the generator.
  `GenerateRow` and `GenerateLadder` follow the source's loops. They are proved
  equal to the recursive definitions `ScanFrom` and `RowsFrom`.
- `path.dfy` (module `Paths`): Python list indexing, the per-row `Shift`, the
  walk `Walk` / `SimulatePath`, and lemmas on the shape of the path.
- `outcome.dfy` (module `Outcomes`): involution, the reversed-ladder inverse,
  the permutation theorem, and concrete scenarios.

Modelling choices:

- The outcomes of `random.choice([True, False])` are a parameter: an infinite
  coin stream `coins: nat -> bool`. The generator reads it in order.
- A vertical position is counted in half-rows: `y` becomes `2*y`, `y + 0.5`
  becomes `2*y + 1`, and `y + 1` becomes `2*y + 2`.
- `simulate_path` indexes rows the way Python does. A negative index counts
  from the end. Any other index outside the row raises `IndexError`, which the
  model returns as the value `IndexError(row, col)`.
- The source validates no arguments, and the model follows the code.
  `[False] * (n_people - 1)` is empty when `n_people <= 1`. `range(n_rows)` is
  empty when `n_rows <= 0`. A start column outside the ladder does not raise
  unless an index does.

## Model

| member | source | states |
|---|---|---|
| `Ladders.ScanFrom` | sadari.py:26-33 | The cells the scan lays out from gap `j` fill the rest of the row, never put two rungs on one column, start with the coin read at that gap, and use between half and all of the remaining gaps' coins. |
| `Ladders.RowsFrom` | sadari.py:24-35 | The generated ladder has exactly the requested number of rows, each of the given width and obeying the rung rule, and reading coins never goes backwards. |
| `Ladders.GenerateRow` | sadari.py:26-33 | The scan-and-skip loop (rung: advance by 2, no rung: advance by 1) yields the row and coin count of the recursive scan, so the row has width `w` and no two adjacent rungs. |
| `Ladders.GenerateLadder` | sadari.py:19-35 | `generate_ladder` returns `max(n_rows, 0)` rows, each of `max(n_people - 1, 0)` cells with no two adjacent rungs (well-formed for `n_people >= 1`), equal to the recursive generator on the same coins. |
| `Ladders.ScanReadsFlips` | sadari.py:28-33 | Feeding the row scan the coins of any rule-abiding row reproduces that row, and reads exactly those coins. |
| `Ladders.RowsReadFlips` | sadari.py:24-35 | Feeding the generator the coins of any ladder of rule-abiding rows reproduces that ladder. |
| `Ladders.EveryWellFormedLadderIsGenerated` | sadari.py:19-35 | Every well-formed ladder is the output for some coin stream; together with `GenerateLadder`, the outputs are exactly the well-formed ladders. |
| `Paths.Shift` | sadari.py:48-53 | Crossing a row raises exactly when the column is beyond the row's end or more negative than its length. A rung on the left moves the walker left even when there is also one on the right; otherwise a rung on the right moves it right; otherwise it stays. A negative column reads the cell Python's wrap-around selects and can only move right. The column moves by at most one and, from inside the row, stays inside. |
| `Paths.SimulatePath` | sadari.py:37-56 | A returned path starts at the start column at height 0; the rest of the trace is stated by `Paths.PathEnds`, `Paths.PathLength`, `Paths.PathMoves`, `Paths.PathFollowsRows` and `Paths.PathInBounds`. |
| `Paths.WalkEnds` | sadari.py:45-55 | The walk succeeds exactly when crossing the rows one at a time does, and its last waypoint is the column so reached at the bottom of the last row. |
| `Paths.WalkLength` | sadari.py:45-55 | The walk appends two waypoints per row plus one per row whose rung moves the walker. |
| `Paths.WalkMoves` | sadari.py:45-55 | Each step of the walk goes half a row down in the same column, or at rung height one column sideways. |
| `Paths.WalkInBounds` | sadari.py:45-55 | From a column inside a ladder of uniform width `n - 1`, the walk never raises and every waypoint is on one of the `n` columns, within the rows walked. |
| `Paths.WalkFails` | sadari.py:48-53 | A walk that raises does so at the first row it cannot cross: the rows above are crossed and lead to the reported column, which that row cannot index. |
| `Paths.PathFails` | sadari.py:48-51 | When `simulate_path` raises at row `r` from column `c`, the rows above `r` lead from the start to `c`, and `c` exceeds row `r`'s length or is below minus that length. |
| `Paths.PathEnds` | sadari.py:42-56 | The path exists exactly when every row can be crossed; it starts at `(start, 0)` and ends at the column reached, at height `len(ladder)`. |
| `Paths.PathLength` | sadari.py:44-55 | The path has `1 + 2R + t` waypoints, `t` the number of rows whose rung moved the walker, hence at most `1 + 3R`. |
| `Paths.TurnsBound` | sadari.py:48-53 | The walker turns at most once per row. |
| `Paths.PathMoves` | sadari.py:46-55 | Between consecutive waypoints the column changes by at most one and the height never decreases; a column change happens only at mid-row height. |
| `Paths.PathInBounds` | sadari.py:42-53 | If `0 <= start < n` and every row has `n - 1` cells, the path exists and every waypoint's column lies in `[0, n - 1]` and its height in `[0, len(ladder)]`. |
| `Paths.WalkFollowsRows` | sadari.py:45-55 | Every waypoint of the walk lies on the track the rows dictate: at a row boundary in the column reached so far, at rung height in the column before or after crossing that row. |
| `Paths.PathFollowsRows` | sadari.py:44-55 | Every waypoint at the top or bottom of row `k` is in the column reached by crossing the first `k` rows, and every mid-row waypoint is in the column before or after crossing row `k`; with `PathMoves` and `PathLength` this fixes the whole trace. |
| `Paths.FinalColumnIsDescend` | sadari.py:45-56 | The column of the last waypoint is the column reached by crossing every row in turn. |
| `Outcomes.ShiftIsTransposition` | sadari.py:48-53 | In a rule-abiding row, a rung at `j` sends `j` to `j + 1` and `j + 1` to `j`, a column touching no rung stays, and the left and right checks never both fire. |
| `Outcomes.ShiftInvolution` | sadari.py:48-53 | Crossing a rule-abiding row twice returns to the start column. |
| `Outcomes.DescendInRange` | sadari.py:45-53 | From one of `n` columns, crossing rows of `n - 1` cells each succeeds and ends on one of the `n` columns; the rung rule is not needed. |
| `Outcomes.ReverseUndoesDescend` | sadari.py:45-56 | Walking a well-formed ladder's rows bottom to top leads from a participant's final column back to their start column. |
| `Outcomes.OutcomeIsPermutation` | sadari.py:45-56 | On a well-formed ladder, start column to final column maps the `n` columns into themselves, and the bottom-up walk is its two-sided inverse: the mapping is a permutation. |
| `Outcomes.FinalColumnsDistinct` | sadari.py:37-56 | On a well-formed ladder, two different start columns end in different columns. |
| `Outcomes.AdjacentRungsBreakPermutation` | sadari.py:31 | Without the skip rule the mapping is not a permutation: in row `[True, True]` columns 0 and 2 both end in column 1, and column 1, checking its left rung first, ends in column 0. |
| `Outcomes.ThreeColumnScenario` | sadari.py:45-56 | With rows `[True, False]`, `[False, True]`, columns 0, 1 and 2 end in 2, 0 and 1. |
| `Outcomes.TwoColumnSwap` | sadari.py:44-55 | With two columns and one row, a rung swaps the two walkers through a sideways waypoint at mid-row; an empty row leaves both in place. |

## Left out

- `draw_columns` and `draw_ladder` (sadari.py:6-17, 58-78) are matplotlib rendering with no algorithmic content.
- `main` (sadari.py:80-133) is left out. It covers Streamlit input and layout, the `time.sleep` animation, result strings and the 1-based display `path[-1][0] + 1`. Its choice of `n_rows` in `10..20` is not needed by any property.
- The probability distribution of `random.choice` and `random.randint` is not modelled. The coin outcomes are an explicit parameter, and no claim about the distribution of ladders is made.
- Floating-point heights are replaced by integer half-rows.
- Row cells are booleans. The source's truthiness of arbitrary list elements is not modelled.
- Determinism of `simulate_path` holds because every member is a pure function, so it needs no lemma.
- Argument validation is left out because `sadari.py` performs none: nothing checks `n_people`, `n_rows`, `start` or the row widths. The only error it can raise is Python's `IndexError`, when the column is greater than the row's length or less than minus that length (`Paths.Shift`, `Paths.PathFails`). The model follows the code.
- `Paths.PathLength` proves the path length is `1 + 2R + t`, with `t` the number of rows whose rung moves the walker, hence at most `1 + 3R`; no model member promises a fixed length.
