# pybacktest signal-to-trade logic, in Dafny

A model of the part of pybacktest (`pybacktest/parts.py`) that turns trading
signals into positions and positions into realised profit and loss:

- **Position resolver** (`positions.dfy`, module `Positions`). Four aligned
  signal columns (long enter, long exit, short enter, short exit) are scanned
  left to right carrying one signed position. At each bar an exit closes the
  position only if it is on the held side (long exit while long, short exit
  while short). Then, only if the position is flat, it opens at
  `long_enter - short_enter`. The scan is an imperative method over an array
  buffer and a one-element mutable cell, proved against the recursive
  specification `PosAfter`/`PositionSeries`. `SignalsToPositions` seeds the scan
  with the initial position and keeps only the bars whose position differs
  from the previous bar's.
- **Equity deriver** (`equity.dfy`, module `Equity`). From a trades table
  (volume, price, position) it marks close points, the bars where the sign of
  the position changes (bar 0 always is one). At each close point it takes
  `cumsum(vol*price) - pos*price`, differences consecutive close points, spreads
  the result over all bars with 0 elsewhere and negates it. The pipeline is
  written exactly as the source composes it. A bar-by-bar reference definition
  (close points, previous close point, cash flow less mark) is proved to agree
  with it, and the series is proved to telescope.
- **Series primitives** (`series.dfy`, module `Series`). The pandas operations
  the two components are built from: labelling a dense series with its bars,
  `x != x.shift()`, boolean masking, `diff`, `cumsum`,
  `reindex(...).fillna(0)`, and the masked negation. A series is a sequence of
  `Entry(bar, value)`. NaN from `shift` is "no predecessor", which compares
  unequal to everything. NaN from `diff` is `None`, which `fillna` turns into 0.

The code does not check that the four signal columns have equal length, so
alignment is a precondition (`Aligned()`) rather than an error path.

## Model

| member | source | states |
|---|---|---|
| `Positions.SignalsToPositionsLoop` | pybacktest/parts.py:13-21 | the scan writes one position per bar into the buffer, equal to the specification `PositionSeries` seeded by the cell's old value. The cell ends holding the carried position, which is the last value written. Nothing else in the cell or buffer changes |
| `Positions.ExitApplies` | pybacktest/parts.py:17-18 | the exit condition `close_long or close_short`; what it decides is stated by `ExitTakesPriority`, `ShortExitIgnoredUnlessShort` and `LongExitIgnoredUnlessLong` |
| `Positions.Step` | pybacktest/parts.py:17-20 | one bar of the scan (exit, then entry only when flat); its rules are stated by `ExitTakesPriority`, `EntryWhenFlat` and `NoAddingToPosition` |
| `Positions.PosAfter` | pybacktest/parts.py:16-21 | the value of the cell `pos[0]` after n bars; `SignalsToPositionsLoop` ends with the cell equal to it, and `QuietHoldsInit` shows it seeded by `init_pos` |
| `Positions.PositionSeries` | pybacktest/parts.py:16-21 | the position series has exactly one value per signal bar; its contents are pinned by `PositionsAt` |
| `Positions.PositionsAt` | pybacktest/parts.py:17-21 | bar i's output is one step from bar i-1's output; at bar 0 the step starts from the initial position, not from 0 |
| `Positions.ExitTakesPriority` | pybacktest/parts.py:17-20 | if an exit applies (long exit while long, short exit while short), the position is flattened before entry is evaluated, so the output is that bar's net entry |
| `Positions.EntryWhenFlat` | pybacktest/parts.py:20 | when flat, the output is `long_enter - short_enter`; equal simultaneous entries net to flat |
| `Positions.NoAddingToPosition` | pybacktest/parts.py:19-20 | when a position is held and no applicable exit fires, the output equals the held position |
| `Positions.ShortExitIgnoredUnlessShort` | pybacktest/parts.py:18-19 | a short-exit signal at a bar where the carried position is long or flat leaves the whole output unchanged, whatever its value |
| `Positions.LongExitIgnoredUnlessLong` | pybacktest/parts.py:17-19 | a long-exit signal at a bar where the carried position is short or flat leaves the whole output unchanged, whatever its value |
| `Positions.EntriesIgnoredWhileHolding` | pybacktest/parts.py:19-20 | replacing the entry signals at a bar where a position is held and no exit applies leaves the whole output unchanged (no pyramiding) |
| `Positions.QuietHoldsInit` | pybacktest/parts.py:34 | with no signals, the carried position stays at the initial position through every bar |
| `Positions.QuietPositions` | pybacktest/parts.py:43-46 | with no signals anywhere, every output bar equals the initial position |
| `Positions.SignalsToPositions` | pybacktest/parts.py:34-47 | the result is the scan's position series seeded with `init_pos` and compacted to its change points |
| `Positions.CompactedPositionsMembers` | pybacktest/parts.py:47 | bar i with value v is kept iff v is bar i's position and i is bar 0 or its position differs from bar i-1's |
| `Positions.CompactedPositionsShape` | pybacktest/parts.py:47 | kept bars come out in increasing order, bar 0 first, and no two consecutive kept entries have equal positions |
| `Positions.CompactedPositionsStable` | pybacktest/parts.py:47 | compacting the compacted positions again changes nothing |
| `Positions.ScenarioSingleEntry` | pybacktest/parts.py:13-47 | a single long entry at bar 0 gives `[1,1,1,1,1]`, compacted to bar 0 alone |
| `Positions.ScenarioEnterThenExit` | pybacktest/parts.py:13-47 | long entry at bar 0 and long exit at bar 2 give `[1,1,0,0,0]`, compacted to (0, 1) and (2, 0) |
| `Positions.ScenarioSimultaneousEntries` | pybacktest/parts.py:20 | a long and a short entry of one unit on the same flat bar net to 0 |
| `Series.ShiftDiffers` | pybacktest/parts.py:47 | `x != x.shift()` (also used for the close points at line 65); characterised by `ShiftDiffersAt` |
| `Series.MaskedPrefix` | pybacktest/parts.py:47 | boolean indexing over the first n bars; characterised by `MaskedMember`, `MaskedIncreasing`, `MaskedPrefixGrows`, `MaskedLast` and `MaskedAll` |
| `Series.Masked` | pybacktest/parts.py:66-67 | boolean indexing `x[mask]` of a whole series (also line 47); characterised through `MaskedPrefix` and by `MaskedAt` |
| `Series.Compact` | pybacktest/parts.py:47 | `x[x != x.shift()]`; characterised by `CompactIndexedMembers`, `CompactNoRepeats` and `CompactIdempotent` |
| `Series.Diff` | pybacktest/parts.py:68 | `diff()`, with NaN for the first entry; characterised by `MaskedDiffIncreasing`, `DenseDiffOffMask` and `DenseDiffAtMask` |
| `Series.Fill` | pybacktest/parts.py:69 | `fillna(0)` on one value; used by `LookupFinds` |
| `Series.Lookup` | pybacktest/parts.py:69 | the reindexed, NaN-filled value at one bar; characterised by `LookupFinds` and `LookupMisses` |
| `Series.Reindex` | pybacktest/parts.py:69 | `reindex(axis).fillna(0)`; characterised by `DenseDiffOffMask` and `DenseDiffAtMask` |
| `Series.CumSum` | pybacktest/parts.py:66 | `cumsum()`; characterised by `CumSumSteps` |
| `Series.MaskedMember` | pybacktest/parts.py:47 | in a dense series, bar i survives boolean indexing, with its own value, exactly when its mask is true |
| `Series.ShiftDiffersAt` | pybacktest/parts.py:47 | `x != x.shift()` is true at bar 0 (no predecessor) and exactly where the value changes |
| `Series.CompactIndexedMembers` | pybacktest/parts.py:47 | compacting a dense series keeps bar i with its value exactly when i is bar 0 or its value differs from bar i-1's |
| `Series.MaskedIncreasing` | pybacktest/parts.py:66-67 | boolean indexing keeps the order of the labels |
| `Series.MaskedPrefixGrows` | pybacktest/parts.py:47 | masking more of the series only appends entries |
| `Series.MaskedLast` | pybacktest/parts.py:66-67 | when bar 0 is kept, the last entry kept from the first n bars is the one at the last true mask position below n |
| `Series.MaskedAll` | pybacktest/parts.py:47 | a mask that is true everywhere keeps the series unchanged |
| `Series.LastTrue` | pybacktest/parts.py:65-68 | the result is the greatest mask position below n that is true |
| `Series.CompactPrefixShape` | pybacktest/parts.py:47 | after compacting a prefix, the last survivor carries the prefix's last value, and no two neighbours are equal |
| `Series.CompactNoRepeats` | pybacktest/parts.py:47 | `x[x != x.shift()]` has no two neighbouring equal values and starts with x's first entry |
| `Series.CompactFixesNoRepeats` | pybacktest/parts.py:47 | a series with no repeated neighbours is its own compaction |
| `Series.CompactIdempotent` | pybacktest/parts.py:47 | compaction applied twice equals compaction applied once |
| `Series.CumSumSteps` | pybacktest/parts.py:66 | `cumsum` starts at the first value and adds one value per bar |
| `Series.LookupFinds` | pybacktest/parts.py:69 | with unique increasing labels, reindexing reads an entry's own value, with NaN filled as 0 |
| `Series.LookupMisses` | pybacktest/parts.py:69 | a bar that no entry carries is filled with 0 |
| `Series.NegateNonzero` | pybacktest/parts.py:70 | negating only the nonzero values is the same as negating every value |
| `Series.MaskedDiffIncreasing` | pybacktest/parts.py:66-68 | differencing a masked series keeps its increasing labels |
| `Series.MaskedAt` | pybacktest/parts.py:66-67 | a masked bar i becomes entry k of the masked series, with k = 0 iff i = 0. For i > 0, entry k-1 is the previous masked bar |
| `Series.DenseDiffOffMask` | pybacktest/parts.py:66-69 | masking, differencing and spreading back gives 0 at every unmasked bar |
| `Series.DenseDiffAtMask` | pybacktest/parts.py:66-69 | masking, differencing and spreading back gives 0 at bar 0. At a later masked bar it gives the value there minus the value at the previous masked bar |
| `Equity.Sign` | pybacktest/parts.py:56-62 | `_cmp_fn` returns -1, 0 or 1, positive exactly for positive input and negative exactly for negative input |
| `Equity.Signs` | pybacktest/parts.py:64 | `trd.pos.apply(_cmp_fn)`; characterised through `Sign` and `ClosePointsAre` |
| `Equity.ClosePoints` | pybacktest/parts.py:65 | `psig != psig.shift()`; characterised by `ClosePointsAre` |
| `Equity.Flow` | pybacktest/parts.py:66 | `trd.vol * trd.price`; its running sum is characterised by `CumSumThrough` |
| `Equity.RawEquity` | pybacktest/parts.py:66-67 | `cumsum(vol*price) - pos*price` at every bar; characterised by `RawEquityIs` |
| `Equity.IsClosePoint` | pybacktest/parts.py:64-65 | reference definition of a close point (bar 0, or a change of position sign); `ClosePointsAre` ties the mask to it |
| `Equity.CashFlowThrough` | pybacktest/parts.py:66 | reference definition of the cash flow over bars 0..i; `CumSumThrough` ties `cumsum` to it |
| `Equity.FlowLessMark` | pybacktest/parts.py:66-67 | reference definition of cash flow less the mark value `pos*price`; `RawEquityIs` ties the raw equity to it |
| `Equity.RealizedAt` | pybacktest/parts.py:64-70 | reference definition of the equity at one bar; `EquityAt` proves the pipeline equals it at every bar |
| `Equity.ClosePointsAre` | pybacktest/parts.py:64-65 | the close-point mask marks bar 0 and exactly the bars whose position sign differs from the previous bar's |
| `Equity.LastClosePoint` | pybacktest/parts.py:65-68 | the result is the most recent close point before bar j |
| `Equity.CumSumThrough` | pybacktest/parts.py:66 | `cumsum(vol*price)` at bar i is the cash flow over bars 0..i |
| `Equity.RawEquityIs` | pybacktest/parts.py:66-67 | the raw equity at bar i is the cash flow through bar i minus the position's mark value `pos*price` at bar i |
| `Equity.TradesToEquity` | pybacktest/parts.py:51-71 | the equity series has exactly one value per trades row |
| `Equity.EquityAt` | pybacktest/parts.py:64-70 | equity equals the reference `RealizedAt` at every bar: it is 0 at every non-close-point bar and at bar 0, the first close point. At a later close point c it is `-((cumflow[c] - pos[c]*price[c]) - (cumflow[c'] - pos[c']*price[c']))`, where c' is the previous close point |
| `Equity.RealizedTelescopes` | pybacktest/parts.py:66-70 | any series agreeing with `RealizedAt` on bars 0..j-1 sums over them to cash flow less mark at bar 0 minus the same at the last close point before j |
| `Equity.EquityTelescopes` | pybacktest/parts.py:66-70 | the equity summed over bars 0..j-1 equals cash flow less mark at bar 0 minus the same at the last close point before j |
| `Equity.EquityTotal` | pybacktest/parts.py:66-70 | the whole equity series sums to cash flow less mark at bar 0 minus the same at the last close point, so nothing is counted twice |
| `Equity.ScenarioRoundTrip` | pybacktest/parts.py:51-71 | vol `[10,-10]`, price `[100,110]`, pos `[10,0]` gives equity `[0,100]` |

## Left out

- The numba `guvectorize` acceleration of the scan (pybacktest/parts.py:23-31) is left out. It compiles the same loop and has no logic of its own.
- Fixed-width integers are not modelled. The numba signatures (`int32`/`int64`) can wrap `long_enter - short_enter` in the scan, and `vol*price` in `trades_to_equity` wraps when the trades columns are `int64`. The model uses unbounded integers.
- Prices and the cumulative sum are exact integers (for example, price ticks). Floating-point rounding is not modelled. The position buffer is `float64` in the source (`pandas.Series(0., ...)`); it is an integer array in the model.
- pandas index labels (timestamps) become bar numbers 0..N-1. `reindex` on duplicate labels cannot arise.
- The `mask` argument of `signals_to_positions` names the four columns of the signal DataFrame. The model's `SignalFrame` holds the already-selected columns.
- Signals are integers. A Python truth test of a signal (`pos[0] > 0 and long_exit[i]`) is modelled as "the signal is nonzero".
- `Equity.TradesToEquity` masks the difference `cumsum(vol*price) - pos*price`. The source masks the two series separately and subtracts them by label. Both are masked by the same mask, so they share labels.
- `extract_frame` (pybacktest/parts.py:74-84) is DataFrame glue driven by run-time type checks on a foreign object. It is not part of this model.
- `Slicer` (pybacktest/parts.py:87-93) is an adapter with no logic of its own. It is not part of this model.
- `Positions.SignalsToPositionsLoop` requires the four signal columns to have equal length, and requires the cell and the buffer to be distinct arrays. The source does not check alignment. Its only caller passes a fresh one-element list and a fresh buffer.
