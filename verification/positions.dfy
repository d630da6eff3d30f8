/**
 The position resolver of pybacktest/parts.py: a left-to-right scan over four
 aligned signal columns (long enter, long exit, short enter, short exit) that
 carries one signed position from bar to bar, followed by change-point
 compaction of the resulting position series.

 Positive positions are long, negative ones short, zero is flat. A signal is
 "on" when it is nonzero; entry signals are quantities.
 */
module Positions {
  import opened Series

  /** The four signal columns, one value per bar. */
  datatype SignalFrame = SignalFrame(
    longEnter: seq<int>, longExit: seq<int>, shortEnter: seq<int>, shortExit: seq<int>)
  {
    /** The columns share one time axis. */
    predicate Aligned()
    {
      |longExit| == |longEnter| && |shortEnter| == |longEnter| && |shortExit| == |longEnter|
    }

    function Len(): nat
    {
      |longEnter|
    }
  }

  /** The exit step closes the position: a long with long exit on, or a short with short exit on. */
  predicate ExitApplies(pos: int, longExit: int, shortExit: int)
  {
    (pos > 0 && longExit != 0) || (pos < 0 && shortExit != 0)
  }

  /** One bar of the scan: exits first, then, only when flat, entry at the net entry signal. */
  function Step(pos: int, longEnter: int, longExit: int, shortEnter: int, shortExit: int): int
  {
    var afterExit := if ExitApplies(pos, longExit, shortExit) then 0 else pos;
    if afterExit == 0 then longEnter - shortEnter else afterExit
  }

  /** The scan's step at bar i of a frame. */
  function StepAt(sig: SignalFrame, pos: int, i: nat): int
    requires sig.Aligned() && i < sig.Len()
  {
    Step(pos, sig.longEnter[i], sig.longExit[i], sig.shortEnter[i], sig.shortExit[i])
  }

  /** The position carried after the first n bars, starting from `init`. */
  function PosAfter(sig: SignalFrame, init: int, n: nat): int
    requires sig.Aligned() && n <= sig.Len()
    decreases n
  {
    if n == 0 then init else StepAt(sig, PosAfter(sig, init, n - 1), n - 1)
  }

  /** The uncompacted position series: bar i holds the position after bar i. */
  function PositionSeries(sig: SignalFrame, init: int): (ps: seq<int>)
    requires sig.Aligned()
    ensures |ps| == sig.Len()
  {
    seq(sig.Len(), i requires 0 <= i < sig.Len() => PosAfter(sig, init, i + 1))
  }

  /**
   The scan itself. `pos[0]` is the mutable cell that carries the position in and
   out; `result` is the buffer the positions are written into.
   */
  method SignalsToPositionsLoop(sig: SignalFrame, pos: array<int>, result: array<int>)
    requires sig.Aligned() && pos.Length >= 1 && result.Length >= sig.Len()
    requires pos != result
    modifies pos, result
    ensures result[..sig.Len()] == PositionSeries(sig, old(pos[0]))
    ensures forall k :: sig.Len() <= k < result.Length ==> result[k] == old(result[k])
    ensures pos[0] == PosAfter(sig, old(pos[0]), sig.Len())
    ensures sig.Len() > 0 ==> pos[0] == result[sig.Len() - 1]
    ensures forall k :: 1 <= k < pos.Length ==> pos[k] == old(pos[k])
  {
    ghost var init := pos[0];
    for i := 0 to sig.Len()
      invariant pos[0] == PosAfter(sig, init, i)
      invariant forall k :: 0 <= k < i ==> result[k] == PosAfter(sig, init, k + 1)
      invariant forall k :: 1 <= k < pos.Length ==> pos[k] == old(pos[k])
      invariant forall k :: sig.Len() <= k < result.Length ==> result[k] == old(result[k])
    {
      var closeLong := pos[0] > 0 && sig.longExit[i] != 0;
      var closeShort := pos[0] < 0 && sig.shortExit[i] != 0;
      pos[0] := if closeLong || closeShort then 0 else pos[0];
      pos[0] := if pos[0] == 0 then sig.longEnter[i] - sig.shortEnter[i] else pos[0];
      result[i] := pos[0];
    }
  }

  /**
   Seeds the scan with `initPos`, runs it into a fresh zero-filled buffer and
   keeps only the bars whose position differs from the previous bar's.
   */
  method SignalsToPositions(sig: SignalFrame, initPos: int := 0) returns (changes: seq<Entry<int>>)
    requires sig.Aligned()
    ensures changes == Compact(Indexed(PositionSeries(sig, initPos)))
  {
    var ps := new int[sig.Len()](_ => 0);
    var cell := new int[1](_ => initPos);
    SignalsToPositionsLoop(sig, cell, ps);
    assert ps[..] == ps[..sig.Len()];
    changes := Compact(Indexed(ps[..]));
  }

  // ---------------------------------------------------------------------------
  // The transition rules, stated over the whole scan

  /** Bar i's output is the step from the previous bar's output, or from `init` at bar 0. */
  lemma PositionsAt(sig: SignalFrame, init: int, i: nat)
    requires sig.Aligned() && i < sig.Len()
    ensures PositionSeries(sig, init)[i] == StepAt(sig, if i == 0 then init else PositionSeries(sig, init)[i - 1], i)
  {
    assert PositionSeries(sig, init)[i] == PosAfter(sig, init, i + 1);
    if i > 0 {
      assert PositionSeries(sig, init)[i - 1] == PosAfter(sig, init, i);
    }
  }

  /** An exit that applies flattens first, so the output is the net entry of the same bar. */
  lemma ExitTakesPriority(sig: SignalFrame, init: int, i: nat)
    requires sig.Aligned() && i < sig.Len()
    requires ExitApplies(PosAfter(sig, init, i), sig.longExit[i], sig.shortExit[i])
    ensures PositionSeries(sig, init)[i] == sig.longEnter[i] - sig.shortEnter[i]
  {
  }

  /** While flat, the output is the net entry: equal long and short entries cancel to flat. */
  lemma EntryWhenFlat(sig: SignalFrame, init: int, i: nat)
    requires sig.Aligned() && i < sig.Len()
    requires PosAfter(sig, init, i) == 0
    ensures PositionSeries(sig, init)[i] == sig.longEnter[i] - sig.shortEnter[i]
    ensures sig.longEnter[i] == sig.shortEnter[i] ==> PositionSeries(sig, init)[i] == 0
  {
  }

  /** Holding a position with no applicable exit, the output is that position whatever the entries say. */
  lemma NoAddingToPosition(sig: SignalFrame, init: int, i: nat)
    requires sig.Aligned() && i < sig.Len()
    requires PosAfter(sig, init, i) != 0
    requires !ExitApplies(PosAfter(sig, init, i), sig.longExit[i], sig.shortExit[i])
    ensures PositionSeries(sig, init)[i] == PosAfter(sig, init, i)
  {
  }

  /** Two frames whose steps agree on the first n bars carry the same position through them. */
  lemma {:induction false} SameSteps(sig: SignalFrame, sig': SignalFrame, init: int, n: nat)
    requires sig.Aligned() && sig'.Aligned() && sig.Len() == sig'.Len() && n <= sig.Len()
    requires forall k :: 0 <= k < n ==> StepAt(sig', PosAfter(sig, init, k), k) == StepAt(sig, PosAfter(sig, init, k), k)
    ensures forall k :: 0 <= k <= n ==> PosAfter(sig', init, k) == PosAfter(sig, init, k)
  {
    if n > 0 {
      SameSteps(sig, sig', init, n - 1);
      assert PosAfter(sig', init, n) == StepAt(sig', PosAfter(sig', init, n - 1), n - 1);
    }
  }

  /**
   A short-exit signal at a bar where the carried position is not short (long or
   flat) changes nothing anywhere in the output.
   */
  lemma ShortExitIgnoredUnlessShort(sig: SignalFrame, init: int, i: nat, x: int)
    requires sig.Aligned() && i < sig.Len()
    requires PosAfter(sig, init, i) >= 0
    ensures PositionSeries(sig.(shortExit := sig.shortExit[i := x]), init) == PositionSeries(sig, init)
  {
    var sig' := sig.(shortExit := sig.shortExit[i := x]);
    SameSteps(sig, sig', init, sig.Len());
  }

  /**
   A long-exit signal at a bar where the carried position is not long (short or
   flat) changes nothing anywhere in the output.
   */
  lemma LongExitIgnoredUnlessLong(sig: SignalFrame, init: int, i: nat, x: int)
    requires sig.Aligned() && i < sig.Len()
    requires PosAfter(sig, init, i) <= 0
    ensures PositionSeries(sig.(longExit := sig.longExit[i := x]), init) == PositionSeries(sig, init)
  {
    var sig' := sig.(longExit := sig.longExit[i := x]);
    SameSteps(sig, sig', init, sig.Len());
  }

  /**
   Entry signals at a bar where a position is held and no exit applies change
   nothing anywhere in the output: a position is never added to.
   */
  lemma EntriesIgnoredWhileHolding(sig: SignalFrame, init: int, i: nat, le: int, se: int)
    requires sig.Aligned() && i < sig.Len()
    requires PosAfter(sig, init, i) != 0
    requires !ExitApplies(PosAfter(sig, init, i), sig.longExit[i], sig.shortExit[i])
    ensures PositionSeries(sig.(longEnter := sig.longEnter[i := le], shortEnter := sig.shortEnter[i := se]), init)
         == PositionSeries(sig, init)
  {
    var sig' := sig.(longEnter := sig.longEnter[i := le], shortEnter := sig.shortEnter[i := se]);
    SameSteps(sig, sig', init, sig.Len());
  }

  /** A frame with no signal anywhere. */
  ghost predicate Quiet(sig: SignalFrame)
    requires sig.Aligned()
  {
    forall i :: 0 <= i < sig.Len() ==>
      sig.longEnter[i] == 0 && sig.longExit[i] == 0 && sig.shortEnter[i] == 0 && sig.shortExit[i] == 0
  }

  /** The first bar is seeded by `init`: with no signals at all, every bar holds `init`. */
  lemma {:induction false} QuietHoldsInit(sig: SignalFrame, init: int, n: nat)
    requires sig.Aligned() && Quiet(sig) && n <= sig.Len()
    ensures PosAfter(sig, init, n) == init
  {
    if n > 0 {
      QuietHoldsInit(sig, init, n - 1);
    }
  }

  /** With no signals at all, the position series is `init` at every bar. */
  lemma QuietPositions(sig: SignalFrame, init: int)
    requires sig.Aligned() && Quiet(sig)
    ensures forall i :: 0 <= i < sig.Len() ==> PositionSeries(sig, init)[i] == init
  {
    forall i | 0 <= i < sig.Len()
      ensures PositionSeries(sig, init)[i] == init
    {
      QuietHoldsInit(sig, init, i + 1);
    }
  }

  // ---------------------------------------------------------------------------
  // The compacted output

  /**
   The compacted positions hold bar i with its position exactly when i is bar 0
   or its position differs from bar i-1's.
   */
  lemma CompactedPositionsMembers(sig: SignalFrame, init: int)
    requires sig.Aligned()
    ensures var ps := PositionSeries(sig, init);
      forall i: nat, v :: Entry(i, v) in Compact(Indexed(ps)) <==> i < |ps| && v == ps[i] && (i == 0 || ps[i] != ps[i - 1])
  {
    CompactIndexedMembers(PositionSeries(sig, init));
  }

  /**
   The compacted positions come out in increasing bar order, bar 0 first, and no
   two neighbours hold the same position.
   */
  lemma CompactedPositionsShape(sig: SignalFrame, init: int)
    requires sig.Aligned()
    ensures var ps := PositionSeries(sig, init);
      var out := Compact(Indexed(ps));
      && Increasing(out)
      && NoRepeats(out)
      && (|ps| > 0 ==> |out| > 0 && out[0] == Entry(0, ps[0]))
  {
    var xs := Indexed(PositionSeries(sig, init));
    MaskedIncreasing(xs, ShiftDiffers(xs), |xs|);
    CompactNoRepeats(xs);
  }

  /** Compacting the compacted positions again changes nothing. */
  lemma CompactedPositionsStable(sig: SignalFrame, init: int)
    requires sig.Aligned()
    ensures var out := Compact(Indexed(PositionSeries(sig, init)));
      Compact(out) == out
  {
    CompactIdempotent(Indexed(PositionSeries(sig, init)));
  }

  // ---------------------------------------------------------------------------
  // Worked scenarios

  /** One long entry at bar 0, nothing else: long throughout, compacted to bar 0 alone. */
  lemma ScenarioSingleEntry()
    ensures var sig := SignalFrame([1, 0, 0, 0, 0], [0, 0, 0, 0, 0], [0, 0, 0, 0, 0], [0, 0, 0, 0, 0]);
      PositionSeries(sig, 0) == [1, 1, 1, 1, 1] && Compact(Indexed(PositionSeries(sig, 0))) == [Entry(0, 1)]
  {
  }

  /** Long entry at bar 0, long exit at bar 2: compacted to (0, 1) and (2, 0). */
  lemma ScenarioEnterThenExit()
    ensures var sig := SignalFrame([1, 0, 0, 0, 0], [0, 0, 1, 0, 0], [0, 0, 0, 0, 0], [0, 0, 0, 0, 0]);
      PositionSeries(sig, 0) == [1, 1, 0, 0, 0] && Compact(Indexed(PositionSeries(sig, 0))) == [Entry(0, 1), Entry(2, 0)]
  {
  }

  /** Simultaneous long and short entries of one unit while flat net to flat. */
  lemma ScenarioSimultaneousEntries()
    ensures PositionSeries(SignalFrame([1], [0], [1], [0]), 0) == [0]
  {
  }
}
