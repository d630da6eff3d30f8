/**
 The equity deriver of pybacktest/parts.py: from a trades table (volume, price
 and resulting position per bar) it derives the profit or loss realised at each
 bar where the sign of the position changes (a close point), as the change in
 "cumulative cash flow minus mark value" since the previous close point, with
 the sign inverted.

 Prices are exact integers (say, ticks); volumes and positions are integers.
 */
module Equity {
  import opened Series

  /** The trades table, one row per bar. */
  datatype Trades = Trades(vol: seq<int>, price: seq<int>, pos: seq<int>)
  {
    /** The columns share one time axis. */
    predicate Aligned()
    {
      |price| == |vol| && |pos| == |vol|
    }

    function Len(): nat
    {
      |vol|
    }
  }

  /** The sign of a position: 1 long, -1 short, 0 flat. */
  function Sign(x: int): (r: int)
    ensures r == -1 || r == 0 || r == 1
    ensures (r > 0 <==> x > 0) && (r < 0 <==> x < 0)
  {
    if x > 0 then 1
    else if x < 0 then -1
    else 0
  }

  /** `pos.apply(sign)`. */
  function Signs(t: Trades): seq<int>
  {
    seq(|t.pos|, i requires 0 <= i < |t.pos| => Sign(t.pos[i]))
  }

  /** `psig != psig.shift()`: the close-point mask. */
  function ClosePoints(t: Trades): seq<bool>
  {
    ShiftDiffers(Indexed(Signs(t)))
  }

  /** `vol * price`: the cash that changes hands at each bar. */
  function Flow(t: Trades): seq<int>
    requires t.Aligned()
  {
    seq(t.Len(), i requires 0 <= i < t.Len() => t.vol[i] * t.price[i])
  }

  /** `cumsum(vol * price) - pos * price`, at every bar. */
  function RawEquity(t: Trades): seq<int>
    requires t.Aligned()
  {
    var cum := CumSum(Flow(t));
    seq(t.Len(), i requires 0 <= i < t.Len() => cum[i] - t.pos[i] * t.price[i])
  }

  /**
   `trades_to_equity`: the raw equity at the close points, differenced from one
   close point to the next, spread back over every bar with 0 elsewhere (and at
   the first close point, which has nothing to be differenced against), then
   negated where nonzero.
   */
  function TradesToEquity(t: Trades): (e: seq<int>)
    requires t.Aligned()
    ensures |e| == t.Len()
  {
    var atClose := Masked(Indexed(RawEquity(t)), ClosePoints(t));
    NegateNonzero(Reindex(Diff(atClose), t.Len()))
  }

  // ---------------------------------------------------------------------------
  // A reference definition, bar by bar

  /** Bar i is a close point: it is bar 0, or its position's sign differs from bar i-1's. */
  predicate IsClosePoint(t: Trades, i: nat)
    requires i < |t.pos|
  {
    i == 0 || Sign(t.pos[i]) != Sign(t.pos[i - 1])
  }

  /** The most recent close point before bar j (bar 0 is one, so it exists for j > 0). */
  function LastClosePoint(t: Trades, j: nat): (c: nat)
    requires 0 < j <= |t.pos|
    ensures c < j && IsClosePoint(t, c)
    ensures forall k :: c < k < j ==> !IsClosePoint(t, k)
    decreases j
  {
    if IsClosePoint(t, j - 1) then j - 1 else LastClosePoint(t, j - 1)
  }

  /** Cash that has changed hands over bars 0..i. */
  function CashFlowThrough(t: Trades, i: nat): int
    requires t.Aligned() && i < t.Len()
  {
    if i == 0 then t.vol[0] * t.price[0]
    else CashFlowThrough(t, i - 1) + t.vol[i] * t.price[i]
  }

  /** Cash flow through bar i less the mark value of the position held at bar i. */
  function FlowLessMark(t: Trades, i: nat): int
    requires t.Aligned() && i < t.Len()
  {
    CashFlowThrough(t, i) - t.pos[i] * t.price[i]
  }

  /**
   The profit or loss realised at bar i: at a close point after bar 0, minus the
   change in cash flow less mark since the previous close point; 0 elsewhere.
   */
  function RealizedAt(t: Trades, i: nat): int
    requires t.Aligned() && i < t.Len()
  {
    if i > 0 && IsClosePoint(t, i) then -(FlowLessMark(t, i) - FlowLessMark(t, LastClosePoint(t, i)))
    else 0
  }

  // ---------------------------------------------------------------------------
  // The pipeline agrees with the reference

  /** The close-point mask marks exactly the close points; bar 0 always is one. */
  lemma ClosePointsAre(t: Trades)
    ensures |ClosePoints(t)| == |t.pos|
    ensures forall i :: 0 <= i < |t.pos| ==> ClosePoints(t)[i] == IsClosePoint(t, i)
    ensures |t.pos| > 0 ==> ClosePoints(t)[0]
  {
    var xs := Indexed(Signs(t));
    assert |xs| == |t.pos|;
    forall i | 0 <= i < |t.pos|
      ensures ClosePoints(t)[i] == IsClosePoint(t, i)
    {
      assert xs[i].value == Sign(t.pos[i]);
      if i > 0 {
        assert xs[i - 1].value == Sign(t.pos[i - 1]);
      }
    }
  }

  /** The raw equity at bar i is cash flow through bar i less the mark at bar i. */
  lemma {:induction false} RawEquityIs(t: Trades, i: nat)
    requires t.Aligned() && i < t.Len()
    ensures RawEquity(t)[i] == FlowLessMark(t, i)
  {
    CumSumThrough(t, i);
  }

  /** `cumsum(vol * price)` at bar i is the cash flow through bar i. */
  lemma {:induction false} CumSumThrough(t: Trades, i: nat)
    requires t.Aligned() && i < t.Len()
    ensures CumSum(Flow(t))[i] == CashFlowThrough(t, i)
  {
    CumSumSteps(Flow(t));
    if i > 0 {
      CumSumThrough(t, i - 1);
    }
  }

  /**
   The equity series is 0 away from close points and at bar 0; at every later
   close point it is minus the change in cash flow less mark since the previous
   close point.
   */
  lemma EquityAt(t: Trades, i: nat)
    requires t.Aligned() && i < t.Len()
    ensures !IsClosePoint(t, i) ==> TradesToEquity(t)[i] == 0
    ensures i == 0 ==> TradesToEquity(t)[i] == 0
    ensures i > 0 && IsClosePoint(t, i) ==>
      TradesToEquity(t)[i] == -(FlowLessMark(t, i) - FlowLessMark(t, LastClosePoint(t, i)))
    ensures TradesToEquity(t)[i] == RealizedAt(t, i)
  {
    var raw := RawEquity(t);
    var cp := ClosePoints(t);
    ClosePointsAre(t);
    assert TradesToEquity(t)[i] == -Reindex(Diff(Masked(Indexed(raw), cp)), t.Len())[i];
    if !cp[i] {
      DenseDiffOffMask(raw, cp, i);
    } else {
      DenseDiffAtMask(raw, cp, i);
      if i > 0 {
        var j := LastTrue(cp, i);
        assert j == LastClosePoint(t, i);
        RawEquityIs(t, i);
        RawEquityIs(t, j);
      }
    }
  }

  /**
   Any series that agrees with `RealizedAt` on bars 0..j-1 adds up, over those
   bars, to the cash flow less mark at bar 0 minus that at the last close point
   before j.
   */
  lemma {:induction false} RealizedTelescopes(t: Trades, e: seq<int>, j: nat)
    requires t.Aligned() && 0 < j <= t.Len() && j <= |e|
    requires forall i :: 0 <= i < j ==> e[i] == RealizedAt(t, i)
    ensures Sum(e[..j]) == FlowLessMark(t, 0) - FlowLessMark(t, LastClosePoint(t, j))
  {
    assert e[..j][..j - 1] == e[..j - 1];
    if j == 1 {
      assert e[..1][..0] == [];
    } else {
      RealizedTelescopes(t, e, j - 1);
    }
  }

  /**
   The equity up to bar j telescopes: it adds up to the cash flow less mark at
   bar 0 minus that at the last close point before j.
   */
  lemma EquityTelescopes(t: Trades, j: nat)
    requires t.Aligned() && 0 < j <= t.Len()
    ensures Sum(TradesToEquity(t)[..j]) == FlowLessMark(t, 0) - FlowLessMark(t, LastClosePoint(t, j))
  {
    var e := TradesToEquity(t);
    forall i | 0 <= i < j
      ensures e[i] == RealizedAt(t, i)
    {
      EquityAt(t, i);
    }
    RealizedTelescopes(t, e, j);
  }

  /**
   Nothing is counted twice: the whole equity series adds up to the cash flow
   less mark at bar 0 minus that at the last close point.
   */
  lemma EquityTotal(t: Trades)
    requires t.Aligned() && t.Len() > 0
    ensures Sum(TradesToEquity(t)) == FlowLessMark(t, 0) - FlowLessMark(t, LastClosePoint(t, t.Len()))
  {
    EquityTelescopes(t, t.Len());
    assert TradesToEquity(t)[..t.Len()] == TradesToEquity(t);
  }

  /** Buy 10 at 100, sell 10 at 110: a realised gain of 100 at bar 1. */
  lemma ScenarioRoundTrip()
    ensures TradesToEquity(Trades([10, -10], [100, 110], [10, 0])) == [0, 100]
  {
    var t := Trades([10, -10], [100, 110], [10, 0]);
    EquityAt(t, 0);
    EquityAt(t, 1);
    assert IsClosePoint(t, 1) && LastClosePoint(t, 1) == 0;
    assert FlowLessMark(t, 0) == 0 && FlowLessMark(t, 1) == -100;
  }
}
