/**
 The few series operations that pybacktest/parts.py builds its results from:
 labelling values with their bar, `x != x.shift()`, boolean masking `x[mask]`,
 `diff`, `cumsum` and `reindex(axis).fillna(0)`.

 A series is a sequence of entries, each a bar label (a position 0..N-1 of the
 time axis) and a value. A series produced by masking keeps the labels of the
 bars it kept. Where the library yields NaN ("no predecessor" for `shift`,
 "no value" for `diff`), the model says so explicitly.
 */
module Series {

  datatype Option<+T> = None | Some(value: T)

  /** One point of a series: the bar it is labelled with and its value. */
  datatype Entry<+T> = Entry(bar: nat, value: T)

  /** A dense series over bars 0..|s|-1: bar i carries s[i]. */
  function Indexed<T>(s: seq<T>): seq<Entry<T>>
  {
    seq(|s|, i requires 0 <= i < |s| => Entry(i, s[i]))
  }

  /** Labels strictly increase along the series (so no label repeats). */
  ghost predicate Increasing<T>(xs: seq<Entry<T>>)
  {
    forall i, j :: 0 <= i < j < |xs| ==> xs[i].bar < xs[j].bar
  }

  /** No two neighbouring entries carry the same value. */
  ghost predicate NoRepeats(xs: seq<Entry<int>>)
  {
    forall k :: 0 < k < |xs| ==> xs[k].value != xs[k - 1].value
  }

  /**
   `x != x.shift()`, position by position. `shift` leaves position 0 without a
   predecessor (NaN), and NaN compares unequal to everything, so position 0 is
   always true.
   */
  function ShiftDiffers(xs: seq<Entry<int>>): seq<bool>
  {
    seq(|xs|, k requires 0 <= k < |xs| => k == 0 || xs[k].value != xs[k - 1].value)
  }

  /** `x[mask]` restricted to the first n positions: the entries whose mask is true, in order. */
  function MaskedPrefix<T>(xs: seq<Entry<T>>, mask: seq<bool>, n: nat): (r: seq<Entry<T>>)
    requires n <= |xs| && n <= |mask|
    ensures |r| <= n
    decreases n
  {
    if n == 0 then []
    else MaskedPrefix(xs, mask, n - 1) + (if mask[n - 1] then [xs[n - 1]] else [])
  }

  /** Boolean indexing `x[mask]` of a series by an aligned mask. */
  function Masked<T>(xs: seq<Entry<T>>, mask: seq<bool>): seq<Entry<T>>
    requires |mask| == |xs|
  {
    MaskedPrefix(xs, mask, |xs|)
  }

  /** Change-point compaction `x[x != x.shift()]`. */
  function Compact(xs: seq<Entry<int>>): seq<Entry<int>>
  {
    Masked(xs, ShiftDiffers(xs))
  }

  /**
   The last position below n whose mask is true; position 0 is true, so there
   always is one.
   */
  function LastTrue(mask: seq<bool>, n: nat): (r: nat)
    requires 0 < n <= |mask| && mask[0]
    ensures r < n && mask[r]
    ensures forall j :: r < j < n ==> !mask[j]
    decreases n
  {
    if mask[n - 1] then n - 1 else LastTrue(mask, n - 1)
  }

  /** `diff()`: each entry minus its predecessor; the first has none (NaN). Labels are kept. */
  function Diff(xs: seq<Entry<int>>): seq<Entry<Option<int>>>
  {
    seq(|xs|, k requires 0 <= k < |xs| =>
      Entry(xs[k].bar, if k == 0 then None else Some(xs[k].value - xs[k - 1].value)))
  }

  /** `fillna(0)` on one value. */
  function Fill(v: Option<int>): int
  {
    match v
    case Some(x) => x
    case None => 0
  }

  /** The value labelled `bar` after `fillna(0)`; 0 when no entry carries that label. */
  function Lookup(ys: seq<Entry<Option<int>>>, bar: nat): int
  {
    if ys == [] then 0
    else if ys[0].bar == bar then Fill(ys[0].value)
    else Lookup(ys[1..], bar)
  }

  /** `reindex(range(n)).fillna(0)`: a dense series over bars 0..n-1. */
  function Reindex(ys: seq<Entry<Option<int>>>, n: nat): seq<int>
  {
    seq(n, i requires 0 <= i < n => Lookup(ys, i))
  }

  /** Sum of a sequence of numbers. */
  function Sum(s: seq<int>): int
  {
    if s == [] then 0 else Sum(s[..|s| - 1]) + s[|s| - 1]
  }

  /** `cumsum()`: position i holds the sum of positions 0..i. */
  function CumSum(s: seq<int>): seq<int>
  {
    seq(|s|, i requires 0 <= i < |s| => Sum(s[..i + 1]))
  }

  /** `e[e != 0] *= -1`: the nonzero values are negated, the zeros are left alone. */
  function NegateNonzero(s: seq<int>): (r: seq<int>)
    ensures |r| == |s|
    ensures forall i :: 0 <= i < |s| ==> r[i] == -s[i]
  {
    seq(|s|, i requires 0 <= i < |s| => if s[i] != 0 then -s[i] else s[i])
  }

  // ---------------------------------------------------------------------------
  // Masking

  /** In a dense series, bar i survives the mask, with its own value, exactly when its mask is true. */
  lemma {:induction false} MaskedMember(s: seq<int>, mask: seq<bool>, n: nat, i: nat, v: int)
    requires n <= |s| && n <= |mask|
    ensures Entry(i, v) in MaskedPrefix(Indexed(s), mask, n) <==> i < n && mask[i] && v == s[i]
  {
    if n > 0 {
      MaskedMember(s, mask, n - 1, i, v);
    }
  }

  /** Masking keeps the order of the labels; every kept label is at most the last one looked at. */
  lemma {:induction false} MaskedIncreasing<T>(xs: seq<Entry<T>>, mask: seq<bool>, n: nat)
    requires n <= |xs| && n <= |mask| && Increasing(xs)
    ensures Increasing(MaskedPrefix(xs, mask, n))
    ensures n > 0 ==> forall k :: 0 <= k < |MaskedPrefix(xs, mask, n)| ==> MaskedPrefix(xs, mask, n)[k].bar <= xs[n - 1].bar
  {
    if n > 0 {
      MaskedIncreasing(xs, mask, n - 1);
    }
  }

  /** Masking a longer prefix only appends. */
  lemma {:induction false} MaskedPrefixGrows<T>(xs: seq<Entry<T>>, mask: seq<bool>, n: nat, m: nat)
    requires n <= m <= |xs| && m <= |mask|
    ensures |MaskedPrefix(xs, mask, n)| <= |MaskedPrefix(xs, mask, m)|
    ensures MaskedPrefix(xs, mask, m)[..|MaskedPrefix(xs, mask, n)|] == MaskedPrefix(xs, mask, n)
    decreases m
  {
    if n < m {
      MaskedPrefixGrows(xs, mask, n, m - 1);
    }
  }

  /** When position 0 is kept, the last entry kept from the first n is the one at LastTrue(mask, n). */
  lemma {:induction false} MaskedLast<T>(xs: seq<Entry<T>>, mask: seq<bool>, n: nat)
    requires 0 < n <= |xs| && n <= |mask| && mask[0]
    ensures |MaskedPrefix(xs, mask, n)| > 0
    ensures MaskedPrefix(xs, mask, n)[|MaskedPrefix(xs, mask, n)| - 1] == xs[LastTrue(mask, n)]
  {
    if !mask[n - 1] {
      MaskedLast(xs, mask, n - 1);
    }
  }

  /** A mask that is true everywhere keeps everything. */
  lemma {:induction false} MaskedAll<T>(xs: seq<Entry<T>>, mask: seq<bool>, n: nat)
    requires n <= |xs| && n <= |mask|
    requires forall k :: 0 <= k < n ==> mask[k]
    ensures MaskedPrefix(xs, mask, n) == xs[..n]
  {
    if n > 0 {
      MaskedAll(xs, mask, n - 1);
      assert xs[..n] == xs[..n - 1] + [xs[n - 1]];
    }
  }

  // ---------------------------------------------------------------------------
  // Change-point compaction

  /**
   After compacting the first n entries, the last survivor carries the value of
   entry n-1 (what was dropped equalled its predecessor), and no two neighbours
   carry the same value.
   */
  lemma {:induction false} CompactPrefixShape(xs: seq<Entry<int>>, n: nat)
    requires 0 < n <= |xs|
    ensures var c := MaskedPrefix(xs, ShiftDiffers(xs), n);
      |c| > 0 && c[|c| - 1].value == xs[n - 1].value && NoRepeats(c)
  {
    if n > 1 {
      CompactPrefixShape(xs, n - 1);
    }
  }

  /** The compacted series has no two neighbours with the same value, and keeps the first entry. */
  lemma CompactNoRepeats(xs: seq<Entry<int>>)
    ensures NoRepeats(Compact(xs))
    ensures |xs| > 0 ==> |Compact(xs)| > 0 && Compact(xs)[0] == xs[0]
  {
    if |xs| > 0 {
      CompactPrefixShape(xs, |xs|);
      MaskedPrefixGrows(xs, ShiftDiffers(xs), 1, |xs|);
    }
  }

  /** On a dense series, `x != x.shift()` is true at bar 0 and where the value changes. */
  lemma ShiftDiffersAt(s: seq<int>, i: nat)
    requires i < |s|
    ensures ShiftDiffers(Indexed(s))[i] <==> (i == 0 || s[i] != s[i - 1])
  {
  }

  /**
   Compacting a dense series keeps bar i with its value exactly when i is bar 0
   or its value differs from bar i-1's.
   */
  lemma CompactIndexedMembers(s: seq<int>)
    ensures forall i: nat, v :: Entry(i, v) in Compact(Indexed(s)) <==> i < |s| && v == s[i] && (i == 0 || s[i] != s[i - 1])
  {
    forall i: nat, v
      ensures Entry(i, v) in Compact(Indexed(s)) <==> i < |s| && v == s[i] && (i == 0 || s[i] != s[i - 1])
    {
      MaskedMember(s, ShiftDiffers(Indexed(s)), |s|, i, v);
      if i < |s| {
        ShiftDiffersAt(s, i);
      }
    }
  }

  /** A series without repeated neighbours is its own compaction. */
  lemma CompactFixesNoRepeats(xs: seq<Entry<int>>)
    requires NoRepeats(xs)
    ensures Compact(xs) == xs
  {
    MaskedAll(xs, ShiftDiffers(xs), |xs|);
  }

  /** Compacting twice is compacting once. */
  lemma CompactIdempotent(xs: seq<Entry<int>>)
    ensures Compact(Compact(xs)) == Compact(xs)
  {
    CompactNoRepeats(xs);
    CompactFixesNoRepeats(Compact(xs));
  }

  // ---------------------------------------------------------------------------
  // Lookup, diff and cumsum

  /** With increasing labels, looking up an entry's own label finds that entry's (filled) value. */
  lemma {:induction false} LookupFinds(ys: seq<Entry<Option<int>>>, k: nat)
    requires Increasing(ys) && k < |ys|
    ensures Lookup(ys, ys[k].bar) == Fill(ys[k].value)
  {
    if k > 0 {
      assert ys[0].bar < ys[k].bar;
      LookupFinds(ys[1..], k - 1);
    }
  }

  /** A label carried by no entry reads as 0. */
  lemma {:induction false} LookupMisses(ys: seq<Entry<Option<int>>>, bar: nat)
    requires forall k :: 0 <= k < |ys| ==> ys[k].bar != bar
    ensures Lookup(ys, bar) == 0
  {
    if ys != [] {
      assert forall k :: 0 <= k < |ys[1..]| ==> ys[1..][k].bar == ys[k + 1].bar;
      LookupMisses(ys[1..], bar);
    }
  }

  /** `cumsum` starts at the first value and adds one value per position. */
  lemma CumSumSteps(s: seq<int>)
    ensures |CumSum(s)| == |s|
    ensures |s| > 0 ==> CumSum(s)[0] == s[0]
    ensures forall i :: 0 < i < |s| ==> CumSum(s)[i] == CumSum(s)[i - 1] + s[i]
  {
    forall i | 0 < i < |s|
      ensures CumSum(s)[i] == CumSum(s)[i - 1] + s[i]
    {
      assert s[..i + 1][..i] == s[..i];
    }
    if |s| > 0 {
      assert s[..1][..0] == [];
      assert Sum(s[..1]) == s[0];
    }
  }
  // ---------------------------------------------------------------------------
  // `s[mask].diff().reindex(axis).fillna(0)` on a dense series s

  /** The labels of a masked dense series increase, and so do those of its difference. */
  lemma MaskedDiffIncreasing(s: seq<int>, mask: seq<bool>)
    requires |mask| == |s|
    ensures Increasing(Diff(Masked(Indexed(s), mask)))
  {
    var atMask := Masked(Indexed(s), mask);
    MaskedIncreasing(Indexed(s), mask, |s|);
    assert forall k :: 0 <= k < |atMask| ==> Diff(atMask)[k].bar == atMask[k].bar;
  }

  /** Off the mask, the spread-back difference is 0. */
  lemma DenseDiffOffMask(s: seq<int>, mask: seq<bool>, i: nat)
    requires |mask| == |s| && i < |s| && !mask[i]
    ensures Reindex(Diff(Masked(Indexed(s), mask)), |s|)[i] == 0
  {
    var xs := Indexed(s);
    var d := Diff(Masked(xs, mask));
    forall k | 0 <= k < |d|
      ensures d[k].bar != i
    {
      var e := Masked(xs, mask)[k];
      assert Entry(e.bar, e.value) in Masked(xs, mask);
      MaskedMember(s, mask, |s|, e.bar, e.value);
    }
    LookupMisses(d, i);
  }

  /** At a masked bar i, the entry it becomes in the masked series and what comes before it. */
  lemma {:induction false} MaskedAt(s: seq<int>, mask: seq<bool>, i: nat) returns (k: nat)
    requires |mask| == |s| && i < |s| && mask[0] && mask[i]
    ensures k < |Masked(Indexed(s), mask)| && Masked(Indexed(s), mask)[k] == Entry(i, s[i])
    ensures k == 0 <==> i == 0
    ensures k > 0 ==> Masked(Indexed(s), mask)[k - 1] == Entry(LastTrue(mask, i), s[LastTrue(mask, i)])
  {
    var xs := Indexed(s);
    var a := MaskedPrefix(xs, mask, i + 1);
    MaskedLast(xs, mask, i + 1);
    MaskedPrefixGrows(xs, mask, i + 1, |s|);
    k := |a| - 1;
    assert Masked(xs, mask)[k] == a[k];
    if i > 0 {
      var b := MaskedPrefix(xs, mask, i);
      MaskedLast(xs, mask, i);
      assert a == b + [xs[i]];
      assert Masked(xs, mask)[k - 1] == a[k - 1] == b[|b| - 1];
    }
  }

  /**
   At a masked bar, the spread-back difference is 0 for bar 0 (no predecessor)
   and otherwise the value there minus the value at the previous masked bar.
   */
  lemma DenseDiffAtMask(s: seq<int>, mask: seq<bool>, i: nat)
    requires |mask| == |s| && i < |s| && mask[0] && mask[i]
    ensures i == 0 ==> Reindex(Diff(Masked(Indexed(s), mask)), |s|)[i] == 0
    ensures i > 0 ==> Reindex(Diff(Masked(Indexed(s), mask)), |s|)[i] == s[i] - s[LastTrue(mask, i)]
  {
    var d := Diff(Masked(Indexed(s), mask));
    var k := MaskedAt(s, mask, i);
    MaskedDiffIncreasing(s, mask);
    LookupFinds(d, k);
  }
}
