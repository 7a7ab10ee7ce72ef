/** The running average of the queue's fill level: a ring of the last samples and
    a total kept up by adding the new sample and subtracting the one it replaces. */
module FillAverage {

  function Sum(s: seq<int>): int {
    if s == [] then 0 else s[0] + Sum(s[1..])
  }

  lemma {:induction false} SumConcat(a: seq<int>, b: seq<int>)
    ensures Sum(a + b) == Sum(a) + Sum(b)
  {
    if a == [] {
      assert a + b == b;
    } else {
      assert (a + b)[1..] == a[1..] + b;
      SumConcat(a[1..], b);
    }
  }

  lemma {:induction false} SumBounds(s: seq<int>, lo: int, hi: int)
    requires forall i :: 0 <= i < |s| ==> lo <= s[i] <= hi
    ensures |s| * lo <= Sum(s) <= |s| * hi
  {
    if s != [] {
      SumBounds(s[1..], lo, hi);
      assert |s| * lo == (|s| - 1) * lo + lo && |s| * hi == (|s| - 1) * hi + hi;
    }
  }

  function Zeros(n: nat): seq<int> {
    seq(n, _ => 0)
  }

  /** The definition: the last `n` samples, zeros before the first. */
  function Window(samples: seq<int>, n: nat): seq<int> {
    (Zeros(n) + samples)[|samples|..]
  }

  lemma WindowNext(samples: seq<int>, n: nat, x: int)
    requires n > 0
    ensures |Window(samples, n)| == n
    ensures Window(samples + [x], n) == Window(samples, n)[1..] + [x]
  {
    assert Zeros(n) + (samples + [x]) == (Zeros(n) + samples) + [x];
  }

  lemma {:induction false} SumZeros(n: nat)
    ensures Sum(Zeros(n)) == 0
  {
    if n > 0 {
      assert Zeros(n)[1..] == Zeros(n - 1);
      SumZeros(n - 1);
    }
  }

  /** The total as the code keeps it: never let below zero. */
  function Total(samples: seq<int>, n: nat): int
    requires n > 0
  {
    if samples == [] then 0
    else
      var before, x := samples[..|samples| - 1], samples[|samples| - 1];
      WindowNext(before, n, x);
      var total := Total(before, n) + x - Window(before, n)[0];
      if total < 0 then 0 else total
  }

  ghost predicate NeverNegative(samples: seq<int>, n: nat) {
    forall k :: 0 <= k <= |samples| ==> Sum(Window(samples[..k], n)) >= 0
  }

  ghost predicate AlwaysExact(samples: seq<int>, n: nat)
    requires n > 0
  {
    forall k :: 0 <= k <= |samples| ==> Total(samples[..k], n) == Sum(Window(samples[..k], n))
  }

  lemma TotalNext(samples: seq<int>, n: nat, x: int)
    requires n > 0
    ensures var sum := Sum(Window(samples + [x], n));
            var total := Total(samples, n) + sum - Sum(Window(samples, n));
            Total(samples + [x], n) == if total < 0 then 0 else total
  {
    WindowNext(samples, n, x);
    var w := Window(samples, n);
    assert (samples + [x])[..|samples|] == samples;
    assert w == [w[0]] + w[1..];
    SumConcat(w[1..], [x]);
    assert [x][1..] == [];
  }

  lemma PrefixesOf(before: seq<int>, x: int)
    ensures forall k :: 0 <= k <= |before| ==> (before + [x])[..k] == before[..k]
    ensures (before + [x])[..|before| + 1] == before + [x] && before[..|before|] == before
  {
  }

  lemma AlwaysExactNext(before: seq<int>, n: nat, x: int)
    requires n > 0
    ensures AlwaysExact(before + [x], n) <==>
            AlwaysExact(before, n) && Total(before + [x], n) == Sum(Window(before + [x], n))
  {
    hide Total, Window, Sum;
    PrefixesOf(before, x);
  }

  lemma NeverNegativeNext(before: seq<int>, n: nat, x: int)
    ensures NeverNegative(before + [x], n) <==> NeverNegative(before, n) && Sum(Window(before + [x], n)) >= 0
  {
    hide Window, Sum;
    PrefixesOf(before, x);
  }

  lemma NoSamples(n: nat)
    requires n > 0
    ensures AlwaysExact([], n) && NeverNegative([], n)
  {
    SumZeros(n);
    var none: seq<int> := [];
    assert Window(none, n) == Zeros(n) && none[..0] == none;
  }

  lemma ExactNow(samples: seq<int>, n: nat)
    requires n > 0 && AlwaysExact(samples, n)
    ensures Total(samples, n) == Sum(Window(samples, n))
  {
    hide Total, Window, Sum;
    assert samples[..|samples|] == samples;
  }

  /** The incremental total equals the sum of the last `n` samples after every
      sample if and only if that sum is never negative, that is, if and only if
      the clamp never takes effect. */
  lemma {:induction false} ExactIffNeverNegative(samples: seq<int>, n: nat)
    requires n > 0
    ensures AlwaysExact(samples, n) <==> NeverNegative(samples, n)
  {
    hide AlwaysExact, NeverNegative, Total, Window, Sum;
    if samples == [] {
      NoSamples(n);
    } else {
      var before, x := samples[..|samples| - 1], samples[|samples| - 1];
      assert samples == before + [x];
      ExactIffNeverNegative(before, n);
      AlwaysExactNext(before, n, x);
      NeverNegativeNext(before, n, x);
      if AlwaysExact(before, n) {
        ExactNow(before, n);
        TotalNext(before, n, x);
      }
    }
  }

  /** The lowest sum of the last `n` samples at any time so far, the zero before
      the first sample included. */
  function Lowest(samples: seq<int>, n: nat): int {
    var sum := Sum(Window(samples, n));
    if samples == [] then 0
    else
      var before := Lowest(samples[..|samples| - 1], n);
      if sum < before then sum else before
  }

  /** For all samples, negative ones too: the total is too high by exactly the
      lowest the sum has been below zero. */
  lemma {:induction false} TotalIsOffByLowest(samples: seq<int>, n: nat)
    requires n > 0
    ensures Total(samples, n) == Sum(Window(samples, n)) - Lowest(samples, n) >= 0
  {
    hide Window, Sum;
    if samples == [] {
      NoSamples(n);
      ExactNow([], n);
    } else {
      var before, x := samples[..|samples| - 1], samples[|samples| - 1];
      assert samples == before + [x];
      TotalIsOffByLowest(before, n);
      TotalNext(before, n, x);
    }
  }

  /** With samples between 0 and the queue's capacity of 1023 the total is exact
      and, for the 1000 samples kept, stays below 2^24, so that the single
      precision total is exact too. */
  lemma FillTotalExact(samples: seq<int>)
    requires forall i :: 0 <= i < |samples| ==> 0 <= samples[i] <= 1023
    ensures Total(samples, 1000) == Sum(Window(samples, 1000))
    ensures 0 <= Total(samples, 1000) < 0x100_0000
  {
    forall k | 0 <= k <= |samples|
      ensures 0 <= Sum(Window(samples[..k], 1000)) <= 1023000
    {
      WindowBounds(samples, k, 1000, 1023);
      SumBounds(Window(samples[..k], 1000), 0, 1023);
    }
    ExactIffNeverNegative(samples, 1000);
    assert samples[..|samples|] == samples;
  }

  lemma WindowBounds(samples: seq<int>, k: nat, n: nat, hi: nat)
    requires k <= |samples| && forall i :: 0 <= i < |samples| ==> 0 <= samples[i] <= hi
    ensures var w := Window(samples[..k], n);
            |w| == n && forall i :: 0 <= i < n ==> 0 <= w[i] <= hi
  {
    var all := Zeros(n) + samples[..k];
    assert forall i :: 0 <= i < n ==> Window(samples[..k], n)[i] == all[k + i];
  }

  lemma TotalSample(samples: seq<int>, n: nat, x: int)
    requires n > 0
    ensures |Window(samples, n)| == n
    ensures var total := Total(samples, n) + x - Window(samples, n)[0];
            Total(samples + [x], n) == if total < 0 then 0 else total
  {
    WindowNext(samples, n, x);
    assert (samples + [x])[..|samples|] == samples;
  }

  /** The sampling loop's ring and total. */
  class FillMeter {
    const fillValues: array<int>
    var runningFillTotal: int
    var currentIndex: nat
    var earliestIndex: nat
    ghost var samples: seq<int>

    ghost predicate Valid()
      reads this, fillValues
    {
      && fillValues.Length > 0 && currentIndex < fillValues.Length
      && fillValues[currentIndex..] + fillValues[..currentIndex] == Window(samples, fillValues.Length)
      && runningFillTotal == Total(samples, fillValues.Length)
      && earliestIndex == (if currentIndex + 1 == fillValues.Length then 0 else currentIndex + 1)
    }

    constructor (fcount: nat)
      requires fcount > 1
      ensures Valid() && samples == [] && fillValues.Length == fcount && fresh(fillValues)
    {
      fillValues := new int[fcount](_ => 0);
      runningFillTotal, currentIndex, earliestIndex, samples := 0, 0, 1, [];
      new;
      assert fillValues[0..] + fillValues[..0] == Zeros(fcount) == Window([], fcount);
    }

    /** One sample: the oldest value leaves the ring, the new one takes its place;
        `oldest` is the earliest one then kept. */
    method Sample(curFill: int) returns (oldest: int)
      requires Valid()
      modifies this, fillValues
      ensures Valid() && samples == old(samples) + [curFill]
      ensures oldest == Window(samples, fillValues.Length)[0]
    {
      hide Window, Total;
      var n := fillValues.Length;
      ghost var ring := fillValues[..];
      WindowNext(samples, n, curFill);
      TotalSample(samples, n, curFill);
      Rotate(ring, currentIndex, curFill);
      var prevFill := fillValues[currentIndex];
      fillValues[currentIndex] := curFill;
      runningFillTotal := runningFillTotal + curFill - prevFill;
      if runningFillTotal < 0 {
        runningFillTotal := 0;
      }
      oldest := fillValues[earliestIndex];
      samples := samples + [curFill];
      assert fillValues[..] == ring[currentIndex := curFill];
      ghost var next := earliestIndex;

      earliestIndex := earliestIndex + 1;
      earliestIndex := if earliestIndex == n then 0 else earliestIndex;
      currentIndex := currentIndex + 1;
      currentIndex := if currentIndex == n then 0 else currentIndex;
      assert currentIndex == next;
      SplitArray(fillValues, next);
    }
  }

  lemma SplitArray(a: array<int>, i: nat)
    requires i < a.Length
    ensures a[i..] + a[..i] == a[..][i..] + a[..][..i] && (a[i..] + a[..i])[0] == a[i]
  {
  }

  lemma Rotate(ring: seq<int>, i: nat, x: int)
    requires i < |ring|
    ensures var r, j := ring[i := x], if i + 1 == |ring| then 0 else i + 1;
            r[j..] + r[..j] == (ring[i..] + ring[..i])[1..] + [x] && (ring[i..] + ring[..i])[0] == ring[i]
  {
  }
}
