/** The rate control of the sending loop: buffers go out in bunches, a pause
    follows each bunch, and time owed or overslept is carried to the next one.
    Times are whole microseconds. */
module Pacing {

  const BYTES_AT_ONCE: nat := 500000

  /** The constants of a run: buffers per bunch and the time a bunch should take. */
  datatype Rate = Rate(buffersAtOnce: nat, microSecItShouldTake: nat)

  function RateOf(bufRate: nat, avgBufBytes: nat): Rate
    requires bufRate > 0 && avgBufBytes > 0
  {
    RatePositive(bufRate, avgBufBytes);
    Rate(BYTES_AT_ONCE / avgBufBytes, 1000000 * BYTES_AT_ONCE / (bufRate * avgBufBytes))
  }

  lemma RatePositive(a: nat, b: nat)
    requires a > 0 && b > 0
    ensures a * b > 0
  {
  }

  datatype Pace = Pace(countDown: int, t1: int, lastExcessTime: int, bufsSent: nat)

  /** The clock as one turn of the loop reads it: before a pause, and after it. */
  datatype Reading = Reading(t2: int, wake: int)

  function Excess(p: Pace, rate: Rate, r: Reading): int {
    rate.microSecItShouldTake - (r.t2 - p.t1) + p.lastExcessTime
  }

  /** One turn of the loop: a pause if the bunch is used up, then one buffer. */
  function Turn(p: Pace, rate: Rate, r: Reading): Pace {
    if p.countDown > 0 then p.(countDown := p.countDown - 1, bufsSent := p.bufsSent + 1)
    else
      var excessTime := Excess(p, rate, r);
      if excessTime > 0
      then Pace(rate.buffersAtOnce - 1, r.wake, excessTime - (r.wake - r.t2), p.bufsSent + 1)
      else Pace(rate.buffersAtOnce - 1, r.t2, excessTime, p.bufsSent + 1)
  }

  function Run(p: Pace, rate: Rate, clock: seq<Reading>): Pace
    decreases |clock|
  {
    if clock == [] then p else Run(Turn(p, rate, clock[0]), rate, clock[1..])
  }

  /** The number of pauses (or of bunches that needed none) in a run. */
  function Rounds(p: Pace, rate: Rate, clock: seq<Reading>): nat
    decreases |clock|
  {
    if clock == [] then 0
    else (if p.countDown > 0 then 0 else 1) + Rounds(Turn(p, rate, clock[0]), rate, clock[1..])
  }

  /** The operating system's side: a pause lasts at least as long as asked. */
  predicate SleepsLongEnough(p: Pace, rate: Rate, clock: seq<Reading>)
    decreases |clock|
  {
    clock == [] ||
    (&& (p.countDown <= 0 ==> clock[0].wake >= clock[0].t2 + Excess(p, rate, clock[0]))
     && SleepsLongEnough(Turn(p, rate, clock[0]), rate, clock[1..]))
  }

  function Start(rate: Rate, t0: int): Pace {
    Pace(rate.buffersAtOnce, t0, 0, 0)
  }

  /** After `k` rounds: the carried time is what the rounds should have taken
      less what they took, never more; and the bunches account for every buffer. */
  ghost predicate Balanced(p: Pace, rate: Rate, t0: int, k: nat) {
    && p.lastExcessTime == k * rate.microSecItShouldTake - (p.t1 - t0)
    && p.lastExcessTime <= 0
    && (rate.buffersAtOnce > 0 ==> p.countDown >= 0 && p.bufsSent + p.countDown == (k + 1) * rate.buffersAtOnce)
    && (rate.buffersAtOnce == 0 ==> p.countDown <= 0 && p.bufsSent == k)
  }

  lemma TurnKeepsBalance(p: Pace, rate: Rate, r: Reading, t0: int, k: nat)
    requires Balanced(p, rate, t0, k)
    requires p.countDown <= 0 ==> r.wake >= r.t2 + Excess(p, rate, r)
    ensures Balanced(Turn(p, rate, r), rate, t0, if p.countDown > 0 then k else k + 1)
  {
    assert (k + 1) * rate.microSecItShouldTake == k * rate.microSecItShouldTake + rate.microSecItShouldTake;
    assert (k + 2) * rate.buffersAtOnce == (k + 1) * rate.buffersAtOnce + rate.buffersAtOnce;
  }

  lemma {:induction false} RunKeepsBalance(p: Pace, rate: Rate, clock: seq<Reading>, t0: int, k: nat)
    requires Balanced(p, rate, t0, k) && SleepsLongEnough(p, rate, clock)
    ensures Balanced(Run(p, rate, clock), rate, t0, k + Rounds(p, rate, clock))
    decreases |clock|
  {
    hide Balanced;
    if clock != [] {
      TurnKeepsBalance(p, rate, clock[0], t0, k);
      RunKeepsBalance(Turn(p, rate, clock[0]), rate, clock[1..], t0, if p.countDown > 0 then k else k + 1);
    }
  }

  /** The carried time telescopes. */
  lemma DebtTelescopes(rate: Rate, clock: seq<Reading>, t0: int)
    requires SleepsLongEnough(Start(rate, t0), rate, clock)
    ensures var p, k := Run(Start(rate, t0), rate, clock), Rounds(Start(rate, t0), rate, clock);
            p.lastExcessTime == k * rate.microSecItShouldTake - (p.t1 - t0) <= 0
  {
    RunKeepsBalance(Start(rate, t0), rate, clock, t0, 0);
  }

  lemma MulMonotone(a: nat, b: nat, c: nat)
    requires a <= b
    ensures a * c <= b * c
  {
  }

  lemma RoundsWithin(k: nat, m: nat, t: int)
    requires m > 0 && k * m <= t
    ensures k <= t / m
  {
    var q := t / m;
    assert t == q * m + t % m;
    assert (q + 1) * m == q * m + m;
    if k >= q + 1 {
      MulMonotone(q + 1, k, m);
    }
  }

  /** The leaky bucket: whatever the sending times and oversleeps, the buffers
      sent by elapsed time `t` are at most one bunch more than the bunches whose
      time has passed. */
  lemma LeakyBucket(rate: Rate, clock: seq<Reading>, t0: int, t: int)
    requires rate.buffersAtOnce > 0 && rate.microSecItShouldTake > 0
    requires SleepsLongEnough(Start(rate, t0), rate, clock)
    requires t >= Run(Start(rate, t0), rate, clock).t1 - t0
    ensures Run(Start(rate, t0), rate, clock).bufsSent <= rate.buffersAtOnce * (t / rate.microSecItShouldTake + 1)
  {
    var p, k := Run(Start(rate, t0), rate, clock), Rounds(Start(rate, t0), rate, clock);
    RunKeepsBalance(Start(rate, t0), rate, clock, t0, 0);
    RoundsWithin(k, rate.microSecItShouldTake, t);
    MulMonotone(k + 1, t / rate.microSecItShouldTake + 1, rate.buffersAtOnce);
  }

  // ----- The rate asked for -----

  lemma MulCancel(a: nat, b: nat, c: nat)
    requires a * c < b * c
    ensures a < b
  {
    if a >= b {
      MulMonotone(b, a, c);
    }
  }

  lemma Quotient(k: nat, d: nat)
    requires d > 0
    ensures k / d * d <= k < (k / d + 1) * d
  {
    assert k == k / d * d + k % d;
  }

  /** A bunch is the most buffers that make at most 500000 bytes on average. */
  lemma BunchIsLargest(bufRate: nat, avgBufBytes: nat)
    requires bufRate > 0 && avgBufBytes > 0
    ensures var b := RateOf(bufRate, avgBufBytes).buffersAtOnce;
            b * avgBufBytes <= 500000 < (b + 1) * avgBufBytes
  {
    Quotient(BYTES_AT_ONCE, avgBufBytes);
  }

  /** What the two divisions leave of the rate asked for: a bunch per bunch time
      is at most that rate with the bunch time one microsecond longer. */
  lemma RateRounding(bufRate: nat, avgBufBytes: nat)
    requires bufRate > 0 && avgBufBytes > 0
    ensures var rate := RateOf(bufRate, avgBufBytes);
            && rate.buffersAtOnce * 1000000 < bufRate * (rate.microSecItShouldTake + 1)
            && bufRate * rate.microSecItShouldTake < (rate.buffersAtOnce + 1) * 1000000
            && (rate.buffersAtOnce == 0 <==> avgBufBytes > 500000)
            && (avgBufBytes > BYTES_AT_ONCE ==> bufRate * rate.microSecItShouldTake < 1000000)
  {
    hide RateOf;
    var rate := RateOf(bufRate, avgBufBytes);
    var b, m := rate.buffersAtOnce, rate.microSecItShouldTake;
    RateQuotients(bufRate, avgBufBytes);
    RoundedUp(b, m, bufRate, avgBufBytes);
    RoundedDown(b, m, bufRate, avgBufBytes);
    EmptyBunch(b, avgBufBytes);
  }

  lemma RateQuotients(bufRate: nat, avg: nat)
    requires bufRate > 0 && avg > 0
    ensures var rate := RateOf(bufRate, avg);
            var b, m := rate.buffersAtOnce, rate.microSecItShouldTake;
            && b * avg <= 500000 < (b + 1) * avg
            && m * (bufRate * avg) <= 500000000000 < (m + 1) * (bufRate * avg)
  {
    RatePositive(bufRate, avg);
    Quotient(BYTES_AT_ONCE, avg);
    Quotient(1000000 * BYTES_AT_ONCE, bufRate * avg);
  }

  lemma Regroup(a: nat, b: nat, c: nat)
    ensures a * (b * c) == b * a * c
  {
  }

  lemma RoundedUp(b: nat, m: nat, bufRate: nat, avg: nat)
    requires b * avg <= 500000 && 500000000000 < (m + 1) * (bufRate * avg)
    ensures b * 1000000 < bufRate * (m + 1)
  {
    Regroup(m + 1, bufRate, avg);
    Regroup(b, 1000000, avg);
    MulCancel(b * 1000000, bufRate * (m + 1), avg);
  }

  lemma RoundedDown(b: nat, m: nat, bufRate: nat, avg: nat)
    requires 500000 < (b + 1) * avg && m * (bufRate * avg) <= 500000000000
    ensures bufRate * m < (b + 1) * 1000000
  {
    Regroup(m, bufRate, avg);
    Regroup(b + 1, 1000000, avg);
    MulCancel(bufRate * m, (b + 1) * 1000000, avg);
  }

  lemma EmptyBunch(b: nat, avg: nat)
    requires b * avg <= 500000 < (b + 1) * avg
    ensures b == 0 <==> avg > 500000
  {
    if b > 0 {
      MulMonotone(1, b, avg);
    }
  }

  /** The bucket asked for: in every run the buffers sent by elapsed time `t` are
      at most `bufRate` times that time, in seconds, and one bunch. */
  ghost predicate KeepsRate(rate: Rate, bufRate: nat, t0: int) {
    forall clock: seq<Reading> :: SleepsLongEnough(Start(rate, t0), rate, clock) ==>
      WithinRate(Run(Start(rate, t0), rate, clock), rate, bufRate, t0)
  }

  predicate WithinRate(p: Pace, rate: Rate, bufRate: nat, t0: int) {
    p.bufsSent * 1000000 <= bufRate * (p.t1 - t0) + rate.buffersAtOnce * 1000000
  }

  lemma BunchesWithin(b: nat, m: nat, q: nat, bufRate: nat, sent: nat, t: nat)
    requires sent <= b * (q + 1) && q * m <= t && b * 1000000 <= bufRate * m
    ensures sent * 1000000 <= bufRate * t + b * 1000000
  {
    assert b * (q + 1) * 1000000 == q * (b * 1000000) + b * 1000000;
    assert q * (bufRate * m) == bufRate * (q * m);
    MulMonotone(b * 1000000, bufRate * m, q);
    MulMonotone(q * m, t, bufRate);
  }

  lemma {:induction false} NoPause(p: Pace, rate: Rate, r: Reading, n: nat)
    requires n <= p.countDown
    ensures var clock := seq(n, _ => r);
            && SleepsLongEnough(p, rate, clock)
            && Run(p, rate, clock) == p.(countDown := p.countDown - n, bufsSent := p.bufsSent + n)
    decreases n
  {
    var clock := seq(n, _ => r);
    if n > 0 {
      assert clock[1..] == seq(n - 1, _ => r);
      NoPause(Turn(p, rate, r), rate, r, n - 1);
    }
  }

  lemma {:induction false} RunConcat(p: Pace, rate: Rate, a: seq<Reading>, b: seq<Reading>)
    ensures Run(p, rate, a + b) == Run(Run(p, rate, a), rate, b)
    ensures SleepsLongEnough(p, rate, a + b)
            <==> SleepsLongEnough(p, rate, a) && SleepsLongEnough(Run(p, rate, a), rate, b)
    decreases |a|
  {
    hide Turn, Excess;
    if a == [] {
      assert a + b == b;
    } else {
      assert (a + b)[0] == a[0] && (a + b)[1..] == a[1..] + b;
      RunConcat(Turn(p, rate, a[0]), rate, a[1..], b);
    }
  }

  /** Two bunches with one pause that lasts exactly as long as asked. */
  lemma TwoBunches(rate: Rate, t0: int) returns (clock: seq<Reading>)
    requires rate.buffersAtOnce > 0 && rate.microSecItShouldTake > 0
    ensures SleepsLongEnough(Start(rate, t0), rate, clock)
    ensures var p := Run(Start(rate, t0), rate, clock);
            p.bufsSent == 2 * rate.buffersAtOnce && p.t1 - t0 == rate.microSecItShouldTake
  {
    hide Run, SleepsLongEnough;
    var b, r := rate.buffersAtOnce, Reading(t0, t0 + rate.microSecItShouldTake);
    var first, rest := seq(b, _ => r), seq(b - 1, _ => r);
    var p0 := Start(rate, t0);
    NoPause(p0, rate, r, b);
    var p1 := Run(p0, rate, first);
    OneTurn(p1, rate, r);
    var p2 := Turn(p1, rate, r);
    NoPause(p2, rate, r, b - 1);
    RunConcat(p1, rate, [r], rest);
    RunConcat(p0, rate, first, [r] + rest);
    clock := first + ([r] + rest);
  }

  lemma OneTurn(p: Pace, rate: Rate, r: Reading)
    ensures Run(p, rate, [r]) == Turn(p, rate, r)
    ensures SleepsLongEnough(p, rate, [r]) <==> (p.countDown <= 0 ==> r.wake >= r.t2 + Excess(p, rate, r))
  {
    assert [r][1..] == [];
  }

  /** The rate asked for is kept in every run, up to one bunch, if and only if the
      two divisions have not rounded it up. */
  lemma RateIsKeptIff(bufRate: nat, avgBufBytes: nat, t0: int)
    requires bufRate > 0 && 0 < avgBufBytes <= 500000
    requires RateOf(bufRate, avgBufBytes).microSecItShouldTake > 0
    ensures var rate := RateOf(bufRate, avgBufBytes);
            KeepsRate(rate, bufRate, t0) <==> rate.buffersAtOnce * 1000000 <= bufRate * rate.microSecItShouldTake
  {
    hide Run, SleepsLongEnough, RateOf;
    var rate := RateOf(bufRate, avgBufBytes);
    RateRounding(bufRate, avgBufBytes);
    var b, m := rate.buffersAtOnce, rate.microSecItShouldTake;
    if b * 1000000 <= bufRate * m {
      forall clock: seq<Reading> | SleepsLongEnough(Start(rate, t0), rate, clock)
        ensures WithinRate(Run(Start(rate, t0), rate, clock), rate, bufRate, t0)
      {
        var p := Run(Start(rate, t0), rate, clock);
        DebtTelescopes(rate, clock, t0);
        var t := p.t1 - t0;
        assert t >= 0 by {
          MulMonotone(0, Rounds(Start(rate, t0), rate, clock), m);
        }
        LeakyBucket(rate, clock, t0, t);
        Quotient(t, m);
        BunchesWithin(b, m, t / m, bufRate, p.bufsSent, t);
      }
    } else {
      var clock := TwoBunches(rate, t0);
      assert !WithinRate(Run(Start(rate, t0), rate, clock), rate, bufRate, t0);
    }
  }

  /** Rounded up or not, the rate kept is at most the one asked for with the bunch
      time one microsecond longer. */
  lemma RateIsNearlyKept(bufRate: nat, avgBufBytes: nat, clock: seq<Reading>, t0: int)
    requires bufRate > 0 && 0 < avgBufBytes <= 500000
    requires RateOf(bufRate, avgBufBytes).microSecItShouldTake > 0
    requires var rate := RateOf(bufRate, avgBufBytes); SleepsLongEnough(Start(rate, t0), rate, clock)
    ensures var rate := RateOf(bufRate, avgBufBytes);
            var p, m := Run(Start(rate, t0), rate, clock), rate.microSecItShouldTake;
            p.bufsSent * 1000000 <= bufRate * (m + 1) * ((p.t1 - t0) / m + 1)
  {
    hide Run, SleepsLongEnough, RateOf;
    var rate := RateOf(bufRate, avgBufBytes);
    RateRounding(bufRate, avgBufBytes);
    var p, b, m := Run(Start(rate, t0), rate, clock), rate.buffersAtOnce, rate.microSecItShouldTake;
    DebtTelescopes(rate, clock, t0);
    MulMonotone(0, Rounds(Start(rate, t0), rate, clock), m);
    var t: nat := p.t1 - t0;
    LeakyBucket(rate, clock, t0, t);
    var q := t / m;
    assert b * (q + 1) * 1000000 == b * 1000000 * (q + 1);
    MulMonotone(b * 1000000, bufRate * (m + 1), q + 1);
  }

  /** Every pause lasts exactly as long as asked, and no bunch takes longer than
      it should. */
  predicate OnTime(p: Pace, rate: Rate, clock: seq<Reading>)
    decreases |clock|
  {
    clock == [] ||
    (&& (p.countDown <= 0 ==>
          Excess(p, rate, clock[0]) >= 0 && clock[0].wake == clock[0].t2 + Excess(p, rate, clock[0]))
     && OnTime(Turn(p, rate, clock[0]), rate, clock[1..]))
  }

  lemma {:induction false} OnTimeOwesNothing(p: Pace, rate: Rate, clock: seq<Reading>)
    requires OnTime(p, rate, clock) && p.lastExcessTime == 0
    ensures SleepsLongEnough(p, rate, clock) && Run(p, rate, clock).lastExcessTime == 0
    decreases |clock|
  {
    if clock != [] {
      OnTimeOwesNothing(Turn(p, rate, clock[0]), rate, clock[1..]);
    }
  }

  /** A sender that is on time keeps up with the rate asked for: after `k` bunches
      their time is exactly up, and the buffers sent fall short of the rate by less
      than one buffer for each bunch. */
  lemma OnTimeKeepsUp(bufRate: nat, avgBufBytes: nat, clock: seq<Reading>, t0: int)
    requires bufRate > 0 && 0 < avgBufBytes <= 500000
    requires var rate := RateOf(bufRate, avgBufBytes); OnTime(Start(rate, t0), rate, clock)
    ensures var rate := RateOf(bufRate, avgBufBytes);
            var p, k := Run(Start(rate, t0), rate, clock), Rounds(Start(rate, t0), rate, clock);
            && p.t1 - t0 == k * rate.microSecItShouldTake
            && (p.bufsSent + k) * 1000000 >= bufRate * (p.t1 - t0)
  {
    hide Run, SleepsLongEnough, OnTime, RateOf;
    RateRounding(bufRate, avgBufBytes);
    var rate := RateOf(bufRate, avgBufBytes);
    var p, k := Run(Start(rate, t0), rate, clock), Rounds(Start(rate, t0), rate, clock);
    var b, m := rate.buffersAtOnce, rate.microSecItShouldTake;
    OnTimeOwesNothing(Start(rate, t0), rate, clock);
    RunKeepsBalance(Start(rate, t0), rate, clock, t0, 0);
    DownByOne(Start(rate, t0), rate, clock);
    SentAtLeast(k, b, p.bufsSent, p.countDown);
    Shortfall(bufRate, b, m, k, p.bufsSent);
  }

  lemma {:induction false} DownByOne(p: Pace, rate: Rate, clock: seq<Reading>)
    requires rate.buffersAtOnce > 0 && p.countDown <= rate.buffersAtOnce
    ensures Run(p, rate, clock).countDown <= rate.buffersAtOnce
    decreases |clock|
  {
    if clock != [] {
      DownByOne(Turn(p, rate, clock[0]), rate, clock[1..]);
    }
  }

  lemma SentAtLeast(k: nat, b: nat, sent: nat, left: int)
    requires sent + left == (k + 1) * b && left <= b
    ensures sent >= k * b
  {
    assert (k + 1) * b == k * b + b;
  }

  lemma Shortfall(bufRate: nat, b: nat, m: nat, k: nat, sent: nat)
    requires bufRate * m < (b + 1) * 1000000 && sent >= k * b
    ensures (sent + k) * 1000000 >= bufRate * (k * m)
  {
    MulMonotone(bufRate * m, (b + 1) * 1000000, k);
    assert bufRate * m * k == bufRate * (k * m);
    assert (b + 1) * 1000000 * k == (k * b + k) * 1000000;
  }

  /** Buffers larger on average than 500000 bytes make the bunch size 0. The loop
      then pauses before every buffer and sends one each time: one buffer per
      bunch time at most. */
  lemma OversizedBound(bufRate: nat, avgBufBytes: nat, clock: seq<Reading>, t0: int)
    requires bufRate > 0 && avgBufBytes > 500000
    requires var rate := RateOf(bufRate, avgBufBytes); SleepsLongEnough(Start(rate, t0), rate, clock)
    ensures var rate := RateOf(bufRate, avgBufBytes);
            var p := Run(Start(rate, t0), rate, clock);
            p.bufsSent * rate.microSecItShouldTake <= p.t1 - t0
  {
    hide Run, SleepsLongEnough, RateOf;
    RateRounding(bufRate, avgBufBytes);
    RunKeepsBalance(Start(RateOf(bufRate, avgBufBytes), t0), RateOf(bufRate, avgBufBytes), clock, t0, 0);
  }

  lemma {:induction false} ExactTurns(p: Pace, rate: Rate, n: nat) returns (clock: seq<Reading>)
    requires rate.buffersAtOnce == 0 && p.countDown <= 0 && p.lastExcessTime == 0
    ensures SleepsLongEnough(p, rate, clock)
    ensures var q := Run(p, rate, clock);
            q.bufsSent == p.bufsSent + n && q.t1 == p.t1 + n * rate.microSecItShouldTake
    decreases n
  {
    clock := [];
    if n > 0 {
      var r := Reading(p.t1, p.t1 + rate.microSecItShouldTake);
      var rest := ExactTurns(Turn(p, rate, r), rate, n - 1);
      clock := [r] + rest;
      assert clock[1..] == rest;
      assert n * rate.microSecItShouldTake == (n - 1) * rate.microSecItShouldTake + rate.microSecItShouldTake;
    }
  }

  /** And that bound is reached, by pauses exactly as long as asked: the rate kept
      is then higher than the rate asked for. */
  lemma OversizedExceedsRate(bufRate: nat, avgBufBytes: nat, n: nat, t0: int) returns (clock: seq<Reading>)
    requires bufRate > 0 && avgBufBytes > 500000 && n > 0
    ensures var rate := RateOf(bufRate, avgBufBytes);
            var p := Run(Start(rate, t0), rate, clock);
            && SleepsLongEnough(Start(rate, t0), rate, clock)
            && p.bufsSent == n && p.t1 - t0 == n * rate.microSecItShouldTake
            && p.bufsSent * 1000000 > bufRate * (p.t1 - t0)
  {
    hide Run, SleepsLongEnough, RateOf;
    RateRounding(bufRate, avgBufBytes);
    var rate := RateOf(bufRate, avgBufBytes);
    var m := rate.microSecItShouldTake;
    clock := ExactTurns(Start(rate, t0), rate, n);
    assert bufRate * (n * m) == n * (bufRate * m);
    MulMonotone(bufRate * m + 1, 1000000, n);
    assert (bufRate * m + 1) * n == n * (bufRate * m) + n;
  }

  /** The variables of the sending loop. */
  class Pacer {
    const rate: Rate
    var countDown: int
    var t1: int
    var lastExcessTime: int
    var bufsSent: nat

    ghost function State(): Pace
      reads this
    {
      Pace(countDown, t1, lastExcessTime, bufsSent)
    }

    constructor (rate: Rate, now: int)
      ensures this.rate == rate && State() == Start(rate, now)
    {
      this.rate := rate;
      countDown, t1, lastExcessTime, bufsSent := rate.buffersAtOnce, now, 0, 0;
    }

    /** One turn; `slept` is how long the loop asked to pause. */
    method SendOne(clock: Reading) returns (slept: int)
      modifies this
      ensures State() == Turn(old(State()), rate, clock)
      ensures slept == if old(countDown) > 0 then 0 else if Excess(old(State()), rate, clock) > 0
        then Excess(old(State()), rate, clock) else 0
    {
      slept := 0;
      countDown := countDown - 1;
      if countDown < 0 {
        var elapsed := clock.t2 - t1;
        var excessTime := rate.microSecItShouldTake - elapsed + lastExcessTime;
        if excessTime > 0 {
          slept := excessTime;
          t1 := clock.wake;
          elapsed := t1 - clock.t2;
          lastExcessTime := excessTime - elapsed;
        } else {
          lastExcessTime := excessTime;
          t1 := clock.t2;
        }
        countDown := rate.buffersAtOnce - 1;
      }
      bufsSent := bufsSent + 1;
    }
  }
}
