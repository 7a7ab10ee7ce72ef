/** The pool of FIFO entries behind the receiver that builds many ticks at once:
    a map from live ticks to entries, a set of free entries, and the eviction of
    ticks that fall too far behind the biggest one seen. Entries are numbered in
    the order they are made. Packet contents are not part of this model. */
module EntryPool {
  import opened Sets

  const UINT64_MAX: nat := 0xFFFF_FFFF_FFFF_FFFF
  const INITIAL_ENTRIES: nat := 10

  datatype Pool = Pool(
    buffers: map<nat, nat>, free: set<nat>, created: nat, biggestTick: nat, prevTick: nat, entry: nat)

  /** The entry a new tick gets: any free one, or a new one when none is free. */
  predicate MayTake(p: Pool, e: nat) {
    if p.free == {} then e == p.created else e in p.free
  }

  /** Finding or making the entry of a packet's tick. */
  function Select(p: Pool, tick: nat, e: nat): Pool {
    if tick == p.prevTick then p
    else if tick in p.buffers then p.(entry := p.buffers[tick], prevTick := tick)
    else p.(free := p.free - {e}, created := if p.free == {} then p.created + 1 else p.created,
            buffers := p.buffers[tick := e], entry := e,
            biggestTick := if tick > p.biggestTick then tick else p.biggestTick, prevTick := tick)
  }

  /** A tick whose buffers are all complete gives its entry back. */
  function Release(p: Pool, tick: nat): Pool {
    p.(buffers := p.buffers - {tick}, free := p.free + {p.entry})
  }

  predicate Stale(p: Pool, window: nat, tick: nat) {
    tick + window < p.biggestTick
  }

  /** Ticks too far behind give their entries back. */
  function Evict(p: Pool, window: nat): Pool {
    p.(buffers := map t | t in p.buffers && !Stale(p, window, t) :: p.buffers[t],
       free := p.free + set t | t in p.buffers && Stale(p, window, t) :: p.buffers[t])
  }

  /** One packet of an expected source: `complete` says whether it completes its
      tick for all sources, `e` which entry is taken if one is needed. */
  function After(p: Pool, window: nat, tick: nat, complete: bool, e: nat): Pool {
    var p1 := Select(p, tick, e);
    Evict(if complete then Release(p1, tick) else p1, window)
  }

  ghost predicate Step(p: Pool, window: nat, tick: nat, complete: bool, p': Pool) {
    exists e :: MayTake(p, e) && p' == After(p, window, tick, complete, e)
  }

  ghost function Start(): Pool {
    Pool(map[], Range(0, INITIAL_ENTRIES), INITIAL_ENTRIES, 0, UINT64_MAX, 0)
  }

  // ----- The invariant -----

  /** The entries of a map and the free ones are disjoint and together are all
      `n` entries made, and no entry serves two ticks. */
  ghost predicate Split(m: map<nat, nat>, free: set<nat>, n: nat) {
    && m.Values !! free
    && m.Values + free == Range(0, n)
    && Injective(m)
  }

  ghost predicate Injective(m: map<nat, nat>) {
    forall t, u :: t in m && u in m && m[t] == m[u] ==> t == u
  }

  ghost predicate Accounted(p: Pool) {
    Split(p.buffers, p.free, p.created)
  }

  /** The entry kept from the last packet belongs to its tick, or is free. */
  ghost predicate CurrentEntry(p: Pool) {
    p.prevTick != UINT64_MAX ==>
      if p.prevTick in p.buffers then p.buffers[p.prevTick] == p.entry else p.entry in p.free
  }

  ghost predicate InWindow(p: Pool, window: nat) {
    forall t <- p.buffers :: t <= p.biggestTick <= t + window
  }

  ghost predicate Inv(p: Pool, window: nat) {
    && Accounted(p) && CurrentEntry(p) && InWindow(p, window)
    && p.created <= Max(INITIAL_ENTRIES, window + 2)
  }

  function Max(a: nat, b: nat): nat {
    if a >= b then a else b
  }

  lemma StartInv(window: nat)
    ensures Inv(Start(), window)
  {
    hide Range;
    var none: map<nat, nat> := map[];
    assert none.Values == {};
  }

  lemma ValuesUpdate(m: map<nat, nat>, t: nat, e: nat)
    requires t !in m
    ensures m[t := e].Values == m.Values + {e}
  {
    var m1 := m[t := e];
    assert m1[t] == e;
    forall v | v in m.Values
      ensures v in m1.Values
    {
      var u :| u in m && m[u] == v;
      assert m1[u] == v;
    }
  }

  lemma InjectiveUpdate(m: map<nat, nat>, t: nat, e: nat)
    requires Injective(m) && t !in m && e !in m.Values
    ensures Injective(m[t := e])
  {
    assert forall u :: u in m ==> m[u] in m.Values;
  }

  lemma MoveElement(a: set<nat>, b: set<nat>, e: nat)
    requires e in b && a !! b
    ensures a + {e} !! b - {e} && (a + {e}) + (b - {e}) == a + b && e !in a
  {
  }

  lemma SplitTake(m: map<nat, nat>, free: set<nat>, n: nat, t: nat, e: nat)
    requires Split(m, free, n) && t !in m && e in free
    ensures Split(m[t := e], free - {e}, n)
  {
    hide Range, Injective;
    MoveElement(m.Values, free, e);
    InjectiveUpdate(m, t, e);
    ValuesUpdate(m, t, e);
  }

  lemma SplitMake(m: map<nat, nat>, n: nat, t: nat)
    requires Split(m, {}, n) && t !in m
    ensures Split(m[t := n], {}, n + 1)
  {
    hide Injective;
    assert n !in Range(0, n);
    InjectiveUpdate(m, t, n);
    ValuesUpdate(m, t, n);
    assert Range(0, n + 1) == Range(0, n) + {n};
  }

  function EntriesOf(m: map<nat, nat>, ts: set<nat>): set<nat> {
    set t | t in m && t in ts :: m[t]
  }

  lemma ValueKept(m: map<nat, nat>, ts: set<nat>, t: nat)
    requires t in m
    ensures t !in ts ==> m[t] in (m - ts).Values
    ensures t in ts ==> m[t] in EntriesOf(m, ts)
  {
    if t !in ts {
      assert (m - ts)[t] == m[t];
    }
  }

  lemma ValuesWithout(m: map<nat, nat>, ts: set<nat>)
    requires Injective(m)
    ensures (m - ts).Values + EntriesOf(m, ts) == m.Values
    ensures (m - ts).Values !! EntriesOf(m, ts)
  {
    var kept, gone := (m - ts).Values, EntriesOf(m, ts);
    forall v | v in m.Values
      ensures v in kept + gone
    {
      var t :| t in m && m[t] == v;
      ValueKept(m, ts, t);
    }
    forall v | v in kept
      ensures v in m.Values && v !in gone
    {
      var t :| t in m - ts && (m - ts)[t] == v;
      assert m[t] == v;
    }
  }

  lemma MoveSet(kept: set<nat>, gone: set<nat>, free: set<nat>, all: set<nat>)
    requires kept !! gone && kept + gone !! free && kept + gone + free == all
    ensures kept !! free + gone && kept + (free + gone) == all
  {
  }

  lemma InjectiveWithout(m: map<nat, nat>, ts: set<nat>)
    requires Injective(m)
    ensures Injective(m - ts)
  {
  }

  lemma SplitReturn(m: map<nat, nat>, free: set<nat>, n: nat, ts: set<nat>)
    requires Split(m, free, n)
    ensures Split(m - ts, free + EntriesOf(m, ts), n)
  {
    hide Range, Injective, EntriesOf;
    ValuesWithout(m, ts);
    InjectiveWithout(m, ts);
    MoveSet((m - ts).Values, EntriesOf(m, ts), free, Range(0, n));
  }

  lemma SelectKeeps(p: Pool, tick: nat, e: nat)
    requires Accounted(p) && CurrentEntry(p) && MayTake(p, e) && tick < UINT64_MAX
    ensures var p1 := Select(p, tick, e);
            && Accounted(p1) && CurrentEntry(p1) && p1.prevTick == tick
            && (forall t <- p1.buffers :: t in p.buffers || (t == tick && t <= p1.biggestTick))
            && p.biggestTick <= p1.biggestTick
            && (p1.created == p.created || (p1.created == p.created + 1 && p.free == {}))
  {
    hide Split;
    if tick != p.prevTick && tick !in p.buffers {
      if p.free == {} {
        SplitMake(p.buffers, p.created, tick);
        assert p.free - {e} == {};
      } else {
        SplitTake(p.buffers, p.free, p.created, tick, e);
      }
    }
  }

  lemma ReleaseKeeps(p: Pool, tick: nat)
    requires Accounted(p) && CurrentEntry(p) && p.prevTick == tick < UINT64_MAX
    ensures Accounted(Release(p, tick)) && CurrentEntry(Release(p, tick))
  {
    hide Split;
    if tick in p.buffers {
      SplitReturn(p.buffers, p.free, p.created, {tick});
      assert EntriesOf(p.buffers, {tick}) == {p.entry};
    } else {
      assert p.buffers - {tick} == p.buffers && p.free + {p.entry} == p.free;
    }
  }

  lemma EvictKeeps(p: Pool, window: nat)
    requires Accounted(p) && CurrentEntry(p)
    ensures Accounted(Evict(p, window)) && CurrentEntry(Evict(p, window))
  {
    hide Split, Range;
    var stale := set t | t in p.buffers && Stale(p, window, t);
    SplitReturn(p.buffers, p.free, p.created, stale);
    assert Evict(p, window).buffers == p.buffers - stale;
    assert Evict(p, window).free == p.free + EntriesOf(p.buffers, stale);
  }

  /** The pigeonhole: distinct live ticks within the window are at most
      `window + 1`, and so are their entries. */
  lemma LiveBound(p: Pool, window: nat)
    requires InWindow(p, window)
    ensures |p.buffers| <= window + 1
  {
    var low := if p.biggestTick >= window then p.biggestTick - window else 0;
    SubsetSize(p.buffers.Keys, Range(low, p.biggestTick + 1));
  }

  lemma {:induction false} ValuesSize(m: map<nat, nat>)
    ensures |m.Values| <= |m|
    decreases |m|
  {
    if m != map[] {
      var t :| t in m;
      var rest := m - {t};
      assert m.Keys == rest.Keys + {t};
      ValuesSize(rest);
      assert m.Values <= rest.Values + {m[t]} by {
        forall v | v in m.Values
          ensures v in rest.Values + {m[t]}
        {
          var u :| u in m && m[u] == v;
          if u != t {
            assert rest[u] == v;
          }
        }
      }
      SubsetSize(m.Values, rest.Values + {m[t]});
    } else {
      assert m.Values == {};
    }
  }

  /** Entries are made only when none is free, that is when all made are live. */
  lemma CreatedBound(p: Pool, window: nat)
    requires Accounted(p) && InWindow(p, window) && p.free == {}
    ensures p.created <= window + 1
  {
    LiveBound(p, window);
    ValuesSize(p.buffers);
    assert p.buffers.Values == Range(0, p.created);
  }

  lemma EvictedInWindow(p: Pool, p1: Pool, p2: Pool, window: nat, tick: nat)
    requires InWindow(p, window) && p.biggestTick <= p1.biggestTick == p2.biggestTick
    requires forall t <- p1.buffers :: t in p.buffers || (t == tick && t <= p1.biggestTick)
    requires p2.buffers == p1.buffers || p2.buffers == p1.buffers - {tick}
    ensures InWindow(Evict(p2, window), window)
  {
    assert forall t <- p2.buffers :: t in p1.buffers;
  }

  lemma StepKeepsInv(p: Pool, window: nat, tick: nat, complete: bool, p': Pool)
    requires Inv(p, window) && Step(p, window, tick, complete, p') && tick < UINT64_MAX
    ensures Inv(p', window)
  {
    hide Accounted, CurrentEntry, InWindow;
    var e :| MayTake(p, e) && p' == After(p, window, tick, complete, e);
    SelectKeeps(p, tick, e);
    var p1 := Select(p, tick, e);
    if complete {
      ReleaseKeeps(p1, tick);
    }
    var p2 := if complete then Release(p1, tick) else p1;
    EvictKeeps(p2, window);
    EvictedInWindow(p, p1, p2, window, tick);
    if p1.created > p.created {
      CreatedBound(p, window);
    }
  }

  ghost predicate StepOfSome(p: Pool, window: nat, p': Pool) {
    exists tick: nat, complete: bool :: Step(p, window, tick, complete, p') && tick < UINT64_MAX
  }

  ghost predicate IsRun(pools: seq<Pool>, window: nat) {
    && pools != [] && pools[0] == Start()
    && forall i :: 0 < i < |pools| ==> StepOfSome(pools[i - 1], window, pools[i])
  }

  lemma {:induction false} RunKeepsInv(pools: seq<Pool>, window: nat, k: nat)
    requires IsRun(pools, window) && k < |pools|
    ensures Inv(pools[k], window)
    decreases k
  {
    hide Inv, Step, Range;
    if k == 0 {
      StartInv(window);
    } else {
      RunKeepsInv(pools, window, k - 1);
      assert StepOfSome(pools[k - 1], window, pools[k]);
      var tick: nat, complete: bool :| Step(pools[k - 1], window, tick, complete, pools[k]) && tick < UINT64_MAX;
      StepKeepsInv(pools[k - 1], window, tick, complete, pools[k]);
    }
  }

  /** At every step end of every run, with a window of four prescales: live ticks
      lie in the window below the biggest tick, live and free entries are
      disjoint and are all entries made, at most window + 1 ticks are live, and
      at most max(10, window + 2) entries are ever made. */
  lemma PoolIsBounded(pools: seq<Pool>, tickPrescale: nat, k: nat)
    requires IsRun(pools, 4 * tickPrescale) && k < |pools|
    ensures var p := pools[k];
            && InWindow(p, 4 * tickPrescale) && Accounted(p)
            && |p.buffers| <= 4 * tickPrescale + 1
            && p.created <= Max(10, 4 * tickPrescale + 2)
  {
    hide Range;
    RunKeepsInv(pools, 4 * tickPrescale, k);
    LiveBound(pools[k], 4 * tickPrescale);
  }

  // ----- Which ticks are live -----

  /** What one packet does to a tick: it is live afterwards if and only if it was
      live or is the packet's (one that repeats the last packet's tick does not
      come back to life), is not completed by the packet, and is not behind the
      window. A tick that stays keeps its entry. */
  lemma StepLive(p: Pool, window: nat, tick: nat, complete: bool, p': Pool, t: nat)
    requires Step(p, window, tick, complete, p')
    ensures t in p'.buffers <==>
            && (t in p.buffers || (t == tick && tick != p.prevTick))
            && !(complete && t == tick)
            && t + window >= p'.biggestTick
    ensures t in p'.buffers ==>
              if t in p.buffers then p'.buffers[t] == p.buffers[t] else MayTake(p, p'.buffers[t])
  {
  }

  ghost predicate PrevSeen(p: Pool) {
    p.prevTick != UINT64_MAX ==> p.prevTick <= p.biggestTick
  }

  lemma StepBiggest(p: Pool, window: nat, tick: nat, complete: bool, p': Pool)
    requires Step(p, window, tick, complete, p') && tick < UINT64_MAX
    requires InWindow(p, window) && PrevSeen(p)
    ensures p'.biggestTick == Max(p.biggestTick, tick) && p'.prevTick == tick && PrevSeen(p')
  {
  }

  /** A packet of an expected source: its tick, and whether it completes it. */
  datatype Input = Input(tick: nat, complete: bool)

  ghost predicate IsRunOn(pools: seq<Pool>, window: nat, inputs: seq<Input>) {
    && |pools| == |inputs| + 1 && pools[0] == Start()
    && forall i :: 0 <= i < |inputs| ==>
         Step(pools[i], window, inputs[i].tick, inputs[i].complete, pools[i + 1]) && inputs[i].tick < UINT64_MAX
  }

  function Biggest(inputs: seq<Input>): nat {
    if inputs == [] then 0 else Max(Biggest(inputs[..|inputs| - 1]), inputs[|inputs| - 1].tick)
  }

  /** A packet of `t` after a packet of another tick (or first of all) made `t`
      live, and none since has completed it. */
  ghost predicate EnteredAt(inputs: seq<Input>, t: nat, i: nat) {
    && i < |inputs| && inputs[i].tick == t && (i > 0 ==> inputs[i - 1].tick != t)
    && forall j :: i <= j < |inputs| && inputs[j].tick == t ==> !inputs[j].complete
  }

  ghost predicate UnderAssembly(inputs: seq<Input>, t: nat) {
    exists i: nat :: EnteredAt(inputs, t, i)
  }

  lemma EnteredNext(before: seq<Input>, last: Input, t: nat)
    ensures UnderAssembly(before + [last], t) <==>
            && (UnderAssembly(before, t)
                || (t == last.tick && (before == [] || before[|before| - 1].tick != t)))
            && !(last.complete && t == last.tick)
  {
    var inputs := before + [last];
    if UnderAssembly(inputs, t) {
      var i: nat :| EnteredAt(inputs, t, i);
      assert inputs[|before|] == last && forall j :: 0 <= j < |before| ==> inputs[j] == before[j];
      if i < |before| {
        assert EnteredAt(before, t, i);
      }
    }
    if UnderAssembly(before, t) && !(last.complete && t == last.tick) {
      var i: nat :| EnteredAt(before, t, i);
      assert EnteredAt(inputs, t, i);
    }
    if t == last.tick && !last.complete && (before == [] || before[|before| - 1].tick != t) {
      assert EnteredAt(inputs, t, |before|);
    }
  }

  /** The ticks live after a run, from its input alone: those under assembly that
      are not behind the window below the biggest tick seen. */
  lemma {:induction false} LiveIff(pools: seq<Pool>, window: nat, inputs: seq<Input>)
    requires IsRunOn(pools, window, inputs)
    ensures var p := pools[|inputs|];
            && p.biggestTick == Biggest(inputs)
            && (inputs != [] ==> p.prevTick == inputs[|inputs| - 1].tick)
            && (forall t: nat :: t in p.buffers <==> UnderAssembly(inputs, t) && t + window >= Biggest(inputs))
            && InWindow(p, window) && PrevSeen(p)
    decreases |inputs|
  {
    hide Step, Range, UnderAssembly;
    if inputs == [] {
      NoneEntered();
    } else {
      var n := |inputs| - 1;
      var before, last := inputs[..n], inputs[n];
      assert inputs == before + [last];
      LiveIff(pools[..n + 1], window, before);
      var p, p' := pools[n], pools[n + 1];
      assert pools[..n + 1][n] == p && Step(p, window, last.tick, last.complete, p') && last.tick < UINT64_MAX;
      StepBiggest(p, window, last.tick, last.complete, p');
      forall t: nat
        ensures t in p'.buffers <==> UnderAssembly(inputs, t) && t + window >= Biggest(inputs)
        ensures t in p'.buffers ==> t <= p'.biggestTick <= t + window
      {
        StepLive(p, window, last.tick, last.complete, p', t);
        EnteredNext(before, last, t);
      }
    }
  }

  lemma NoneEntered()
    ensures forall t: nat :: !UnderAssembly([], t)
  {
  }

  // ----- The loop of getBuffers -----

  /** The bookkeeping part of `getBuffers`, one packet at a time. */
  class Assembler {
    const tickPrescale: nat
    var buffers: map<nat, nat>
    var freeEntries: set<nat>
    var created: nat
    var biggestTick: nat
    var prevTick: nat
    var entry: nat

    ghost function State(): Pool
      reads this
    {
      Pool(buffers, freeEntries, created, biggestTick, prevTick, entry)
    }

    ghost predicate Valid()
      reads this
    {
      Inv(State(), 4 * tickPrescale)
    }

    constructor (tickPrescale: nat)
      ensures Valid() && State() == Start() && this.tickPrescale == tickPrescale
    {
      hide Range;
      this.tickPrescale := tickPrescale;
      buffers, freeEntries, created := map[], {}, 0;
      biggestTick, prevTick, entry := 0, UINT64_MAX, 0;
      new;
      while created < INITIAL_ENTRIES
        invariant created <= INITIAL_ENTRIES && freeEntries == Range(0, created)
        invariant State() == Pool(map[], freeEntries, created, 0, UINT64_MAX, 0)
      {
        RangeNext(created);
        freeEntries := freeEntries + {created};
        created := created + 1;
      }
      StartInv(4 * tickPrescale);
    }

    /** Finds or makes the entry of a packet's tick; which free entry is taken is
        left to the set. */
    method SelectEntry(tick: nat) returns (ghost e: nat)
      modifies this
      ensures MayTake(old(State()), e) && State() == Select(old(State()), tick, e)
    {
      e := if freeEntries == {} then created else var f :| f in freeEntries; f;
      if tick != prevTick {
        if tick in buffers {
          entry := buffers[tick];
        } else {
          if freeEntries == {} {
            entry := created;
            created := created + 1;
          } else {
            var taken :| taken in freeEntries;
            entry := taken;
            freeEntries := freeEntries - {taken};
          }
          e := entry;
          buffers := buffers[tick := entry];
          if tick > biggestTick {
            biggestTick := tick;
          }
        }
      }
      prevTick := tick;
      assert old(freeEntries) == {} ==> old(freeEntries) - {e} == {};
    }

    /** The housekeeping loop: visits the live ticks in any order. */
    method EvictStale()
      modifies this
      ensures State() == Evict(old(State()), 4 * tickPrescale)
    {
      var window := 4 * tickPrescale;
      ghost var before := State();
      var unseen := buffers.Keys;
      while unseen != {}
        invariant unseen <= buffers.Keys
        invariant State() == before.(buffers := buffers, free := freeEntries)
        invariant buffers == map t | t in before.buffers
          && (t in unseen || !Stale(before, window, t)) :: before.buffers[t]
        invariant freeEntries ==
                  before.free + set t | t in before.buffers && t !in unseen
                    && Stale(before, window, t) :: before.buffers[t]
        decreases unseen
      {
        var tick :| tick in unseen;
        unseen := unseen - {tick};
        if tick + window < biggestTick {
          var released := buffers[tick];
          buffers := buffers - {tick};
          freeEntries := freeEntries + {released};
        }
      }
    }

    /** One packet from an expected source; `complete` is the answer to whether
        every buffer of its tick now has all its data. */
    method ProcessPacket(tick: nat, complete: bool)
      requires Valid() && tick < UINT64_MAX
      modifies this
      ensures Valid() && Step(old(State()), 4 * tickPrescale, tick, complete, State())
    {
      hide Inv;
      ghost var before := State();
      ghost var e := SelectEntry(tick);
      if complete {
        buffers := buffers - {tick};
        freeEntries := freeEntries + {entry};
      }
      EvictStale();
      assert State() == After(before, 4 * tickPrescale, tick, complete, e);
      StepKeepsInv(before, 4 * tickPrescale, tick, complete, State());
    }
  }

  lemma RangeNext(n: nat)
    ensures Range(0, n) + {n} == Range(0, n + 1) && Range(0, 0) == {}
  {
  }
}
