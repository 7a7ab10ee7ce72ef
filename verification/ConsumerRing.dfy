/** The consumer's internal queue. One receiving thread per source fills slots of
    its own ring of 1024 and pushes them onto one bounded queue shared by all
    sources; the user pops them. Slots are reused without locks. The threads and
    the user are a state machine over their atomic steps, in any order. */
module ConsumerRing {
  import opened Sets

  const QSIZE: nat := 1023
  const VECTOR_SIZE: nat := QSIZE + 1

  datatype QItem = QItem(srcId: nat, tick: nat, bufBytes: nat, dataBytes: nat, event: seq<int>)

  const EMPTY_ITEM := QItem(0, 0, 0, 0, [])

  /** A queue element: a pointer to a slot. */
  datatype Ref = Ref(src: nat, slot: nat)

  /** Where a receiving thread stands: writing its current slot, about to push
      it, or having pushed it but not yet counted it. */
  datatype Phase = Filling | Filled | Pushed

  datatype Source = Source(slots: seq<QItem>, current: nat, phase: Phase)

  /** The user is outside `getEvent`, or inside it after the pop, about to read
      the slot popped. */
  datatype User = Outside | Popped(ref: Ref)

  datatype Ring = Ring(sources: map<nat, Source>, queue: seq<Ref>, queueSize: int, user: User)

  /** `Assign` is a write of part of the current slot, which then holds `item`;
      `Fill` is the last such write. `Uncount` counts down and reads the slot popped. */
  datatype Action =
    Assign(src: nat, item: QItem) | Fill(src: nat, item: QItem) | Push(src: nat) | Count(src: nat) | Pop | Uncount

  predicate At(r: Ring, src: nat, phase: Phase) {
    src in r.sources && r.sources[src].phase == phase
  }

  function Next(current: nat): nat {
    (current + 1) % VECTOR_SIZE
  }

  /** The sources after `src` has written its current slot. */
  function Written(sources: map<nat, Source>, src: nat, item: QItem, phase: Phase): map<nat, Source>
    requires src in sources && sources[src].current < |sources[src].slots|
  {
    var s := sources[src];
    sources[src := s.(slots := s.slots[s.current := item], phase := phase)]
  }

  predicate CanWrite(r: Ring, src: nat) {
    At(r, src, Filling) && r.sources[src].current < |r.sources[src].slots|
  }

  /** One atomic step; a step the thread or user is not ready for does nothing. */
  function Step(r: Ring, a: Action): Ring {
    match a
    case Assign(src, item) => if CanWrite(r, src) then r.(sources := Written(r.sources, src, item, Filling)) else r
    case Fill(src, item) => if CanWrite(r, src) then r.(sources := Written(r.sources, src, item, Filled)) else r
    case Push(src) =>
      if At(r, src, Filled) then
        var s := r.sources[src];
        if |r.queue| < QSIZE
        then r.(sources := r.sources[src := s.(current := Next(s.current), phase := Pushed)],
                queue := r.queue + [Ref(src, s.current)])
        else r.(sources := r.sources[src := s.(phase := Filling)])
      else r
    case Count(src) =>
      if At(r, src, Pushed)
      then r.(sources := r.sources[src := r.sources[src].(phase := Filling)], queueSize := r.queueSize + 1)
      else r
    case Pop =>
      if r.user.Outside? && r.queue != [] then r.(queue := r.queue[1..], user := Popped(r.queue[0])) else r
    case Uncount =>
      if r.user.Popped? then r.(queueSize := r.queueSize - 1, user := Outside) else r
  }

  function Run(r: Ring, actions: seq<Action>): Ring
    decreases |actions|
  {
    if actions == [] then r else Run(Step(r, actions[0]), actions[1..])
  }

  function Start(ids: set<nat>): Ring {
    Ring(map src | src in ids :: Source(seq(VECTOR_SIZE, _ => EMPTY_ITEM), 0, Filling), [], 0, Outside)
  }

  /** What a queue element points at now. */
  function Item(r: Ring, ref: Ref): QItem {
    if ref.src in r.sources && ref.slot < |r.sources[ref.src].slots| then r.sources[ref.src].slots[ref.slot]
      else EMPTY_ITEM
  }

  // ----- The queued slots of a source -----

  function SlotsOf(src: nat, queue: seq<Ref>): seq<nat> {
    if queue == [] then []
    else (if queue[0].src == src then [queue[0].slot] else []) + SlotsOf(src, queue[1..])
  }

  lemma {:induction false} SlotsOfAppend(src: nat, queue: seq<Ref>, ref: Ref)
    ensures SlotsOf(src, queue + [ref]) == SlotsOf(src, queue) + if ref.src == src then [ref.slot] else []
  {
    if queue != [] {
      assert (queue + [ref])[1..] == queue[1..] + [ref];
      SlotsOfAppend(src, queue[1..], ref);
    }
  }

  lemma {:induction false} SlotsOfContains(src: nat, queue: seq<Ref>, i: nat)
    requires i < |queue| && queue[i].src == src
    ensures queue[i].slot in SlotsOf(src, queue)
  {
    if i > 0 {
      SlotsOfContains(src, queue[1..], i - 1);
    }
  }

  lemma {:induction false} SlotsOfSize(src: nat, queue: seq<Ref>)
    ensures |SlotsOf(src, queue)| <= |queue|
  {
    if queue != [] {
      SlotsOfSize(src, queue[1..]);
    }
  }

  /** The `k` ring positions that end just before `current`, in order. */
  ghost predicate EndsBefore(slots: seq<nat>, current: nat) {
    && current < VECTOR_SIZE && |slots| <= QSIZE
    && forall i :: 0 <= i < |slots| ==> slots[i] == (current - |slots| + i) % VECTOR_SIZE
  }

  // ----- The invariant of every interleaving -----

  ghost predicate Owned(r: Ring, src: nat)
    requires src in r.sources
  {
    && |r.sources[src].slots| == VECTOR_SIZE
    && EndsBefore(SlotsOf(src, r.queue), r.sources[src].current)
  }

  /** The sources that have pushed an item and not yet counted it. */
  function Pushing(sources: map<nat, Source>): set<nat> {
    set src | src in sources && sources[src].phase == Pushed
  }

  lemma PushingUpdate(sources: map<nat, Source>, src: nat, s: Source)
    requires src in sources
    ensures |Pushing(sources[src := s])| ==
            |Pushing(sources)| + (if s.phase == Pushed then 1 else 0)
            - (if sources[src].phase == Pushed then 1 else 0)
  {
    var others := Pushing(sources) - {src};
    assert Pushing(sources) == if sources[src].phase == Pushed then others + {src} else others;
    assert Pushing(sources[src := s]) == if s.phase == Pushed then others + {src} else others;
  }

  ghost predicate Inv(r: Ring) {
    && |r.queue| <= QSIZE
    && (forall ref <- r.queue :: ref.src in r.sources)
    && (forall src <- r.sources :: Owned(r, src))
    && r.queueSize == |r.queue| - |Pushing(r.sources)| + (if r.user.Popped? then 1 else 0)
  }

  lemma StartInv(ids: set<nat>)
    ensures Inv(Start(ids))
  {
    assert Pushing(Start(ids).sources) == {};
  }

  lemma NotQueued(r: Ring, src: nat)
    requires src in r.sources && Owned(r, src)
    ensures r.sources[src].current !in SlotsOf(src, r.queue)
  {
  }

  lemma PushKeeps(slots: seq<nat>, current: nat)
    requires EndsBefore(slots, current) && |slots| < QSIZE
    ensures EndsBefore(slots + [current], Next(current))
  {
    var more := slots + [current];
    forall i | 0 <= i < |more|
      ensures more[i] == (Next(current) - |more| + i) % VECTOR_SIZE
    {
      NextShift(current, |slots|, i);
    }
  }

  lemma NextShift(current: nat, k: nat, i: nat)
    requires current < VECTOR_SIZE && i <= k < QSIZE
    ensures (Next(current) - (k + 1) + i) % VECTOR_SIZE == (current - k + i) % VECTOR_SIZE
    ensures i == k ==> (current - k + i) % VECTOR_SIZE == current
  {
  }

  lemma PopKeeps(slots: seq<nat>, current: nat)
    requires EndsBefore(slots, current) && slots != []
    ensures EndsBefore(slots[1..], current)
  {
  }

  lemma StepKeepsOwned(r: Ring, a: Action, src: nat)
    requires Inv(r) && src in r.sources
    ensures src in Step(r, a).sources && Owned(Step(r, a), src)
  {
    hide EndsBefore;
    assert Owned(r, src);
    match a {
      case Push(s) =>
        if At(r, s, Filled) && |r.queue| < QSIZE {
          SlotsOfAppend(src, r.queue, Ref(s, r.sources[s].current));
          SlotsOfSize(src, r.queue);
          if s == src {
            PushKeeps(SlotsOf(src, r.queue), r.sources[src].current);
          } else {
            assert SlotsOf(src, Step(r, a).queue) == SlotsOf(src, r.queue);
          }
        }
      case Pop =>
        if r.user.Outside? && r.queue != [] {
          if r.queue[0].src == src {
            PopKeeps(SlotsOf(src, r.queue), r.sources[src].current);
            assert SlotsOf(src, r.queue)[1..] == SlotsOf(src, r.queue[1..]);
          } else {
            assert SlotsOf(src, r.queue) == SlotsOf(src, r.queue[1..]);
          }
        }
      case Assign(_, _) =>
      case Fill(_, _) =>
      case Count(_) =>
      case Uncount =>
    }
  }

  lemma StepKeepsCounter(r: Ring, a: Action)
    requires Inv(r)
    ensures var r' := Step(r, a);
            r'.queueSize == |r'.queue| - |Pushing(r'.sources)| + (if r'.user.Popped? then 1 else 0)
  {
    hide Pushing, Owned;
    match a {
      case Assign(src, item) =>
        if CanWrite(r, src) {
          PushingUpdate(r.sources, src, Written(r.sources, src, item, Filling)[src]);
        }
      case Fill(src, item) =>
        if CanWrite(r, src) {
          PushingUpdate(r.sources, src, Written(r.sources, src, item, Filled)[src]);
        }
      case Push(src) =>
        if At(r, src, Filled) {
          var s := r.sources[src];
          PushingUpdate(r.sources, src, s.(current := Next(s.current), phase := Pushed));
          PushingUpdate(r.sources, src, s.(phase := Filling));
        }
      case Count(src) =>
        if At(r, src, Pushed) {
          PushingUpdate(r.sources, src, r.sources[src].(phase := Filling));
        }
      case Pop =>
      case Uncount =>
    }
  }

  lemma StepKeepsInv(r: Ring, a: Action)
    requires Inv(r)
    ensures Inv(Step(r, a))
  {
    hide Owned, Pushing;
    StepKeepsCounter(r, a);
    forall src | src in Step(r, a).sources
      ensures Owned(Step(r, a), src)
    {
      StepKeepsOwned(r, a, src);
    }
  }

  lemma {:induction false} RunKeepsInv(r: Ring, actions: seq<Action>)
    requires Inv(r)
    ensures Inv(Run(r, actions))
    decreases |actions|
  {
    if actions != [] {
      StepKeepsInv(r, actions[0]);
      RunKeepsInv(Step(r, actions[0]), actions[1..]);
    }
  }

  /** Slot ownership in every interleaving: a source's queued slots are the
      consecutive ring positions that end just before its current slot, so the
      slot being filled is never queued. */
  lemma SlotOwnership(ids: set<nat>, actions: seq<Action>, src: nat)
    requires src in Run(Start(ids), actions).sources
    ensures var r := Run(Start(ids), actions);
            var current := r.sources[src].current;
            && EndsBefore(SlotsOf(src, r.queue), current)
            && current < |r.sources[src].slots| == 1024 && |r.queue| <= 1023
            && forall ref <- r.queue :: ref != Ref(src, current)
  {
    StartInv(ids);
    RunKeepsInv(Start(ids), actions);
    var r := Run(Start(ids), actions);
    assert Owned(r, src);
    NotQueued(r, src);
    forall i | 0 <= i < |r.queue| && r.queue[i].src == src
      ensures r.queue[i] != Ref(src, r.sources[src].current)
    {
      SlotsOfContains(src, r.queue, i);
    }
  }

  // ----- The ring is a queue of values -----

  /** The items the queue points at, in order. */
  function Values(r: Ring): seq<QItem> {
    seq(|r.queue|, i requires 0 <= i < |r.queue| => Item(r, r.queue[i]))
  }

  /** The user's hands in the reference: empty, or holding a copy of the item popped. */
  datatype Hand = Empty | Holding(item: QItem)

  /** The reference: a bounded queue that holds copies of the items, with the
      same threads and user. `filled` is what each thread has prepared. */
  datatype Fifo = Fifo(pending: seq<QItem>, filled: map<nat, QItem>, phases: map<nat, Phase>, hand: Hand)

  function FifoStep(f: Fifo, a: Action): Fifo {
    match a
    case Assign(_, _) => f
    case Fill(src, item) =>
      if src in f.phases && f.phases[src] == Filling
      then f.(filled := f.filled[src := item], phases := f.phases[src := Filled]) else f
    case Push(src) =>
      if src in f.phases && f.phases[src] == Filled && src in f.filled then
        if |f.pending| < 1023
        then f.(pending := f.pending + [f.filled[src]], phases := f.phases[src := Pushed])
        else f.(phases := f.phases[src := Filling])
      else f
    case Count(src) =>
      if src in f.phases && f.phases[src] == Pushed then f.(phases := f.phases[src := Filling]) else f
    case Pop =>
      if f.hand.Empty? && f.pending != [] then f.(pending := f.pending[1..], hand := Holding(f.pending[0])) else f
    case Uncount => f.(hand := Empty)
  }

  /** What a step shows: whether a push was accepted, that a pop found nothing,
      which item a call of `getEvent` read. */
  datatype Shown = Accepted | Refused | NoEvent | Took(item: QItem) | Nothing

  function RingShows(r: Ring, a: Action): Shown {
    match a
    case Push(src) => if !At(r, src, Filled) then Nothing else if |r.queue| < QSIZE then Accepted else Refused
    case Pop => if r.user.Outside? && r.queue == [] then NoEvent else Nothing
    case Uncount => if r.user.Popped? then Took(Item(r, r.user.ref)) else Nothing
    case _ => Nothing
  }

  function FifoShows(f: Fifo, a: Action): Shown {
    match a
    case Push(src) =>
      if !(src in f.phases && f.phases[src] == Filled && src in f.filled) then Nothing
      else if |f.pending| < 1023 then Accepted else Refused
    case Pop => if f.hand.Empty? && f.pending == [] then NoEvent else Nothing
    case Uncount => if f.hand.Holding? then Took(f.hand.item) else Nothing
    case _ => Nothing
  }

  function RingTrace(r: Ring, actions: seq<Action>): seq<Shown>
    decreases |actions|
  {
    if actions == [] then [] else [RingShows(r, actions[0])] + RingTrace(Step(r, actions[0]), actions[1..])
  }

  function FifoTrace(f: Fifo, actions: seq<Action>): seq<Shown>
    decreases |actions|
  {
    if actions == [] then [] else [FifoShows(f, actions[0])] + FifoTrace(FifoStep(f, actions[0]), actions[1..])
  }

  /** A write of the slot that the user has popped and not yet read. */
  predicate Clobbers(r: Ring, a: Action) {
    (a.Assign? || a.Fill?) && CanWrite(r, a.src) && r.user == Popped(Ref(a.src, r.sources[a.src].current))
  }

  /** What has become of the slot popped last since it was popped. */
  datatype Fate = Untouched | Rewritten(item: QItem)

  function Track(r: Ring, fate: Fate, a: Action): Fate {
    if Clobbers(r, a) then Rewritten(a.item) else if a.Pop? && r.user.Outside? then Untouched else fate
  }

  /** The slot a thread has filled or is about to push holds what it prepared. */
  ghost predicate Prepared(s: Source, src: nat, f: Fifo) {
    && src in f.phases && f.phases[src] == s.phase
    && (s.phase == Filled ==> src in f.filled && s.current < |s.slots| && s.slots[s.current] == f.filled[src])
  }

  ghost predicate SameThreads(r: Ring, f: Fifo) {
    && r.sources.Keys == f.phases.Keys
    && forall src <- r.sources :: Prepared(r.sources[src], src, f)
  }

  /** The slot in the user's hands holds the item popped, or what it was rewritten to. */
  ghost predicate InHand(r: Ring, f: Fifo, fate: Fate) {
    && f.hand.Holding? == r.user.Popped?
    && (r.user.Popped? ==> Item(r, r.user.ref) == if fate.Rewritten? then fate.item else f.hand.item)
  }

  ghost predicate Refines(r: Ring, f: Fifo, fate: Fate) {
    Values(r) == f.pending && SameThreads(r, f) && InHand(r, f, fate)
  }

  lemma WriteElsewhere(r: Ring, a: Action, ref: Ref)
    requires a.Assign? || a.Fill?
    requires a.src in r.sources ==> ref != Ref(a.src, r.sources[a.src].current)
    ensures Item(Step(r, a), ref) == Item(r, ref)
  {
  }

  /** The slot being written is not queued, so writing it changes no queued item. */
  lemma FillChangesNoValue(r: Ring, a: Action)
    requires Inv(r) && (a.Assign? || a.Fill?)
    ensures Values(Step(r, a)) == Values(r)
  {
    hide EndsBefore, Pushing, Item, Owned;
    var r' := Step(r, a);
    assert r'.queue == r.queue;
    forall i | 0 <= i < |r.queue|
      ensures Item(r', r.queue[i]) == Item(r, r.queue[i])
    {
      if r.queue[i].src == a.src && a.src in r.sources {
        assert Owned(r, a.src);
        SlotsOfContains(a.src, r.queue, i);
        NotQueued(r, a.src);
      }
      WriteElsewhere(r, a, r.queue[i]);
    }
  }

  /** A step that writes no slot leaves every slot's item. */
  lemma ItemsStay(r: Ring, a: Action, ref: Ref)
    requires !a.Assign? && !a.Fill?
    ensures Item(Step(r, a), ref) == Item(r, ref)
  {
  }

  lemma PushAppendsValue(r: Ring, src: nat)
    requires At(r, src, Filled)
    ensures Values(Step(r, Push(src))) ==
            if |r.queue| < QSIZE then Values(r) + [Item(r, Ref(src, r.sources[src].current))] else Values(r)
  {
    hide Item;
    forall ref
      ensures Item(Step(r, Push(src)), ref) == Item(r, ref)
    {
      ItemsStay(r, Push(src), ref);
    }
  }

  lemma OtherValues(r: Ring, a: Action)
    requires a.Count? || a.Uncount? || a.Pop?
    ensures |Values(r)| == |r.queue| && (r.queue != [] ==> Values(r)[0] == Item(r, r.queue[0]))
    ensures Values(Step(r, a)) == if a.Pop? && r.user.Outside? && r.queue != [] then Values(r)[1..] else Values(r)
  {
    hide Item;
    forall ref
      ensures Item(Step(r, a), ref) == Item(r, ref)
    {
      ItemsStay(r, a, ref);
    }
  }

  lemma SlotCount(r: Ring, src: nat)
    requires Inv(r)
    ensures src in r.sources ==> r.sources[src].current < |r.sources[src].slots|
  {
    assert src in r.sources ==> Owned(r, src);
  }

  lemma CurrentItem(r: Ring, src: nat)
    requires src in r.sources && r.sources[src].current < |r.sources[src].slots|
    ensures Item(r, Ref(src, r.sources[src].current)) == r.sources[src].slots[r.sources[src].current]
  {
  }

  lemma WriteRefines(r: Ring, f: Fifo, fate: Fate, a: Action)
    requires Inv(r) && Refines(r, f, fate) && (a.Assign? || a.Fill?)
    ensures Refines(Step(r, a), FifoStep(f, a), Track(r, fate, a))
  {
    hide Values, Inv, SameThreads, InHand;
    FillChangesNoValue(r, a);
    SlotCount(r, a.src);
    WriteKeepsThreads(r, f, a);
    WriteKeepsHand(r, f, fate, a);
  }

  lemma WriteKeepsThreads(r: Ring, f: Fifo, a: Action)
    requires SameThreads(r, f) && (a.Assign? || a.Fill?)
    requires a.src in r.sources ==> r.sources[a.src].current < |r.sources[a.src].slots|
    ensures SameThreads(Step(r, a), FifoStep(f, a)) && FifoStep(f, a).pending == f.pending
  {
  }

  lemma WriteKeepsHand(r: Ring, f: Fifo, fate: Fate, a: Action)
    requires InHand(r, f, fate) && (a.Assign? || a.Fill?)
    ensures InHand(Step(r, a), FifoStep(f, a), Track(r, fate, a))
  {
    if r.user.Popped? && !Clobbers(r, a) && CanWrite(r, a.src) {
      WriteElsewhere(r, a, r.user.ref);
    }
  }

  lemma PushRefines(r: Ring, f: Fifo, fate: Fate, src: nat)
    requires Inv(r) && Refines(r, f, fate)
    ensures RingShows(r, Push(src)) == FifoShows(f, Push(src))
    ensures Refines(Step(r, Push(src)), FifoStep(f, Push(src)), fate)
  {
    hide Values, Inv, Item;
    OtherValues(r, Pop);
    if At(r, src, Filled) {
      SlotCount(r, src);
      CurrentItem(r, src);
      PushAppendsValue(r, src);
      if r.user.Popped? {
        ItemsStay(r, Push(src), r.user.ref);
      }
    }
  }

  lemma OtherRefines(r: Ring, f: Fifo, fate: Fate, a: Action)
    requires Refines(r, f, fate) && (a.Count? || a.Uncount? || a.Pop?)
    ensures !a.Uncount? ==> RingShows(r, a) == FifoShows(f, a)
    ensures Refines(Step(r, a), FifoStep(f, a), Track(r, fate, a))
  {
    hide Values, Item;
    OtherValues(r, a);
    if r.user.Popped? {
      ItemsStay(r, a, r.user.ref);
    } else if r.queue != [] {
      ItemsStay(r, a, r.queue[0]);
    }
  }

  /** One step keeps the ring and the queue of copies related, and shows the same
      unless it reads a slot that was rewritten to another item since its pop. */
  lemma StepRefines(r: Ring, f: Fifo, fate: Fate, a: Action)
    requires Inv(r) && Refines(r, f, fate)
    ensures Refines(Step(r, a), FifoStep(f, a), Track(r, fate, a))
    ensures RingShows(r, a) == FifoShows(f, a) <==> ReadsIntact(f, fate, a)
  {
    hide Values, Inv, Item, SameThreads;
    match a {
      case Assign(_, _) => WriteRefines(r, f, fate, a);
      case Fill(_, _) => WriteRefines(r, f, fate, a);
      case Push(src) => PushRefines(r, f, fate, src);
      case Count(_) => OtherRefines(r, f, fate, a);
      case Pop => OtherRefines(r, f, fate, a);
      case Uncount => OtherRefines(r, f, fate, a);
    }
  }

  /** A read, if this is one, finds the slot untouched, or rewritten last with
      an equal item. */
  predicate ReadsIntact(f: Fifo, fate: Fate, a: Action) {
    a.Uncount? && f.hand.Holding? && fate.Rewritten? ==> fate.item == f.hand.item
  }

  predicate AllReadsIntact(r: Ring, f: Fifo, fate: Fate, actions: seq<Action>)
    decreases |actions|
  {
    actions == [] ||
    (&& ReadsIntact(f, fate, actions[0])
     && AllReadsIntact(Step(r, actions[0]), FifoStep(f, actions[0]), Track(r, fate, actions[0]), actions[1..]))
  }

  /** The main theorem: in every interleaving of the receiving threads and the
      user, the ring of reused slots accepts, refuses and hands out exactly what a
      bounded queue of copied items would, if and only if no call of `getEvent`
      reads a slot that, between its pop and its read, was last rewritten with
      another item. */
  lemma {:induction false} RingIsFifoIff(r: Ring, f: Fifo, fate: Fate, actions: seq<Action>)
    requires Inv(r) && Refines(r, f, fate)
    ensures RingTrace(r, actions) == FifoTrace(f, actions) <==> AllReadsIntact(r, f, fate, actions)
    decreases |actions|
  {
    hide Inv, Refines, RingShows, FifoShows, ReadsIntact, Step, FifoStep, Track;
    if actions != [] {
      var a := actions[0];
      StepKeepsInv(r, a);
      StepRefines(r, f, fate, a);
      RingIsFifoIff(Step(r, a), FifoStep(f, a), Track(r, fate, a), actions[1..]);
      HeadAndTail(RingShows(r, a), RingTrace(Step(r, a), actions[1..]),
                  FifoShows(f, a), FifoTrace(FifoStep(f, a), actions[1..]));
    }
  }

  lemma HeadAndTail<T>(x: T, xs: seq<T>, y: T, ys: seq<T>)
    ensures [x] + xs == [y] + ys <==> x == y && xs == ys
  {
    assert ([x] + xs)[1..] == xs && ([y] + ys)[1..] == ys;
    assert ([x] + xs)[0] == x && ([y] + ys)[0] == y;
  }

  function FifoStart(ids: set<nat>): Fifo {
    Fifo([], map[], map src | src in ids :: Filling, Empty)
  }

  lemma RingIsFifoFromStart(ids: set<nat>, actions: seq<Action>)
    ensures RingTrace(Start(ids), actions) == FifoTrace(FifoStart(ids), actions)
            <==> AllReadsIntact(Start(ids), FifoStart(ids), Untouched, actions)
  {
    StartInv(ids);
    RingIsFifoIff(Start(ids), FifoStart(ids), Untouched, actions);
  }

  /** No write meets the slot in the user's hands. */
  predicate Clean(r: Ring, actions: seq<Action>)
    decreases |actions|
  {
    actions == [] || (!Clobbers(r, actions[0]) && Clean(Step(r, actions[0]), actions[1..]))
  }

  lemma {:induction false} CleanReadsIntact(r: Ring, f: Fifo, actions: seq<Action>)
    requires Clean(r, actions)
    ensures AllReadsIntact(r, f, Untouched, actions)
    decreases |actions|
  {
    hide Step, FifoStep, Clobbers;
    if actions != [] {
      CleanReadsIntact(Step(r, actions[0]), FifoStep(f, actions[0]), actions[1..]);
    }
  }

  /** In particular, when no thread comes round to a slot between its pop and its
      read, each source's items come out in the order pushed, with the data pushed. */
  lemma CleanRunsAreFifo(ids: set<nat>, actions: seq<Action>)
    requires Clean(Start(ids), actions)
    ensures RingTrace(Start(ids), actions) == FifoTrace(FifoStart(ids), actions)
  {
    CleanReadsIntact(Start(ids), FifoStart(ids), actions);
    RingIsFifoFromStart(ids, actions);
  }

  // ----- The manual size counter -----

  /** In every reachable state the counter is within one of the queue's length
      upwards and within the number of sources downwards, and exact when no
      thread is between its push and its count and the user is outside. */
  lemma CounterBounds(ids: set<nat>, actions: seq<Action>)
    ensures var r := Run(Start(ids), actions);
            && |r.queue| - |r.sources| <= r.queueSize <= |r.queue| + 1
            && (Pushing(r.sources) == {} && r.user.Outside? ==> r.queueSize == |r.queue|)
  {
    StartInv(ids);
    RunKeepsInv(Start(ids), actions);
    var r := Run(Start(ids), actions);
    SubsetSize(Pushing(r.sources), r.sources.Keys);
  }

  // ----- How long a popped item stays intact -----

  /** The number of pushes of `src` accepted during a run. */
  function PushesOf(src: nat, r: Ring, actions: seq<Action>): nat
    decreases |actions|
  {
    if actions == [] then 0
    else (if actions[0] == Push(src) && RingShows(r, actions[0]) == Accepted then 1 else 0)
         + PushesOf(src, Step(r, actions[0]), actions[1..])
  }

  /** How many slots ahead of a source's current slot a slot lies. */
  function Distance(r: Ring, ref: Ref): nat
    requires ref.src in r.sources
  {
    (ref.slot - r.sources[ref.src].current) % VECTOR_SIZE
  }

  ghost predicate Slot(r: Ring, ref: Ref) {
    && ref.src in r.sources && ref.slot < VECTOR_SIZE
    && |r.sources[ref.src].slots| == VECTOR_SIZE && r.sources[ref.src].current < VECTOR_SIZE
  }

  lemma DistanceMoves(slot: nat, current: nat)
    requires slot < VECTOR_SIZE && current < VECTOR_SIZE && slot != current
    ensures (slot - Next(current)) % VECTOR_SIZE == (slot - current) % VECTOR_SIZE - 1
  {
  }

  lemma DistanceZero(slot: nat, current: nat)
    requires slot < VECTOR_SIZE && current < VECTOR_SIZE
    ensures (slot - current) % VECTOR_SIZE == 0 <==> slot == current
  {
  }

  lemma StepMoves(r: Ring, a: Action, ref: Ref)
    requires Slot(r, ref) && PushesOf(ref.src, r, [a]) <= Distance(r, ref)
    ensures var r' := Step(r, a);
            && Slot(r', ref)
            && Distance(r', ref) == Distance(r, ref) - PushesOf(ref.src, r, [a])
            && (Distance(r, ref) > 0 ==> Item(r', ref) == Item(r, ref))
  {
    DistanceZero(ref.slot, r.sources[ref.src].current);
    if Distance(r, ref) > 0 {
      DistanceMoves(ref.slot, r.sources[ref.src].current);
    }
  }

  lemma {:induction false} RunMoves(r: Ring, actions: seq<Action>, ref: Ref)
    requires Slot(r, ref) && PushesOf(ref.src, r, actions) <= Distance(r, ref)
    ensures var r', left := Run(r, actions), Distance(r, ref) - PushesOf(ref.src, r, actions);
            && Slot(r', ref)
            && Distance(r', ref) == left
            && (left > 0 ==> Item(r', ref) == Item(r, ref))
    decreases |actions|
  {
    hide Step, Slot, Distance, Item, RingShows;
    if actions != [] {
      assert [actions[0]][1..] == [];
      StepMoves(r, actions[0], ref);
      RunMoves(Step(r, actions[0]), actions[1..], ref);
    }
  }

  /** After a pop with `k` slots of the source still queued, the popped slot lies
      1023 - k slots ahead of the one being filled. */
  lemma PoppedDistance(r: Ring)
    requires Inv(r) && r.user.Outside? && r.queue != []
    ensures var ref, r' := r.queue[0], Step(r, Pop);
            && Slot(r', ref)
            && Distance(r', ref) == QSIZE - |SlotsOf(ref.src, r'.queue)|
            && |SlotsOf(ref.src, r'.queue)| < QSIZE
  {
    var ref := r.queue[0];
    assert ref in r.queue && Owned(r, ref.src);
    var slots := SlotsOf(ref.src, r.queue);
    assert slots == [ref.slot] + SlotsOf(ref.src, r.queue[1..]);
    assert slots[0] == ref.slot;
    DistanceOf(r.sources[ref.src].current, |slots|);
  }

  lemma DistanceOf(current: nat, k: nat)
    requires current < VECTOR_SIZE && 0 < k <= QSIZE
    ensures ((current - k) % VECTOR_SIZE - current) % VECTOR_SIZE == VECTOR_SIZE - k
  {
  }

  /** The number of pushes a popped item's source has left before it reaches the
      item's slot again: 1023 less the slots of that source queued at the pop. */
  function Grace(r: Ring): int
    requires r.queue != []
  {
    1023 - |SlotsOf(r.queue[0].src, r.queue[1..])|
  }

  /** Exact stability: in any interleaving a popped item stays as it was popped
      while its source makes fewer than `Grace` further accepted pushes, and the
      source's current slot is the popped one exactly when it has made `Grace`;
      if the thread is then ready to write, its next write replaces the item. */
  lemma PoppedItemStable(r: Ring, actions: seq<Action>, item: QItem)
    requires Inv(r) && r.user.Outside? && r.queue != []
    requires PushesOf(r.queue[0].src, Step(r, Pop), actions) <= Grace(r)
    ensures var ref, r' := r.queue[0], Run(Step(r, Pop), actions);
            var pushes := PushesOf(ref.src, Step(r, Pop), actions);
            && ref.src in r'.sources
            && (pushes < Grace(r) ==> Item(r', ref) == Item(r, ref))
            && (r'.sources[ref.src].current == ref.slot <==> pushes == Grace(r))
            && (pushes == Grace(r) && At(r', ref.src, Filling) ==> Item(Step(r', Fill(ref.src, item)), ref) == item)
  {
    hide Run, PushesOf, SlotsOf, Inv;
    PoppedDistance(r);
    var ref, r1 := r.queue[0], Step(r, Pop);
    RunMoves(r1, actions, ref);
    DistanceZero(ref.slot, Run(r1, actions).sources[ref.src].current);
  }

  // ----- Can that happen without another pop? -----

  ghost predicate NoPop(actions: seq<Action>) {
    Pop !in actions
  }

  ghost predicate NoRead(actions: seq<Action>) {
    Uncount !in actions
  }

  lemma {:induction false} PushesFillQueue(r: Ring, actions: seq<Action>, src: nat)
    requires NoPop(actions) && |r.queue| <= QSIZE
    ensures |r.queue| + PushesOf(src, r, actions) <= QSIZE
    decreases |actions|
  {
    if actions != [] {
      assert actions[0] in actions && forall a <- actions[1..] :: a in actions;
      PushesFillQueue(Step(r, actions[0]), actions[1..], src);
    }
  }

  /** A run without pops that brings the thread to the slot and rewrites it. */
  lemma {:induction false} Rewrite(r: Ring, ref: Ref, item: QItem) returns (actions: seq<Action>)
    requires Slot(r, ref) && |r.queue| + Distance(r, ref) <= QSIZE
    requires r.sources[ref.src].phase == Filled ==> Distance(r, ref) > 0
    ensures NoPop(actions) && NoRead(actions) && Item(Run(r, actions), ref) == item
    decreases Distance(r, ref), match r.sources[ref.src].phase case Pushed => 2 case Filling => 1 case Filled => 0
  {
    var s := r.sources[ref.src];
    DistanceZero(ref.slot, s.current);
    var a := match s.phase case Pushed => Count(ref.src) case Filling => Fill(ref.src, item)
      case Filled => Push(ref.src);
    var r' := Step(r, a);
    if s.phase.Filling? && Distance(r, ref) == 0 {
      actions := [a];
      assert Run(r', actions[1..]) == r';
    } else {
      assert [a][1..] == [];
      StepMoves(r, a, ref);
      var rest := Rewrite(r', ref, item);
      actions := [a] + rest;
      assert actions[1..] == rest;
    }
  }

  ghost predicate CanChange(r: Ring, ref: Ref) {
    exists actions :: NoPop(actions) && Item(Run(r, actions), ref) != Item(r, ref)
  }

  /** A popped item can be overwritten before the next call of `getEvent` if and
      only if everything left in the queue is from its own source. */
  lemma OverwrittenWithoutPop(r: Ring)
    requires Inv(r) && r.user.Outside? && r.queue != []
    ensures var ref, r1 := r.queue[0], Step(r, Pop);
            CanChange(r1, ref) <==> |SlotsOf(ref.src, r1.queue)| == |r1.queue|
  {
    hide SlotsOf, Run, Inv, Item;
    PoppedDistance(r);
    var ref, r1 := r.queue[0], Step(r, Pop);
    SlotsOfSize(ref.src, r1.queue);
    QueueBound(r);
    if |SlotsOf(ref.src, r1.queue)| == |r1.queue| {
      var popped := Item(r1, ref);
      var actions := Rewrite(r1, ref, popped.(tick := popped.tick + 1));
    } else {
      forall actions | NoPop(actions)
        ensures Item(Run(r1, actions), ref) == Item(r1, ref)
      {
        PushesFillQueue(r1, actions, ref.src);
        RunMoves(r1, actions, ref);
      }
    }
  }

  /** Until it is read, the slot popped stays in the user's hands and nothing else
      is popped. */
  lemma {:induction false} HeldUntilRead(r: Ring, actions: seq<Action>, src: nat)
    requires NoRead(actions) && r.user.Popped? && |r.queue| <= QSIZE
    ensures Run(r, actions).user == r.user
    ensures |r.queue| + PushesOf(src, r, actions) <= QSIZE
    decreases |actions|
  {
    if actions != [] {
      assert actions[0] in actions && forall a <- actions[1..] :: a in actions;
      HeldUntilRead(Step(r, actions[0]), actions[1..], src);
    }
  }

  ghost predicate CanMisread(r: Ring, ref: Ref) {
    exists actions :: NoRead(actions) && RingShows(Run(r, actions), Uncount) != Took(Item(r, ref))
  }

  /** A call of `getEvent` can itself hand out another item than it popped if and
      only if everything it left in the queue is from that item's own source. */
  lemma MisreadIff(r: Ring)
    requires Inv(r) && r.user.Outside? && r.queue != []
    ensures var ref, r1 := r.queue[0], Step(r, Pop);
            CanMisread(r1, ref) <==> |SlotsOf(ref.src, r1.queue)| == |r1.queue|
  {
    hide SlotsOf, Run, Inv, Item;
    PoppedDistance(r);
    var ref, r1 := r.queue[0], Step(r, Pop);
    SlotsOfSize(ref.src, r1.queue);
    QueueBound(r);
    if |SlotsOf(ref.src, r1.queue)| == |r1.queue| {
      var popped := Item(r1, ref);
      var actions := Rewrite(r1, ref, popped.(tick := popped.tick + 1));
      HeldUntilRead(r1, actions, ref.src);
    } else {
      forall actions | NoRead(actions)
        ensures RingShows(Run(r1, actions), Uncount) == Took(Item(r1, ref))
      {
        HeldUntilRead(r1, actions, ref.src);
        RunMoves(r1, actions, ref);
      }
    }
  }

  lemma QueueBound(r: Ring)
    requires Inv(r)
    ensures |r.queue| <= QSIZE
  {
  }
}
