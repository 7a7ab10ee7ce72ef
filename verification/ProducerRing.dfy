/** The producer's send queue: the caller writes into a ring of 2048 items and
    pushes them onto a queue of at most 2047; one thread pops, sends, and then
    runs the item's callback. The caller and the thread interleave freely. */
module ProducerRing {

  const QSIZE: nat := 2047
  const ARRAYSIZE: nat := QSIZE + 1

  datatype QItem = QItem(bytes: nat, tick: nat, event: seq<int>, callback: nat, cbArg: nat)

  /** `Idle`: waiting to pop; `Taken`: popped, not sent; `Sent`: sent, callback not run. */
  datatype Sender = Idle | Taken(slot: nat) | Sent(slot: nat) {
    predicate InFlight() {
      !Idle?
    }
  }

  /** `written` is true between the assignments of an add and its push. */
  datatype Ring = Ring(items: seq<QItem>, current: nat, queue: seq<nat>, written: bool, sender: Sender)

  datatype Action = Write(item: QItem) | Enqueue | Take | Transmit | RunCallback

  function Step(r: Ring, a: Action): Ring {
    match a
    case Write(item) =>
      if !r.written && r.current < |r.items| then r.(items := r.items[r.current := item], written := true) else r
    case Enqueue =>
      if !r.written then r
      else if |r.queue| < QSIZE
      then r.(queue := r.queue + [r.current], current := (r.current + 1) % ARRAYSIZE, written := false)
      else r.(written := false)
    case Take => if r.sender.Idle? && r.queue != [] then r.(sender := Taken(r.queue[0]), queue := r.queue[1..]) else r
    case Transmit => if r.sender.Taken? then r.(sender := Sent(r.sender.slot)) else r
    case RunCallback => if r.sender.Sent? then r.(sender := Idle) else r
  }

  function Run(r: Ring, actions: seq<Action>): Ring
    decreases |actions|
  {
    if actions == [] then r else Run(Step(r, actions[0]), actions[1..])
  }

  function Start(items: seq<QItem>): Ring {
    Ring(items, 0, [], false, Idle)
  }

  /** The queued slots are the ring positions that end just before the current
      one, and the slot in flight is the one just before those. */
  ghost predicate Inv(r: Ring) {
    && |r.items| == ARRAYSIZE && r.current < ARRAYSIZE && |r.queue| <= QSIZE
    && (forall i :: 0 <= i < |r.queue| ==> r.queue[i] == (r.current - |r.queue| + i) % ARRAYSIZE)
    && (r.sender.InFlight() ==> r.sender.slot == (r.current - |r.queue| - 1) % ARRAYSIZE)
  }

  lemma Shift(current: nat, k: nat, i: int)
    requires current < ARRAYSIZE && k < QSIZE && -1 <= i <= k
    ensures ((current + 1) % ARRAYSIZE - (k + 1) + i) % ARRAYSIZE == (current - k + i) % ARRAYSIZE
    ensures i == k ==> (current - k + i) % ARRAYSIZE == current
  {
  }

  lemma EnqueueKeepsInv(r: Ring)
    requires Inv(r)
    ensures Inv(Step(r, Enqueue))
  {
    if r.written && |r.queue| < QSIZE {
      var r' := Step(r, Enqueue);
      var k := |r.queue|;
      forall i | 0 <= i < |r'.queue|
        ensures r'.queue[i] == (r'.current - |r'.queue| + i) % ARRAYSIZE
      {
        Shift(r.current, k, i);
      }
      Shift(r.current, k, -1);
    }
  }

  lemma TakeKeepsInv(r: Ring)
    requires Inv(r)
    ensures Inv(Step(r, Take))
  {
    if r.sender.Idle? && r.queue != [] {
      var r' := Step(r, Take);
      assert forall i :: 0 <= i < |r'.queue| ==> r'.queue[i] == r.queue[i + 1];
    }
  }

  lemma StepKeepsInv(r: Ring, a: Action)
    requires Inv(r)
    ensures Inv(Step(r, a))
  {
    match a {
      case Write(_) =>
      case Enqueue => EnqueueKeepsInv(r);
      case Take => TakeKeepsInv(r);
      case Transmit =>
      case RunCallback =>
    }
  }

  lemma {:induction false} RunKeepsInv(r: Ring, actions: seq<Action>)
    requires Inv(r)
    ensures Inv(Run(r, actions))
    decreases |actions|
  {
    if actions != [] {
      StepKeepsInv(r, actions[0]);
      RunKeepsInv(Step(r, actions[0]), actions[1..]);
    }
  }

  /** In every reachable state the slot an add writes is not queued, and it is
      the slot in flight exactly when the queue is full; the push that follows
      is then refused unless the thread has finished that item and popped
      another. */
  lemma WrittenSlot(items: seq<QItem>, actions: seq<Action>)
    requires |items| == ARRAYSIZE
    ensures var r := Run(Start(items), actions);
            && r.current < ARRAYSIZE && r.current !in r.queue
            && (r.sender.InFlight() ==> (r.current == r.sender.slot <==> |r.queue| == 2047))
            && (|r.queue| == 2047 ==> Step(r.(written := true), Enqueue).queue == r.queue)
  {
    RunKeepsInv(Start(items), actions);
    var r := Run(Start(items), actions);
    forall i | 0 <= i < |r.queue|
      ensures r.queue[i] != r.current
    {
    }
  }

  // ----- Against a queue of copies -----

  /** The reference: a queue that holds copies; `prepared` is what the add in
      progress wrote, `flying` the item popped. */
  datatype Fifo = Fifo(pending: seq<QItem>, prepared: QItem, written: bool, sender: Sender, flying: QItem)

  function FifoStep(f: Fifo, a: Action): Fifo {
    match a
    case Write(item) => if !f.written then f.(prepared := item, written := true) else f
    case Enqueue =>
      if !f.written then f
      else if |f.pending| < 2047 then f.(pending := f.pending + [f.prepared], written := false)
      else f.(written := false)
    case Take =>
      if f.sender.Idle? && f.pending != []
      then f.(sender := Taken(0), flying := f.pending[0], pending := f.pending[1..]) else f
    case Transmit => if f.sender.Taken? then f.(sender := Sent(0)) else f
    case RunCallback => if f.sender.Sent? then f.(sender := Idle) else f
  }

  /** What a step shows: the answer of an add, the data sent, the callback run. */
  datatype Shown = Added(ok: bool) | Data(event: seq<int>, bytes: nat, tick: nat) | Called(callback: nat,
        cbArg: nat) | Nothing

  function DataOf(item: QItem): Shown {
    Data(item.event, item.bytes, item.tick)
  }

  function CallOf(item: QItem): Shown {
    if item.callback == 0 then Nothing else Called(item.callback, item.cbArg)
  }

  function RingShows(r: Ring, a: Action): Shown {
    match a
    case Enqueue => if r.written then Added(|r.queue| < QSIZE) else Nothing
    case Transmit => if r.sender.Taken? && r.sender.slot < |r.items| then DataOf(r.items[r.sender.slot]) else Nothing
    case RunCallback => if r.sender.Sent? && r.sender.slot < |r.items| then CallOf(r.items[r.sender.slot]) else Nothing
    case _ => Nothing
  }

  function FifoShows(f: Fifo, a: Action): Shown {
    match a
    case Enqueue => if f.written then Added(|f.pending| < 2047) else Nothing
    case Transmit => if f.sender.Taken? then DataOf(f.flying) else Nothing
    case RunCallback => if f.sender.Sent? then CallOf(f.flying) else Nothing
    case _ => Nothing
  }

  ghost predicate Refines(r: Ring, f: Fifo) {
    && |f.pending| == |r.queue| && r.written == f.written
    && r.sender.Idle? == f.sender.Idle? && r.sender.Taken? == f.sender.Taken?
    && r.current < |r.items|
    && (forall i :: 0 <= i < |r.queue| ==> r.queue[i] < |r.items| && r.items[r.queue[i]] == f.pending[i])
    && (r.written ==> r.items[r.current] == f.prepared)
    && (r.sender.InFlight() ==> r.sender.slot < |r.items| && r.items[r.sender.slot] == f.flying)
  }

  /** An add that starts writing while the queue is full and an item is in flight. */
  predicate Clobbers(r: Ring, a: Action) {
    a.Write? && !r.written && r.sender.InFlight() && |r.queue| == QSIZE
  }

  lemma CurrentIsFree(r: Ring)
    requires Inv(r)
    ensures r.current < |r.items| && forall i :: 0 <= i < |r.queue| ==> r.queue[i] != r.current
    ensures r.sender.InFlight() ==> (r.sender.slot == r.current <==> |r.queue| == QSIZE)
  {
  }

  lemma WriteRefines(r: Ring, f: Fifo, item: QItem)
    requires Inv(r) && Refines(r, f) && !Clobbers(r, Write(item))
    ensures Refines(Step(r, Write(item)), FifoStep(f, Write(item)))
  {
    hide Inv;
    CurrentIsFree(r);
  }

  lemma NextInRange(current: nat)
    ensures (current + 1) % ARRAYSIZE < ARRAYSIZE
  {
  }

  lemma EnqueueRefines(r: Ring, f: Fifo)
    requires Refines(r, f) && |r.items| == ARRAYSIZE
    ensures Refines(Step(r, Enqueue), FifoStep(f, Enqueue))
  {
    NextInRange(r.current);
  }

  lemma StepRefines(r: Ring, f: Fifo, a: Action)
    requires Inv(r) && Refines(r, f) && !Clobbers(r, a)
    ensures RingShows(r, a) == FifoShows(f, a)
    ensures Refines(Step(r, a), FifoStep(f, a))
  {
    hide Inv, Clobbers;
    ItemCount(r);
    match a {
      case Write(item) => WriteRefines(r, f, item);
      case Enqueue => EnqueueRefines(r, f);
      case Take =>
      case Transmit =>
      case RunCallback =>
    }
  }

  lemma ItemCount(r: Ring)
    requires Inv(r)
    ensures |r.items| == ARRAYSIZE
  {
  }

  function RingTrace(r: Ring, actions: seq<Action>): seq<Shown>
    decreases |actions|
  {
    if actions == [] then [] else [RingShows(r, actions[0])] + RingTrace(Step(r, actions[0]), actions[1..])
  }

  function FifoTrace(f: Fifo, actions: seq<Action>): seq<Shown>
    decreases |actions|
  {
    if actions == [] then [] else [FifoShows(f, actions[0])] + FifoTrace(FifoStep(f, actions[0]), actions[1..])
  }

  predicate Clean(r: Ring, actions: seq<Action>)
    decreases |actions|
  {
    actions == [] || (!Clobbers(r, actions[0]) && Clean(Step(r, actions[0]), actions[1..]))
  }

  /** In every interleaving in which no add starts while the queue is full and an
      item is in flight, adds are answered, data sent and callbacks run exactly
      as by a bounded queue of copied items. */
  lemma {:induction false} CleanRunsAreFifo(r: Ring, f: Fifo, actions: seq<Action>)
    requires Inv(r) && Refines(r, f) && Clean(r, actions)
    ensures RingTrace(r, actions) == FifoTrace(f, actions)
    decreases |actions|
  {
    hide Inv, Refines;
    if actions != [] {
      StepKeepsInv(r, actions[0]);
      StepRefines(r, f, actions[0]);
      CleanRunsAreFifo(Step(r, actions[0]), FifoStep(f, actions[0]), actions[1..]);
    }
  }

  lemma RunCons(r: Ring, a: Action, rest: seq<Action>)
    ensures Run(r, [a] + rest) == Run(Step(r, a), rest)
  {
    assert ([a] + rest)[1..] == rest;
  }

  /** Such moments are reachable: one item popped, then 2047 more added. */
  lemma {:induction false} FillQueue(r: Ring, item: QItem) returns (actions: seq<Action>)
    requires Inv(r) && r.sender.InFlight() && !r.written
    ensures Clobbers(Run(r, actions), Write(item))
    decreases QSIZE - |r.queue|
  {
    hide Inv;
    if |r.queue| == QSIZE {
      actions := [];
    } else {
      CurrentIsFree(r);
      QueueBound(r);
      var r1 := Step(r, Write(item));
      var r2 := Step(r1, Enqueue);
      StepKeepsInv(r, Write(item));
      StepKeepsInv(r1, Enqueue);
      var rest := FillQueue(r2, item);
      RunCons(r1, Enqueue, rest);
      RunCons(r, Write(item), [Enqueue] + rest);
      actions := [Write(item)] + ([Enqueue] + rest);
    }
  }

  lemma QueueBound(r: Ring)
    requires Inv(r)
    ensures |r.queue| <= QSIZE
  {
  }

  lemma ClobberingIsReachable(items: seq<QItem>, item: QItem) returns (actions: seq<Action>)
    requires |items| == ARRAYSIZE
    ensures Clobbers(Run(Start(items), actions), Write(item))
  {
    var r1 := Step(Start(items), Write(item));
    var r2 := Step(r1, Enqueue);
    var r3 := Step(r2, Take);
    RunKeepsInv(Start(items), []);
    StepKeepsInv(Start(items), Write(item));
    StepKeepsInv(r1, Enqueue);
    StepKeepsInv(r2, Take);
    var rest := FillQueue(r3, item);
    RunCons(r2, Take, rest);
    RunCons(r1, Enqueue, [Take] + rest);
    RunCons(Start(items), Write(item), [Enqueue] + ([Take] + rest));
    actions := [Write(item)] + ([Enqueue] + ([Take] + rest));
  }

  /** What the thread still has to show for the item in flight. */
  function RingFinishes(r: Ring): seq<Shown> {
    if r.sender.Taken? then [RingShows(r, Transmit), RingShows(Step(r, Transmit), RunCallback)]
      else [RingShows(r, RunCallback)]
  }

  function FifoFinishes(f: Fifo): seq<Shown> {
    if f.sender.Taken? then [FifoShows(f, Transmit), FifoShows(FifoStep(f, Transmit), RunCallback)]
      else [FifoShows(f, RunCallback)]
  }

  /** The other half: an add that starts at such a moment is refused, and yet the
      data sent (if not sent before) and the callback run for the item in flight
      become those of the refused add, where the copying queue shows the item's
      own. So the two differ as soon as the two items do. */
  lemma RefusedAddReplacesItemInFlight(r: Ring, f: Fifo, item: QItem)
    requires Inv(r) && Refines(r, f) && Clobbers(r, Write(item))
    ensures RingShows(Step(r, Write(item)), Enqueue) == Added(false)
    ensures var r2, f2 := Step(Step(r, Write(item)), Enqueue), FifoStep(FifoStep(f, Write(item)), Enqueue);
            && RingFinishes(r2) ==
               (if r.sender.Taken? then [Data(item.event, item.bytes, item.tick)] else []) + [CallOf(item)]
            && FifoFinishes(f2) ==
               (if r.sender.Taken? then [Data(f.flying.event, f.flying.bytes, f.flying.tick)] else [])
               + [CallOf(f.flying)]
  {
    hide Inv;
    CurrentIsFree(r);
  }

  // ----- What is added is what is sent -----

  function FifoRun(f: Fifo, actions: seq<Action>): Fifo
    decreases |actions|
  {
    if actions == [] then f else FifoRun(FifoStep(f, actions[0]), actions[1..])
  }

  /** The items of the adds that were accepted, in order. */
  function Adds(f: Fifo, actions: seq<Action>): seq<QItem>
    decreases |actions|
  {
    if actions == [] then []
    else (if actions[0].Enqueue? && f.written && |f.pending| < 2047 then [f.prepared] else [])
         + Adds(FifoStep(f, actions[0]), actions[1..])
  }

  function Sends(trace: seq<Shown>): seq<Shown> {
    if trace == [] then [] else (if trace[0].Data? then [trace[0]] else []) + Sends(trace[1..])
  }

  function Calls(trace: seq<Shown>): seq<Shown> {
    if trace == [] then [] else (if trace[0].Called? then [trace[0]] else []) + Calls(trace[1..])
  }

  /** What sending the items shows: each one's data, size and event number. */
  function AsData(items: seq<QItem>): seq<Shown> {
    seq(|items|, i requires 0 <= i < |items| => Data(items[i].event, items[i].bytes, items[i].tick))
  }

  /** And then: each one's callback with its argument, if it has one. */
  function AsCalls(items: seq<QItem>): seq<Shown> {
    if items == [] then []
    else (if items[0].callback == 0 then [] else [Called(items[0].callback, items[0].cbArg)]) + AsCalls(items[1..])
  }

  lemma {:induction false} AsCallsConcat(a: seq<QItem>, b: seq<QItem>)
    ensures AsCalls(a + b) == AsCalls(a) + AsCalls(b)
  {
    if a == [] {
      assert a + b == b;
    } else {
      assert (a + b)[1..] == a[1..] + b;
      AsCallsConcat(a[1..], b);
    }
  }

  lemma AsDataConcat(a: seq<QItem>, b: seq<QItem>)
    ensures AsData(a + b) == AsData(a) + AsData(b)
  {
  }

  function Unsent(f: Fifo): seq<QItem> {
    (if f.sender.Taken? then [f.flying] else []) + f.pending
  }

  function Uncalled(f: Fifo): seq<QItem> {
    (if f.sender.InFlight() then [f.flying] else []) + f.pending
  }

  function NewItems(f: Fifo, a: Action): seq<QItem> {
    if a.Enqueue? && f.written && |f.pending| < 2047 then [f.prepared] else []
  }

  function ShownData(f: Fifo, a: Action): seq<Shown> {
    if FifoShows(f, a).Data? then [FifoShows(f, a)] else []
  }

  function ShownCalls(f: Fifo, a: Action): seq<Shown> {
    if FifoShows(f, a).Called? then [FifoShows(f, a)] else []
  }

  lemma StepConservesData(f: Fifo, a: Action)
    ensures AsData(Unsent(f) + NewItems(f, a)) == ShownData(f, a) + AsData(Unsent(FifoStep(f, a)))
  {
    hide AsData;
    var f' := FifoStep(f, a);
    if a.Transmit? && f.sender.Taken? {
      assert Unsent(f) + NewItems(f, a) == [f.flying] + Unsent(f');
      AsDataConcat([f.flying], Unsent(f'));
      OneAsData(f.flying);
    } else {
      assert Unsent(f) + NewItems(f, a) == Unsent(f');
      assert [] + AsData(Unsent(f')) == AsData(Unsent(f'));
    }
  }

  lemma StepConservesCalls(f: Fifo, a: Action)
    ensures AsCalls(Uncalled(f) + NewItems(f, a)) == ShownCalls(f, a) + AsCalls(Uncalled(FifoStep(f, a)))
  {
    hide AsCalls;
    var f' := FifoStep(f, a);
    if a.RunCallback? && f.sender.Sent? {
      assert Uncalled(f) + NewItems(f, a) == [f.flying] + Uncalled(f');
      AsCallsConcat([f.flying], Uncalled(f'));
      OneAsCalls(f.flying);
    } else {
      assert Uncalled(f) + NewItems(f, a) == Uncalled(f');
      assert [] + AsCalls(Uncalled(f')) == AsCalls(Uncalled(f'));
    }
  }

  lemma OneAsData(item: QItem)
    ensures AsData([item]) == [Data(item.event, item.bytes, item.tick)]
  {
  }

  lemma OneAsCalls(item: QItem)
    ensures AsCalls([item]) == if item.callback == 0 then [] else [Called(item.callback, item.cbArg)]
  {
    var none: seq<QItem> := [];
    assert [item][1..] == none;
  }

  lemma Chain<T>(owed: seq<T>, rest: seq<T>, shown: seq<T>, next: seq<T>, later: seq<T>, end: seq<T>)
    requires owed == shown + next && next + rest == later + end
    ensures owed + rest == (shown + later) + end
  {
    Regroup(shown, next, rest);
    Regroup(shown, later, end);
  }

  /** Conservation: the items waiting and those added are the items sent, in
      order, and those still waiting; and likewise for their callbacks. */
  lemma {:induction false} FifoConserves(f: Fifo, actions: seq<Action>)
    ensures var trace, end := FifoTrace(f, actions), FifoRun(f, actions);
            && AsData(Unsent(f) + Adds(f, actions)) == Sends(trace) + AsData(Unsent(end))
            && AsCalls(Uncalled(f) + Adds(f, actions)) == Calls(trace) + AsCalls(Uncalled(end))
    decreases |actions|
  {
    hide FifoStep, AsData, AsCalls, Unsent, Uncalled, NewItems, ShownData, ShownCalls, Sends, Calls;
    if actions == [] {
      assert Unsent(f) + [] == Unsent(f) && Uncalled(f) + [] == Uncalled(f);
      NothingShown();
      assert [] + AsData(Unsent(f)) == AsData(Unsent(f)) && [] + AsCalls(Uncalled(f)) == AsCalls(Uncalled(f));
    } else {
      var a, f' := actions[0], FifoStep(f, actions[0]);
      var rest, trace := Adds(f', actions[1..]), FifoTrace(f', actions[1..]);
      var added, end := NewItems(f, a), FifoRun(f', actions[1..]);
      FifoConserves(f', actions[1..]);
      AddsHead(f, actions);
      TraceHead(f, a, trace);
      StepConservesData(f, a);
      Regroup(Unsent(f), added, rest);
      AsDataConcat(Unsent(f) + added, rest);
      AsDataConcat(Unsent(f'), rest);
      Chain(AsData(Unsent(f) + added), AsData(rest), ShownData(f, a), AsData(Unsent(f')), Sends(trace),
            AsData(Unsent(end)));
      StepConservesCalls(f, a);
      Regroup(Uncalled(f), added, rest);
      AsCallsConcat(Uncalled(f) + added, rest);
      AsCallsConcat(Uncalled(f'), rest);
      Chain(AsCalls(Uncalled(f) + added), AsCalls(rest), ShownCalls(f, a), AsCalls(Uncalled(f')), Calls(trace),
            AsCalls(Uncalled(end)));
    }
  }

  lemma NothingShown()
    ensures Sends([]) == [] && Calls([]) == []
  {
  }

  lemma AddsHead(f: Fifo, actions: seq<Action>)
    requires actions != []
    ensures Adds(f, actions) == NewItems(f, actions[0]) + Adds(FifoStep(f, actions[0]), actions[1..])
  {
    hide FifoStep;
  }

  lemma Regroup<T>(a: seq<T>, b: seq<T>, c: seq<T>)
    ensures a + (b + c) == (a + b) + c
  {
  }

  lemma TraceHead(f: Fifo, a: Action, trace: seq<Shown>)
    ensures Sends([FifoShows(f, a)] + trace) == ShownData(f, a) + Sends(trace)
    ensures Calls([FifoShows(f, a)] + trace) == ShownCalls(f, a) + Calls(trace)
  {
    hide FifoShows;
    assert ([FifoShows(f, a)] + trace)[1..] == trace;
  }

  const FIFO_START := Fifo([], QItem(0, 0, [], 0, 0), false, Idle, QItem(0, 0, [], 0, 0))

  /** From the start, in every interleaving without clobbering: what the thread
      sends, and the callbacks it runs, are those of the adds accepted, in order
      and field by field; what is missing at the end is still waiting. */
  lemma SendsAreAdds(items: seq<QItem>, actions: seq<Action>)
    requires |items| == ARRAYSIZE && Clean(Start(items), actions)
    ensures var trace, end := RingTrace(Start(items), actions), FifoRun(FIFO_START, actions);
            && AsData(Adds(FIFO_START, actions)) == Sends(trace) + AsData(Unsent(end))
            && AsCalls(Adds(FIFO_START, actions)) == Calls(trace) + AsCalls(Uncalled(end))
  {
    hide AsData, AsCalls, RingTrace, FifoTrace, Adds, FifoRun, Clean;
    StartRefines(items);
    CleanRunsAreFifo(Start(items), FIFO_START, actions);
    FifoConserves(FIFO_START, actions);
    assert Unsent(FIFO_START) + Adds(FIFO_START, actions) == Adds(FIFO_START, actions);
    assert Uncalled(FIFO_START) + Adds(FIFO_START, actions) == Adds(FIFO_START, actions);
  }

  lemma StartRefines(items: seq<QItem>)
    requires |items| == ARRAYSIZE
    ensures Inv(Start(items)) && Refines(Start(items), FIFO_START)
  {
  }
}
