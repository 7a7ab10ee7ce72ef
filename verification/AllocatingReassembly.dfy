/** The allocating variant of the reassembly machine: a packet without room
    doubles the buffer once and is then stored, whether or not it fits. */
module AllocatingReassembly {
  import opened Headers
  import opened Reassembly
  import opened ReassemblySafety

  const MAX_EJFAT_MTU: nat := 9000

  /** The buffer length a call starts with. */
  function InitialLength(isNull: bool, bufLen: nat): nat {
    if isNull && bufLen == 0 then 100000
    else if bufLen < MAX_EJFAT_MTU then MAX_EJFAT_MTU
    else bufLen
  }

  lemma InitialLengthSupplied(bufLen: nat)
    requires bufLen >= MAX_EJFAT_MTU
    ensures InitialLength(false, bufLen) == bufLen
  {
  }

  function Grown(cap: nat, p: Packet): nat {
    if p.End() > cap then 2 * cap else cap
  }

  datatype AllocStep = AllocStep(step: Step, cap: nat)

  function OnPacketAlloc(s: Rx, p: Packet, cap: nat): AllocStep {
    match Classify(s, p)
    case Fault => AllocStep(Done(Failed(DIVIDE_BY_ZERO), s), cap)
    case Skip(s1) => AllocStep(More(s1), cap)
    case Store(s1) =>
      var cap1 := Grown(cap, p);
      AllocStep(if p.End() > cap1 then Done(Failed(OVERRUN), s1) else Commit(s1, p), cap1)
  }

  /** One turn of the allocating loop. */
  function NextAlloc(rx: Rx, r: Recv, cap: nat): AllocStep {
    var s := TopOfLoop(rx);
    if r.RecvError? then AllocStep(Done(Failed(RECV_MSG), s), cap)
    else if |r.bytes| < RE_HEADER_BYTES then AllocStep(Done(Failed(INTERNAL_ERROR), s), cap)
    else OnPacketAlloc(s, Parse(r), cap)
  }

  datatype AllocResult = AllocResult(run: RunResult, cap: nat)

  function RunAlloc(rx: Rx, stream: seq<Recv>, cap: nat): AllocResult
    decreases |stream|
  {
    if stream == [] then AllocResult(RunResult(Waiting, rx, []), cap)
    else
      var a := NextAlloc(rx, stream[0], cap);
      match a.step
      case More(s) => RunAlloc(s, stream[1..], a.cap)
      case Done(result, s) => AllocResult(RunResult(result, s, stream[1..]), a.cap)
  }

  lemma RunAllocEnd(rx: Rx, cap: nat)
    ensures RunAlloc(rx, [], cap) == AllocResult(RunResult(Waiting, rx, []), cap)
  {
  }

  lemma RunAllocStep(rx: Rx, stream: seq<Recv>, cap: nat)
    requires stream != []
    ensures var a := NextAlloc(rx, stream[0], cap);
            match a.step
            case More(s) => RunAlloc(rx, stream, cap) == RunAlloc(s, stream[1..], a.cap)
            case Done(result, s) => RunAlloc(rx, stream, cap) == AllocResult(RunResult(result, s, stream[1..]), a.cap)
  {
  }

  lemma NextAllocOnPacket(rx: Rx, r: Recv, p: Packet, v: Verdict, cap: nat)
    requires IsPacket(r) && p == Parse(r) && v == Classify(TopOfLoop(rx), p)
    ensures NextAlloc(rx, r, cap) ==
            match v
            case Fault => AllocStep(Done(Failed(DIVIDE_BY_ZERO), TopOfLoop(rx)), cap)
            case Skip(s) => AllocStep(More(s), cap)
            case Store(s) =>
              AllocStep(if p.End() > Grown(cap, p) then Done(Failed(OVERRUN), s) else Commit(s, p), Grown(cap, p))
  {
  }

  lemma NextAllocOnError(rx: Rx, r: Recv, cap: nat)
    requires !IsPacket(r)
    ensures NextAlloc(rx, r, cap) ==
            AllocStep(Done(Failed(if r.RecvError? then RECV_MSG else INTERNAL_ERROR), TopOfLoop(rx)), cap)
  {
  }

  // ----- What doubling once per packet amounts to -----

  /** The capacity after storing the given packets, doubling as needed. */
  function CapAfter(cap: nat, ws: seq<Packet>): nat
    decreases |ws|
  {
    if ws == [] then cap else CapAfter(Grown(cap, ws[0]), ws[1..])
  }

  /** No packet reaches beyond twice the capacity it finds. */
  predicate RoomOk(cap: nat, ws: seq<Packet>)
    decreases |ws|
  {
    ws == [] || (ws[0].End() <= 2 * cap && RoomOk(Grown(cap, ws[0]), ws[1..]))
  }

  ghost predicate Ample(room: nat, stream: seq<Recv>) {
    forall r <- stream :: IsPacket(r) ==> Parse(r).End() <= room
  }

  /** One step of the two machines side by side. */
  lemma StepSimulates(rx: Rx, r: Recv, cap: nat, room: nat)
    requires IsPacket(r) ==> Parse(r).End() <= room
    ensures var a, n := NextAlloc(rx, r, cap), Next(rx, r, room);
            if n.rx.writes == rx.writes then a.step == n && a.cap == cap
            else
              var p := Parse(r);
              && IsPacket(r) && n.rx.writes == rx.writes + [p]
              && a.cap == Grown(cap, p)
              && if p.End() <= 2 * cap then a.step == n
                 else a.step.Done? && a.step.result == Failed(OVERRUN)
  {
    hide Classify, Parse, Next, NextAlloc, TopOfLoop;
    if IsPacket(r) {
      var p := Parse(r);
      var v := Classify(TopOfLoop(rx), p);
      ClassifyKeepsWrites(rx, p);
      NextOnPacket(rx, r, p, v, room);
      NextAllocOnPacket(rx, r, p, v, cap);
    } else {
      NextOnError(rx, r, room);
      NextAllocOnError(rx, r, cap);
      NextFromTop(rx, r, room);
    }
  }

  lemma RoomFor(cap: nat, p: Packet, later: seq<Packet>)
    ensures RoomOk(cap, [p] + later) <==> p.End() <= 2 * cap && RoomOk(Grown(cap, p), later)
    ensures CapAfter(cap, [p] + later) == CapAfter(Grown(cap, p), later)
  {
    assert ([p] + later)[1..] == later;
  }

  /** The two runs side by side; `news` is what the one with ample room stores. */
  ghost predicate Simulates(rx: Rx, stream: seq<Recv>, cap: nat, room: nat, news: seq<Packet>) {
    var a, r := RunAlloc(rx, stream, cap), Run(rx, stream, room);
    && r.rx.writes == rx.writes + news
    && if RoomOk(cap, news) then a.run == r && a.cap == CapAfter(cap, news) else a.run.result == Failed(OVERRUN)
  }

  /** A step that stores nothing, then `later`. */
  lemma SkipSimulates(rx: Rx, stream: seq<Recv>, cap: nat, room: nat, later: seq<Packet>)
    requires stream != []
    requires var a, n := NextAlloc(rx, stream[0], cap), Next(rx, stream[0], room);
             && a.step == n && a.cap == cap && n.rx.writes == rx.writes
             && (if n.More? then Simulates(n.rx, stream[1..], cap, room, later) else later == [])
    ensures Simulates(rx, stream, cap, room, later)
  {
    hide Next, NextAlloc, Run, RunAlloc, RoomOk, CapAfter;
    RunStep(rx, stream, room);
    RunAllocStep(rx, stream, cap);
    NoRoomNeeded(cap);
  }

  /** A step that stores `p`, then `later`. */
  lemma StoreSimulates(rx: Rx, stream: seq<Recv>, cap: nat, room: nat, p: Packet, later: seq<Packet>)
    requires stream != []
    requires var a, n := NextAlloc(rx, stream[0], cap), Next(rx, stream[0], room);
             && n.rx.writes == rx.writes + [p] && a.cap == Grown(cap, p)
             && (if p.End() <= 2 * cap then a.step == n else a.step.Done? && a.step.result == Failed(OVERRUN))
             && (if n.More? then Simulates(n.rx, stream[1..], a.cap, room, later) else later == [])
    ensures Simulates(rx, stream, cap, room, [p] + later)
  {
    hide Next, NextAlloc, Run, RunAlloc, RoomOk, CapAfter, Grown;
    RunStep(rx, stream, room);
    RunAllocStep(rx, stream, cap);
    RoomFor(cap, p, later);
    NoRoomNeeded(Grown(cap, p));
    ThenAlso(rx.writes, p, later);
  }

  lemma ThenAlso<T>(s: seq<T>, p: T, later: seq<T>)
    ensures (s + [p]) + later == s + ([p] + later)
    ensures later == [] ==> s + [p] == s + ([p] + later)
  {
  }

  lemma {:induction false} SimulationSteps(rx: Rx, stream: seq<Recv>, cap: nat, room: nat)
    returns (news: seq<Packet>)
    requires Ample(room, stream)
    ensures Simulates(rx, stream, cap, room, news)
    decreases |stream|
  {
    hide Next, NextAlloc, Parse, Simulates, Grown;
    news := [];
    if stream == [] {
      NoneSimulates(rx, cap, room);
    } else {
      assert stream[0] in stream && forall r <- stream[1..] :: r in stream;
      StepSimulates(rx, stream[0], cap, room);
      var a, n := NextAlloc(rx, stream[0], cap), Next(rx, stream[0], room);
      if n.More? {
        news := SimulationSteps(n.rx, stream[1..], a.cap, room);
      }
      if n.rx.writes == rx.writes {
        SkipSimulates(rx, stream, cap, room, news);
      } else {
        StoreSimulates(rx, stream, cap, room, Parse(stream[0]), news);
        news := [Parse(stream[0])] + news;
      }
    }
  }

  lemma NoneSimulates(rx: Rx, cap: nat, room: nat)
    ensures Simulates(rx, [], cap, room, [])
  {
    assert rx.writes + [] == rx.writes;
  }

  lemma NoRoomNeeded(cap: nat)
    ensures RoomOk(cap, []) && CapAfter(cap, []) == cap
  {
  }

  /** The allocating routine goes out of bounds exactly when some packet stored
      by the fixed routine with ample room reaches beyond twice the capacity the
      doublings so far have given. Otherwise it does what that routine does:
      same result, tick, source and counts, same packets stored, same input
      read; and its capacity has been doubled once per packet that needed it. */
  lemma AllocatingSimulatesFixed(stream: seq<Recv>, cap: nat, room: nat)
    requires Ample(room, stream)
    ensures var a, r := RunAlloc(RX_START, stream, cap), Run(RX_START, stream, room);
            && (a.run.result == Failed(OVERRUN) <==> !RoomOk(cap, r.rx.writes))
            && (a.run.result != Failed(OVERRUN) ==> a.run == r && a.cap == CapAfter(cap, r.rx.writes))
  {
    hide Run, RunAlloc, RoomOk, CapAfter;
    var news := SimulationSteps(RX_START, stream, cap, room);
    ResultNotOverrun(RX_START, stream, room);
    assert Run(RX_START, stream, room).rx.writes == [] + news == news;
  }

  lemma {:induction false} ResultNotOverrun(rx: Rx, stream: seq<Recv>, bufLen: nat)
    ensures Run(rx, stream, bufLen).result != Failed(OVERRUN)
    decreases |stream|
  {
    if stream != [] {
      var step := Next(rx, stream[0], bufLen);
      if step.More? {
        ResultNotOverrun(step.rx, stream[1..], bufLen);
      }
    }
  }

  lemma NextAllocIsFixed(rx: Rx, r: Recv, cap: nat, room: nat)
    ensures var a := NextAlloc(rx, r, cap);
            && a.cap >= cap
            && (!(a.step.Done? && a.step.result == Failed(OVERRUN)) && room >= a.cap ==> Next(rx, r, room) == a.step)
  {
  }

  /** Without an overrun the call is also the fixed call on a buffer of the
      final capacity or more, so everything proved of fixed calls applies. */
  lemma {:induction false} AllocatingIsFixed(rx: Rx, stream: seq<Recv>, cap: nat, room: nat)
    ensures var a := RunAlloc(rx, stream, cap);
            && a.cap >= cap
            && (a.run.result != Failed(OVERRUN) && room >= a.cap ==> Run(rx, stream, room) == a.run)
    decreases |stream|
  {
    hide NextAlloc, Next;
    if stream != [] {
      NextAllocIsFixed(rx, stream[0], cap, room);
      RunStep(rx, stream, room);
      RunAllocStep(rx, stream, cap);
      var a := NextAlloc(rx, stream[0], cap);
      if a.step.More? {
        AllocatingIsFixed(a.step.rx, stream[1..], a.cap, room);
      }
    }
  }

  /** Safety carries over: what the allocating call returns is a sent event. */
  lemma AllocatedReturnsSentEvent(sent: map<Key, seq<byte>>, stream: seq<Recv>, cap: nat, initial: seq<byte>)
    requires Honest(sent, stream)
    requires |initial| == RunAlloc(RX_START, stream, cap).cap
    ensures var r := RunAlloc(RX_START, stream, cap).run;
            r.result.Built? ==>
              var key := (r.result.dataId, r.result.tick);
              && key in sent
              && r.result.bytes == |sent[key]| <= |initial|
              && WriteAll(initial, r.rx.writes)[..r.result.bytes] == sent[key]
  {
    AllocatingIsFixed(RX_START, stream, cap, |initial|);
    CallReturnsSentEvent(sent, stream, initial);
  }

  // ----- Growth -----

  ghost predicate Fits(ws: seq<Packet>, len: nat) {
    forall p <- ws :: p.End() <= len
  }

  lemma FitsNone(len: nat)
    ensures Fits([], len)
  {
  }

  lemma FitsNext(ws: seq<Packet>, p: Packet, len: nat)
    requires Fits(ws, len) && p.End() <= len
    ensures Fits(ws + [p], len)
  {
  }

  lemma FitsMore(ws: seq<Packet>, len: nat, more: nat)
    requires Fits(ws, len) && len <= more
    ensures Fits(ws, more)
  {
  }

  /** Growing a buffer keeps what was stored: earlier bytes survive. */
  lemma {:induction false} GrowthKeepsBytes(buf: seq<byte>, extra: seq<byte>, ws: seq<Packet>)
    requires Fits(ws, |buf|)
    ensures WriteAll(buf + extra, ws) == WriteAll(buf, ws) + extra
  {
    if ws != [] {
      var init := ws[..|ws| - 1];
      assert ws == init + [ws[|ws| - 1]];
      GrowthKeepsBytes(buf, extra, init);
    } else {
    }
  }

  // ----- In-order input -----

  /** In-order input from one source: each packet fits one jumbo frame and starts
      an event or continues where the previous one ended. The first packet may lie
      anywhere in its event, as after a call that failed; packets may be missing at
      the end of an event, not inside it. */
  ghost predicate InOrder(stream: seq<Recv>) {
    && stream != [] && IsPacket(stream[0])
    && |Parse(stream[0]).payload| <= 9000
    && InOrderAfter(Parse(stream[0]), stream[1..])
  }

  ghost predicate InOrderAfter(prev: Packet, stream: seq<Recv>)
    decreases |stream|
  {
    stream == [] ||
    (&& IsPacket(stream[0])
     && var p := Parse(stream[0]);
     && |p.payload| <= 9000
     && p.dataId == prev.dataId
     && (p.offset == 0 || Continues(prev, p))
     && InOrderAfter(p, stream[1..]))
  }

  predicate Continues(p: Packet, q: Packet) {
    p.SameEvent(q) && q.offset == p.End()
  }

  /** `prev` is the packet read last: it has been stored, or its tick is being dumped. */
  ghost predicate Caught(rx: Rx, prev: Packet, cap: nat) {
    && (rx.veryFirstRead ==> rx.dumpTick && rx.prevTick == prev.tick)
    && (!rx.veryFirstRead ==> rx.prevTick == prev.tick && rx.srcId == prev.dataId && prev.End() <= cap)
  }

  lemma {:induction false} InOrderFits(rx: Rx, prev: Packet, stream: seq<Recv>, cap: nat)
    requires cap >= MAX_EJFAT_MTU && Caught(rx, prev, cap)
    requires InOrderAfter(prev, stream)
    ensures RunAlloc(rx, stream, cap).run.result != Failed(OVERRUN)
    decreases |stream|
  {
    if stream != [] {
      var p := Parse(stream[0]);
      var a := NextAlloc(rx, stream[0], cap);
      if a.step.More? {
        InOrderFits(a.step.rx, p, stream[1..], a.cap);
      }
    }
  }

  /** In-order input with payloads of at most 9000 bytes overruns the allocating
      routine in one case only: its first packet has data, bears the tick that
      `prevTick` starts with, so that its offset is not looked at, and ends beyond
      twice the initial buffer. */
  lemma InOrderOverrunsIff(stream: seq<Recv>, isNull: bool, bufLen: nat)
    requires InOrder(stream)
    ensures var p, cap := Parse(stream[0]), InitialLength(isNull, bufLen);
            RunAlloc(RX_START, stream, cap).run.result == Failed(OVERRUN)
            <==> p.payload != [] && p.tick == 4294967295 && p.End() > 2 * cap
  {
    hide InOrderAfter, Parse, RunAlloc;
    var p, cap := Parse(stream[0]), InitialLength(isNull, bufLen);
    var a := NextAlloc(RX_START, stream[0], cap);
    RunAllocStep(RX_START, stream, cap);
    if a.step.More? {
      InOrderFits(a.step.rx, p, stream[1..], a.cap);
    }
  }

  // ----- The size of the buffer handed out -----

  /** The buffer stays as it is if and only if everything stored fits it. */
  lemma {:induction false} StaysIff(cap: nat, ws: seq<Packet>)
    requires cap > 0
    ensures CapAfter(cap, ws) >= cap
    ensures CapAfter(cap, ws) == cap <==> Fits(ws, cap)
    decreases |ws|
  {
    if ws != [] {
      StaysIff(Grown(cap, ws[0]), ws[1..]);
      assert ws == [ws[0]] + ws[1..];
    }
  }

  /** Which buffer a call hands out: without a buffer or a length, one of 100000
      bytes, if and only if that much is never exceeded; with a length below 9000,
      one of 9000; with a larger one, one of that length. */
  lemma HandsOutIff(stream: seq<Recv>, isNull: bool, bufLen: nat)
    ensures var start := if isNull && bufLen == 0 then 100000 else if bufLen >= 9000 then bufLen else 9000;
            var a := RunAlloc(RX_START, stream, InitialLength(isNull, bufLen));
            a.run.result != Failed(OVERRUN) ==> a.cap >= start && (a.cap == start <==> Fits(a.run.rx.writes, start))
  {
    hide RunAlloc, CapAfter, Fits, Run;
    var cap := InitialLength(isNull, bufLen);
    var room := LargestEnd(stream);
    AllocatingSimulatesFixed(stream, cap, room);
    StaysIff(cap, RunAlloc(RX_START, stream, cap).run.rx.writes);
  }

  /** `n` is `cap` doubled some number of times. */
  predicate IsDoubling(cap: nat, n: nat)
    requires cap > 0
    decreases n - cap
  {
    n == cap || (n > cap && IsDoubling(2 * cap, n))
  }

  lemma {:induction false} DoublingBounds(cap: nat, n: nat)
    requires cap > 0 && IsDoubling(cap, n)
    ensures n == cap || n >= 2 * cap
    decreases n - cap
  {
    if n > cap {
      DoublingBounds(2 * cap, n);
    }
  }

  lemma {:induction false} CapIsDoubling(cap: nat, ws: seq<Packet>)
    requires cap > 0
    ensures IsDoubling(cap, CapAfter(cap, ws))
    decreases |ws|
  {
    if ws != [] {
      CapIsDoubling(Grown(cap, ws[0]), ws[1..]);
      if Grown(cap, ws[0]) > cap {
        DoublingBounds(2 * cap, CapAfter(cap, ws));
      }
    }
  }

  /** When nothing beyond `n` is stored, a buffer that can grow to `n` exactly
      does not grow past it. */
  lemma {:induction false} CapWithin(cap: nat, ws: seq<Packet>, n: nat)
    requires cap > 0 && IsDoubling(cap, n) && Fits(ws, n)
    ensures CapAfter(cap, ws) <= n
    decreases |ws|
  {
    if ws != [] {
      DoublingBounds(cap, n);
      assert ws[0].End() <= n && forall p <- ws[1..] :: p in ws;
      CapWithin(Grown(cap, ws[0]), ws[1..], n);
    }
  }

  /** The size of the buffer handed out is the size of the event if and only if
      the event is exactly the initial length doubled some number of times; else
      it is larger. For a call that stored nothing beyond the event's length. */
  lemma BufferSizeIsEventSizeIff(sent: map<Key, seq<byte>>, stream: seq<Recv>, isNull: bool, bufLen: nat)
    requires Honest(sent, stream)
    ensures var cap := InitialLength(isNull, bufLen);
            var a := RunAlloc(RX_START, stream, cap);
            a.run.result.Built? && Fits(a.run.rx.writes, a.run.result.bytes) ==>
              && a.run.result.bytes <= a.cap
              && (a.run.result.bytes == a.cap <==> IsDoubling(cap, a.run.result.bytes))
  {
    hide RunAlloc, IsDoubling, CapAfter, WriteAll, Fits, Run;
    var cap := InitialLength(isNull, bufLen);
    var a := RunAlloc(RX_START, stream, cap);
    var initial: seq<byte> := seq(a.cap, _ => 0);
    if a.run.result.Built? && Fits(a.run.rx.writes, a.run.result.bytes) {
      AllocatedReturnsSentEvent(sent, stream, cap, initial);
      var room := LargestEnd(stream);
      AllocatingSimulatesFixed(stream, cap, room);
      CapIsDoubling(cap, a.run.rx.writes);
      if IsDoubling(cap, a.run.result.bytes) {
        CapWithin(cap, a.run.rx.writes, a.run.result.bytes);
      }
    }
  }

  /** Some buffer length is ample for any finite input. */
  lemma {:induction false} LargestEnd(stream: seq<Recv>) returns (room: nat)
    ensures Ample(room, stream)
  {
    hide Parse;
    if stream == [] {
      room := 0;
    } else {
      room := LargestEnd(stream[1..]);
      if IsPacket(stream[0]) && Parse(stream[0]).End() > room {
        room := Parse(stream[0]).End();
      }
    }
  }
}
