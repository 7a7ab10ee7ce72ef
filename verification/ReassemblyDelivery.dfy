/** Liveness of reassembly: an event whose packets all arrive, with no other tick
    of its source in between, is returned by the call that reads its last packet,
    if and only if the receiver accepts its first packet, whatever it went through
    before. */
module ReassemblyDelivery {
  import opened Headers
  import opened Reassembly
  import opened ReassemblySafety

  predicate Own(src: nat, r: Recv) {
    IsPacket(r) && Parse(r).dataId == src
  }

  function OwnBytes(src: nat, stream: seq<Recv>): nat {
    if stream == [] then 0
    else (if Own(src, stream[0]) then |Parse(stream[0]).payload| else 0) + OwnBytes(src, stream[1..])
  }

  function OwnPackets(src: nat, stream: seq<Recv>): seq<Packet> {
    if stream == [] then []
    else (if Own(src, stream[0]) then [Parse(stream[0])] else []) + OwnPackets(src, stream[1..])
  }

  /** Packets of one event of `src`, complete, possibly mixed with packets of
      other sources; the last one is the event's. */
  ghost predicate Complete(src: nat, tick: nat, n: nat, stream: seq<Recv>) {
    && stream != [] && Own(src, stream[0]) && Own(src, stream[|stream| - 1])
    && OwnBytes(src, stream) == n
    && AllOf(src, tick, n, stream)
  }

  ghost predicate AllOf(src: nat, tick: nat, n: nat, stream: seq<Recv>) {
    forall r <- stream :: IsPacket(r) && (Own(src, r) ==> OneOf(tick, n, Parse(r)))
  }

  predicate OneOf(tick: nat, n: nat, p: Packet) {
    p.tick == tick && p.length == n && p.payload != [] && p.End() <= n
  }

  ghost predicate SingleSource(src: nat, stream: seq<Recv>) {
    forall r <- stream :: Own(src, r)
  }

  /** Whether a call in progress takes a packet of `tick` from `src` as the first
      of its event: it is not busy with another source, and it is not dumping that
      tick, or the tick is new to it and the packet has offset 0. */
  predicate Accepts(rx: Rx, src: nat, tick: nat, offset: nat) {
    && (rx.veryFirstRead || rx.srcId == src)
    && if rx.prevTick == tick then !rx.dumpTick && (rx.veryFirstRead || rx.totalBytesRead == 0) else offset == 0
  }

  /** Part of the event has been stored and no other tick interferes. */
  predicate Building(rx: Rx, src: nat, tick: nat) {
    !rx.veryFirstRead && !rx.dumpTick && rx.srcId == src && rx.prevTick == tick
  }

  /** `step` stored `p`, after `total` bytes, and is done if that makes `n`. */
  ghost predicate Stored(step: Step, p: Packet, writes: seq<Packet>, total: nat, n: nat) {
    && Building(step.rx, p.dataId, p.tick)
    && step.rx.writes == writes + [p]
    && step.rx.totalBytesRead == total + |p.payload|
    && step == if total + |p.payload| >= n then Done(Built(total + |p.payload|, p.tick, p.dataId), step.rx)
      else More(step.rx)
  }

  lemma BuildingStep(rx: Rx, src: nat, tick: nat, n: nat, r: Recv, bufLen: nat)
    requires Building(rx, src, tick) && n <= bufLen
    requires IsPacket(r) && (Own(src, r) ==> OneOf(tick, n, Parse(r)))
    ensures var step := Next(rx, r, bufLen);
            if Own(src, r) then Stored(step, Parse(r), rx.writes, rx.totalBytesRead, n)
            else step == More(rx.(badSrcIdPackets := rx.badSrcIdPackets + 1))
  {
  }

  lemma FirstStep(rx: Rx, src: nat, tick: nat, n: nat, r: Recv, bufLen: nat)
    requires n <= bufLen && Own(src, r) && OneOf(tick, n, Parse(r)) && Accepts(rx, src, tick, Parse(r).offset)
    ensures Stored(Next(rx, r, bufLen), Parse(r), rx.writes, 0, n)
  {
  }

  /** The call reads the whole input and returns the event on its last packet. */
  ghost predicate Completes(rx: Rx, src: nat, tick: nat, n: nat, stream: seq<Recv>, bufLen: nat) {
    var r := Run(rx, stream, bufLen);
    && r.result == Built(n, tick, src) && r.rest == []
    && r.rx.writes == rx.writes + OwnPackets(src, stream)
  }

  lemma OwnHead(src: nat, stream: seq<Recv>)
    requires stream != []
    ensures var own := Own(src, stream[0]);
            && (own ==> OwnBytes(src, stream) == |Parse(stream[0]).payload| + OwnBytes(src, stream[1..]))
            && (own ==> OwnPackets(src, stream) == [Parse(stream[0])] + OwnPackets(src, stream[1..]))
            && (!own ==> OwnBytes(src, stream) == OwnBytes(src, stream[1..]))
            && (!own ==> OwnPackets(src, stream) == OwnPackets(src, stream[1..]))
    ensures OwnBytes(src, []) == 0 && OwnPackets(src, []) == []
  {
    hide Parse;
  }

  lemma {:induction false} StoredCompletes(rx: Rx, src: nat, tick: nat, n: nat, stream: seq<Recv>, bufLen: nat,
        total: nat)
    requires n <= bufLen && stream != [] && Own(src, stream[0]) && OneOf(tick, n, Parse(stream[0]))
    requires Own(src, stream[|stream| - 1]) && AllOf(src, tick, n, stream)
    requires Stored(Next(rx, stream[0], bufLen), Parse(stream[0]), rx.writes, total, n)
    requires total + OwnBytes(src, stream) == n
    ensures Completes(rx, src, tick, n, stream, bufLen)
    decreases |stream|, 0
  {
    hide Next, Parse, Run, OwnBytes, OwnPackets;
    var p, tail := stream[0], stream[1..];
    OwnHead(src, stream);
    RunStep(rx, stream, bufLen);
    if tail != [] {
      assert tail[|tail| - 1] == stream[|stream| - 1];
      OwnBytesPositive(src, tick, n, tail);
      BuildingCompletes(Next(rx, p, bufLen).rx, src, tick, n, tail, bufLen);
    }
  }

  lemma {:induction false} BuildingCompletes(rx: Rx, src: nat, tick: nat, n: nat, stream: seq<Recv>, bufLen: nat)
    requires Building(rx, src, tick) && n <= bufLen
    requires stream != [] && Own(src, stream[|stream| - 1]) && AllOf(src, tick, n, stream)
    requires rx.totalBytesRead + OwnBytes(src, stream) == n
    ensures Completes(rx, src, tick, n, stream, bufLen)
    decreases |stream|, 1
  {
    hide Next, Parse, Run, OwnBytes, OwnPackets, Stored, OneOf;
    var p, tail := stream[0], stream[1..];
    assert p in stream;
    BuildingStep(rx, src, tick, n, p, bufLen);
    if Own(src, p) {
      StoredCompletes(rx, src, tick, n, stream, bufLen, rx.totalBytesRead);
    } else {
      OwnHead(src, stream);
      RunStep(rx, stream, bufLen);
      assert tail[|tail| - 1] == stream[|stream| - 1];
      BuildingCompletes(Next(rx, p, bufLen).rx, src, tick, n, tail, bufLen);
    }
  }

  lemma {:induction false} OwnBytesPositive(src: nat, tick: nat, n: nat, stream: seq<Recv>)
    requires stream != [] && Own(src, stream[|stream| - 1]) && AllOf(src, tick, n, stream)
    ensures OwnBytes(src, stream) > 0
  {
    if |stream| > 1 {
      OwnBytesPositive(src, tick, n, stream[1..]);
    }
  }

  lemma CompleteIsBuilt(rx: Rx, src: nat, tick: nat, n: nat, stream: seq<Recv>, bufLen: nat)
    requires Complete(src, tick, n, stream) && n <= bufLen
    requires Accepts(rx, src, tick, Parse(stream[0]).offset)
    ensures Completes(rx, src, tick, n, stream, bufLen)
  {
    hide Next, Parse, Run, OwnBytes, OwnPackets, Stored, OneOf, Accepts;
    assert stream[0] in stream;
    FirstStep(rx, src, tick, n, stream[0], bufLen);
    StoredCompletes(rx, src, tick, n, stream, bufLen, 0);
  }

  // ----- The first packet decides -----

  lemma {:induction false} DumpingStoresNothing(rx: Rx, src: nat, tick: nat, n: nat, stream: seq<Recv>, bufLen: nat)
    requires rx.veryFirstRead && rx.dumpTick && rx.prevTick == tick
    requires SingleSource(src, stream) && AllOf(src, tick, n, stream)
    ensures var r := Run(rx, stream, bufLen);
            r.result == Waiting && r.rx.writes == rx.writes
    decreases |stream|
  {
    if stream != [] {
      assert OneOf(tick, n, Parse(stream[0]));
      DumpingStoresNothing(Next(rx, stream[0], bufLen).rx, src, tick, n, stream[1..], bufLen);
    }
  }

  lemma {:induction false} BusyStoresNothing(rx: Rx, src: nat, stream: seq<Recv>, bufLen: nat)
    requires !rx.veryFirstRead && rx.srcId != src && SingleSource(src, stream)
    ensures var r := Run(rx, stream, bufLen);
            r.result == Waiting && r.rx.writes == rx.writes
    decreases |stream|
  {
    if stream != [] {
      assert Own(src, stream[0]);
      BusyStoresNothing(Next(rx, stream[0], bufLen).rx, src, stream[1..], bufLen);
    }
  }

  lemma OwnNone(src: nat)
    ensures OwnBytes(src, []) == 0
  {
  }

  lemma OwnTail(src: nat, tick: nat, n: nat, stream: seq<Recv>)
    requires stream != [] && SingleSource(src, stream) && AllOf(src, tick, n, stream)
    ensures Own(src, stream[0]) && OneOf(tick, n, Parse(stream[0])) && KeyOf(Parse(stream[0])) == (src, tick)
    ensures SingleSource(src, stream[1..]) && AllOf(src, tick, n, stream[1..])
  {
    hide Parse;
    assert stream[0] in stream && forall r <- stream[1..] :: r in stream;
  }

  /** A call that has stored bytes of the tick before adds to them. */
  lemma {:induction false} BuildingAdds(rx: Rx, src: nat, tick: nat, n: nat, stream: seq<Recv>, bufLen: nat)
    requires Building(rx, src, tick) && n <= bufLen && SingleSource(src, stream) && AllOf(src, tick, n, stream)
    ensures var r := Run(rx, stream, bufLen);
            r.result.Built? && r.rest == [] ==> r.result.bytes == rx.totalBytesRead + OwnBytes(src, stream)
    decreases |stream|
  {
    hide Next, Parse, Run, OwnBytes, OneOf, AllOf, SingleSource, Stored, Building;
    OwnNone(src);
    RunEnd(rx, bufLen);
    if stream != [] {
      OwnHead(src, stream);
      OwnTail(src, tick, n, stream);
      RunStep(rx, stream, bufLen);
      BuildingStep(rx, src, tick, n, stream[0], bufLen);
      var step := Next(rx, stream[0], bufLen);
      StoredAdds(step, Parse(stream[0]), rx.writes, rx.totalBytesRead, n);
      if step.More? {
        BuildingAdds(step.rx, src, tick, n, stream[1..], bufLen);
      }
    }
  }

  lemma StoredAdds(step: Step, p: Packet, writes: seq<Packet>, total: nat, n: nat)
    requires Stored(step, p, writes, total, n)
    ensures Building(step.rx, p.dataId, p.tick) && step.rx.totalBytesRead == total + |p.payload|
    ensures step.Done? ==> step.result.Built? && step.result.bytes == total + |p.payload|
  {
  }

  /** The call in progress has stored nothing of `tick` from `src`. */
  predicate Unmet(rx: Rx, src: nat, tick: nat) {
    !rx.veryFirstRead ==> (rx.srcId, rx.prevTick) != (src, tick)
  }

  lemma RefusedStoresNothing(rx: Rx, src: nat, tick: nat, n: nat, stream: seq<Recv>, bufLen: nat)
    requires Complete(src, tick, n, stream) && SingleSource(src, stream)
    requires !Accepts(rx, src, tick, Parse(stream[0]).offset)
    requires !Building(rx, src, tick)
    ensures var r := Run(rx, stream, bufLen);
            r.result == Waiting && r.rx.writes == rx.writes
  {
    hide Parse, OwnBytes;
    assert OneOf(tick, n, Parse(stream[0]));
    if !rx.veryFirstRead && rx.srcId != src {
      BusyStoresNothing(rx, src, stream, bufLen);
    } else {
      RunStep(rx, stream, bufLen);
      DumpingStoresNothing(Next(rx, stream[0], bufLen).rx, src, tick, n, stream[1..], bufLen);
    }
  }

  /** When only the event's own packets arrive, all of them and in any order, a
      call in any state whatever completes the event with them if and only if it
      accepts the first one; and otherwise, unless it had stored bytes of that
      event before, it stores none of them. Note the part of `Accepts` about
      `prevTick`: it starts at 2^32 - 1, so when that is a call's first tick the
      offset is not looked at and every order is accepted. */
  lemma FirstPacketDecides(rx: Rx, src: nat, tick: nat, n: nat, stream: seq<Recv>, bufLen: nat)
    requires Complete(src, tick, n, stream) && SingleSource(src, stream) && n <= bufLen
    ensures var r := Run(rx, stream, bufLen);
            var accepts := Accepts(rx, src, tick, Parse(stream[0]).offset);
            && (Completes(rx, src, tick, n, stream, bufLen) <==> accepts)
            && (!accepts && Unmet(rx, src, tick) ==> r.result == Waiting && r.rx.writes == rx.writes)
  {
    hide Parse, OwnBytes, OwnPackets, Run, AllOf;
    if Accepts(rx, src, tick, Parse(stream[0]).offset) {
      CompleteIsBuilt(rx, src, tick, n, stream, bufLen);
    } else if Building(rx, src, tick) {
      BuildingAdds(rx, src, tick, n, stream, bufLen);
    } else {
      RefusedStoresNothing(rx, src, tick, n, stream, bufLen);
    }
  }

  // ----- Repeated calls -----

  /** Where a session stands: in a call with the given state, whose buffer was
      `buf` when it began, or ended by a division fault. */
  datatype Point = InCall(rx: Rx, buf: seq<byte>) | Dead

  function After(rx: Rx, buf: seq<byte>, stream: seq<Recv>): Point
    decreases |stream|
  {
    if stream == [] then InCall(rx, buf)
    else match Next(rx, stream[0], |buf|)
      case More(s) => After(s, buf, stream[1..])
      case Done(result, s) =>
        if result == Failed(DIVIDE_BY_ZERO) then Dead
        else After(RX_START, WriteAll(buf, s.writes), stream[1..])
  }

  function SessionAt(p: Point, stream: seq<Recv>): seq<Delivery> {
    match p
    case InCall(rx, buf) => Session(rx, buf, stream)
    case Dead => []
  }

  lemma SessionNone(rx: Rx, buf: seq<byte>)
    ensures Session(rx, buf, []) == []
  {
  }

  lemma SessionFault(rx: Rx, buf: seq<byte>, stream: seq<Recv>)
    requires stream != [] && Next(rx, stream[0], |buf|).Done?
    requires Next(rx, stream[0], |buf|).result == Failed(DIVIDE_BY_ZERO)
    ensures Session(rx, buf, stream) == []
  {
  }

  lemma NotWaiting(rx: Rx, r: Recv, bufLen: nat)
    ensures Next(rx, r, bufLen).Done? ==> !Next(rx, r, bufLen).result.Waiting?
  {
  }

  /** A session goes on from where its earlier input left it. */
  lemma {:induction false} SessionSplit(rx: Rx, buf: seq<byte>, earlier: seq<Recv>, stream: seq<Recv>)
    ensures Session(rx, buf, earlier + stream)
            == Session(rx, buf, earlier) + SessionAt(After(rx, buf, earlier), stream)
    decreases |earlier|
  {
    hide Next, Run, WriteAll, Session, Delivered;
    if earlier == [] {
      assert earlier + stream == stream;
      SessionNone(rx, buf);
    } else {
      var all := earlier + stream;
      assert all[0] == earlier[0] && all[1..] == earlier[1..] + stream;
      NotWaiting(rx, earlier[0], |buf|);
      match Next(rx, earlier[0], |buf|)
      case More(s) =>
        SessionMore(rx, s, buf, all);
        SessionMore(rx, s, buf, earlier);
        SessionSplit(s, buf, earlier[1..], stream);
      case Done(result, s) =>
        if result == Failed(DIVIDE_BY_ZERO) {
          SessionFault(rx, buf, all);
          SessionFault(rx, buf, earlier);
        } else {
          SessionDone(rx, result, s, buf, all);
          SessionDone(rx, result, s, buf, earlier);
          var buf1 := WriteAll(buf, s.writes);
          SessionSplit(RX_START, buf1, earlier[1..], stream);
          ConcatAssoc(Delivered(RunResult(result, s, all[1..]), buf), Session(RX_START, buf1, earlier[1..]),
                      SessionAt(After(RX_START, buf1, earlier[1..]), stream));
          SameDelivered(result, s, all[1..], earlier[1..], buf);
        }
    }
  }

  lemma ConcatAssoc<T>(a: seq<T>, b: seq<T>, c: seq<T>)
    ensures a + (b + c) == (a + b) + c
  {
  }

  lemma SameDelivered(result: Result, rx: Rx, rest: seq<Recv>, other: seq<Recv>, buf: seq<byte>)
    ensures Delivered(RunResult(result, rx, rest), buf) == Delivered(RunResult(result, rx, other), buf)
  {
  }

  ghost predicate NoneOf(src: nat, tick: nat, stream: seq<Recv>) {
    forall r <- stream :: IsPacket(r) ==> KeyOf(Parse(r)) != (src, tick)
  }

  lemma StepKeepsUnmet(rx: Rx, src: nat, tick: nat, r: Recv, bufLen: nat)
    requires Unmet(rx, src, tick) && (IsPacket(r) ==> KeyOf(Parse(r)) != (src, tick))
    ensures Next(rx, r, bufLen).More? ==> Unmet(Next(rx, r, bufLen).rx, src, tick)
  {
    hide Parse;
  }

  lemma {:induction false} AfterKeepsUnmet(rx: Rx, buf: seq<byte>, src: nat, tick: nat, earlier: seq<Recv>)
    requires Unmet(rx, src, tick) && NoneOf(src, tick, earlier)
    ensures var p := After(rx, buf, earlier);
            p.InCall? ==> Unmet(p.rx, src, tick) && |p.buf| == |buf|
    decreases |earlier|
  {
    hide Next, WriteAll, Parse;
    if earlier != [] {
      assert earlier[0] in earlier && forall r <- earlier[1..] :: r in earlier;
      StepKeepsUnmet(rx, src, tick, earlier[0], |buf|);
      match Next(rx, earlier[0], |buf|)
      case More(s) => AfterKeepsUnmet(s, buf, src, tick, earlier[1..]);
      case Done(_, s) => AfterKeepsUnmet(RX_START, WriteAll(buf, s.writes), src, tick, earlier[1..]);
    }
  }

  lemma SessionBuilt(rx: Rx, buf: seq<byte>, stream: seq<Recv>)
    requires Run(rx, stream, |buf|).result.Built? && Run(rx, stream, |buf|).rest == []
    ensures Session(rx, buf, stream) == Delivered(Run(rx, stream, |buf|), buf)
  {
    hide Next, WriteAll;
    var r := Run(rx, stream, |buf|);
    assert Session(RX_START, WriteAll(buf, r.rx.writes), r.rest) == [];
  }

  lemma SessionWaits(rx: Rx, buf: seq<byte>, stream: seq<Recv>)
    requires Run(rx, stream, |buf|).result.Waiting?
    ensures Session(rx, buf, stream) == []
  {
  }

  /** The session hands out one more event, the given one, with its own bytes. */
  ghost predicate Delivers(before: seq<Delivery>, after: seq<Delivery>, src: nat, tick: nat, event: seq<byte>) {
    && |after| == |before| + 1 && after[..|before|] == before
    && var d := after[|before|];
       && d.dataId == src && d.tick == tick
       && d.bytes == |event| <= |d.buffer| && d.buffer[..d.bytes] == event
  }

  lemma OneMore(before: seq<Delivery>, d: Delivery)
    ensures var after := before + [d];
            |after| == |before| + 1 && after[..|before|] == before && after[|before|] == d
  {
  }

  /** The delivery theorem. After any earlier input, of any sources, whole,
      partial, dumped or in error, that has no packet of the event: a complete
      event whose first packet the receiver accepts is the one thing more that is
      delivered, once its last packet is read, with its own bytes. Packets of
      other sources may be mixed in after its first packet. */
  lemma CompleteEventIsDelivered(sent: map<Key, seq<byte>>, buf: seq<byte>, src: nat, tick: nat,
                                 earlier: seq<Recv>, stream: seq<Recv>)
    requires Honest(sent, earlier + stream) && (src, tick) in sent && NoneOf(src, tick, earlier)
    requires Complete(src, tick, |sent[(src, tick)]|, stream) && |sent[(src, tick)]| <= |buf|
    requires var p := After(RX_START, buf, earlier);
             p.InCall? && Accepts(p.rx, src, tick, Parse(stream[0]).offset)
    ensures Delivers(Session(RX_START, buf, earlier), Session(RX_START, buf, earlier + stream),
                     src, tick, sent[(src, tick)])
  {
    hide Session, Parse, Complete, Accepts, After, Unmet, Run, WriteAll;
    assert Unmet(RX_START, src, tick) by {
      StartUnmet(src, tick);
    }
    AfterKeepsUnmet(RX_START, buf, src, tick, earlier);
    var p := After(RX_START, buf, earlier);
    var before, after := Session(RX_START, buf, earlier), Session(RX_START, buf, earlier + stream);
    SessionSplit(RX_START, buf, earlier, stream);
    CompleteIsBuilt(p.rx, src, tick, |sent[(src, tick)]|, stream, |p.buf|);
    SessionBuilt(p.rx, p.buf, stream);
    OneMore(before, Delivered(Run(p.rx, stream, |p.buf|), p.buf)[0]);
    DeliveriesAreSentEvents(sent, buf, earlier + stream);
    assert after[|before|] in after;
  }

  lemma StartUnmet(src: nat, tick: nat)
    ensures Unmet(RX_START, src, tick)
  {
  }

  /** With no other source in between, that is also the only case: the event is
      delivered if and only if the receiver is still alive and accepts its first
      packet. Otherwise nothing more is delivered. */
  lemma DeliveredIffAccepted(sent: map<Key, seq<byte>>, buf: seq<byte>, src: nat, tick: nat,
                             earlier: seq<Recv>, stream: seq<Recv>)
    requires Honest(sent, earlier + stream) && (src, tick) in sent && NoneOf(src, tick, earlier)
    requires Complete(src, tick, |sent[(src, tick)]|, stream) && |sent[(src, tick)]| <= |buf|
    requires SingleSource(src, stream)
    ensures var p := After(RX_START, buf, earlier);
            var before, after := Session(RX_START, buf, earlier), Session(RX_START, buf, earlier + stream);
            var accepted := p.InCall? && Accepts(p.rx, src, tick, Parse(stream[0]).offset);
            && (Delivers(before, after, src, tick, sent[(src, tick)]) <==> accepted)
            && (!accepted ==> after == before)
  {
    hide Session, Parse, OwnBytes, AllOf, Accepts, After, Unmet, Run, WriteAll;
    var p := After(RX_START, buf, earlier);
    if p.InCall? && Accepts(p.rx, src, tick, Parse(stream[0]).offset) {
      CompleteEventIsDelivered(sent, buf, src, tick, earlier, stream);
    } else {
      StartUnmet(src, tick);
      AfterKeepsUnmet(RX_START, buf, src, tick, earlier);
      SessionSplit(RX_START, buf, earlier, stream);
      if p.InCall? {
        FirstPacketDecides(p.rx, src, tick, |sent[(src, tick)]|, stream, |p.buf|);
        SessionWaits(p.rx, p.buf, stream);
      }
    }
  }

  // ----- A receiver with one source -----

  /** Earlier input from the same source only: errors, runts and nonempty packets
      of other ticks. */
  ghost predicate OthersOf(src: nat, tick: nat, stream: seq<Recv>) {
    forall r <- stream :: IsPacket(r) ==> Own(src, r) && Parse(r).tick != tick && Parse(r).payload != []
  }

  /** Not busy with another source and not with the tick. */
  predicate Free(rx: Rx, src: nat, tick: nat) {
    && (rx.veryFirstRead || rx.srcId == src)
    && (rx.prevTick == tick ==> rx.veryFirstRead && !rx.dumpTick)
  }

  lemma StepKeepsFree(rx: Rx, src: nat, tick: nat, r: Recv, bufLen: nat)
    requires Free(rx, src, tick)
    requires IsPacket(r) ==> Own(src, r) && Parse(r).tick != tick && Parse(r).payload != []
    ensures var step := Next(rx, r, bufLen);
            if step.More? then Free(step.rx, src, tick) else step.result != Failed(DIVIDE_BY_ZERO)
  {
    hide Parse;
  }

  /** Whatever has arrived from its one source, whole, partial or dumped, a
      receiver accepts a first packet with offset 0 of a tick it has not met. */
  lemma {:induction false} OneSourceAccepts(rx: Rx, buf: seq<byte>, src: nat, tick: nat, earlier: seq<Recv>)
    requires Free(rx, src, tick) && OthersOf(src, tick, earlier)
    ensures var p := After(rx, buf, earlier);
            p.InCall? && Accepts(p.rx, src, tick, 0)
    decreases |earlier|
  {
    hide Next, WriteAll, Parse;
    if earlier != [] {
      assert earlier[0] in earlier && forall r <- earlier[1..] :: r in earlier;
      StepKeepsFree(rx, src, tick, earlier[0], |buf|);
      match Next(rx, earlier[0], |buf|)
      case More(s) => OneSourceAccepts(s, buf, src, tick, earlier[1..]);
      case Done(_, s) => OneSourceAccepts(RX_START, WriteAll(buf, s.writes), src, tick, earlier[1..]);
    }
  }
}
