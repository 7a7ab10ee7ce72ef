/** Which source a receiver is busy with, as a function of its input alone. A
    reference receiver without flags: it is fresh, dumping a tick, or busy with
    one event of one source, whose packets it holds. The flags of the reassembly
    loop mean exactly that. */
module ReceiverStatus {
  import opened Headers
  import opened Reassembly
  import opened ReassemblySafety
  import opened ReassemblyDelivery

  datatype Status = Fresh | Dumping(tick: nat) | Busy(src: nat, tick: nat, parts: seq<Packet>)

  /** The packet starts a new event: its offset is 0 and its tick is not the one
      held or dumped; a busy receiver listens to its own source only. A fresh one
      also takes any packet of tick 4294967295. */
  predicate Opens(st: Status, p: Packet) {
    match st
    case Fresh => p.offset == 0 || p.tick == 4294967295
    case Dumping(tick) => p.tick != tick && p.offset == 0
    case Busy(src, tick, _) => p.dataId == src && p.tick != tick && p.offset == 0
  }

  predicate Continues(st: Status, p: Packet) {
    st.Busy? && p.dataId == st.src && p.tick == st.tick
  }

  predicate Foreign(st: Status, p: Packet) {
    st.Busy? && p.dataId != st.src
  }

  datatype Reaction = Now(st: Status) | Return(result: Result, parts: seq<Packet>)

  function Take(parts: seq<Packet>, p: Packet, room: nat): Reaction {
    var all := parts + [p];
    if p.End() > room then Return(Failed(BUF_TOO_SMALL), parts)
    else if Sum(all) >= p.length then Return(Built(Sum(all), p.tick, p.dataId), all)
    else Now(Busy(p.dataId, p.tick, all))
  }

  /** What the reference receiver does with one datagram. */
  function React(st: Status, r: Recv, room: nat): Reaction {
    if r.RecvError? then Return(Failed(RECV_MSG), [])
    else if |r.bytes| < 20 then Return(Failed(INTERNAL_ERROR), [])
    else
      var p := Parse(r);
      if Foreign(st, p) then Now(st)
      else if !st.Busy? && p.payload == [] then Return(Failed(DIVIDE_BY_ZERO), [])
      else if Continues(st, p) then Take(st.parts, p, room)
      else if Opens(st, p) then Take([], p, room)
      else Now(Dumping(p.tick))
  }

  // ----- The flags mean the status -----

  ghost predicate Means(rx: Rx, st: Status) {
    match st
    case Fresh => rx.veryFirstRead && !rx.dumpTick && rx.prevTick == 4294967295
    case Dumping(tick) => rx.veryFirstRead && rx.dumpTick && rx.prevTick == tick
    case Busy(src, tick, parts) =>
      && !rx.veryFirstRead && !rx.dumpTick && rx.srcId == src && rx.prevTick == tick
      && rx.pktCount <= |rx.writes| && Accepted(rx) == parts && rx.totalBytesRead == Sum(parts)
  }

  lemma StartMeansFresh()
    ensures Means(RX_START, Fresh)
  {
  }

  /** The call counted exactly `parts`. */
  ghost predicate Counts(rx: Rx, parts: seq<Packet>) {
    rx.pktCount == |parts| <= |rx.writes| && Accepted(rx) == parts
  }

  ghost predicate Agrees(step: Step, reaction: Reaction) {
    match step
    case More(rx) => reaction.Now? && Means(rx, reaction.st)
    case Done(result, rx) =>
      && reaction.Return? && reaction.result == result
      && (result.Built? ==> Counts(rx, reaction.parts))
  }

  /** Where the packet is to be stored, the attempt in progress is `parts`. */
  ghost predicate Attempt(s: Rx, parts: seq<Packet>) {
    s.pktCount <= |s.writes| && Accepted(s) == parts && s.totalBytesRead == Sum(parts) && !s.dumpTick
  }

  lemma CommitAgrees(s: Rx, parts: seq<Packet>, p: Packet)
    requires Attempt(s, parts) && s.srcId == p.dataId
    ensures var all := parts + [p];
            Agrees(Commit(s, p), if Sum(all) >= p.length then Return(Built(Sum(all), p.tick, p.dataId), all)
                                 else Now(Busy(p.dataId, p.tick, all)))
  {
    hide Sum;
    AddToAccepted(s, p, Commit(s, p).rx);
  }

  lemma NothingAttempted(s: Rx)
    requires s.pktCount == 0 && s.totalBytesRead == 0 && !s.dumpTick
    ensures Attempt(s, [])
  {
  }

  lemma TopMeans(rx: Rx, st: Status)
    requires Means(rx, st)
    ensures Means(TopOfLoop(rx), st)
    ensures TopOfLoop(rx).veryFirstRead ==> TopOfLoop(rx).pktCount == TopOfLoop(rx).totalBytesRead == 0
    ensures TopOfLoop(rx).badSrcIdPackets == rx.badSrcIdPackets
  {
    hide Sum;
  }

  /** The verdict of the loop's tests, in terms of the status. */
  lemma VerdictMeans(s: Rx, st: Status, p: Packet)
    requires Means(s, st) && (s.veryFirstRead ==> s.pktCount == s.totalBytesRead == 0)
    ensures var v := Classify(s, p);
            if Foreign(st, p) then v == Skip(s.(badSrcIdPackets := s.badSrcIdPackets + 1)) && Means(v.rx, st)
            else if !st.Busy? && p.payload == [] then v == Fault
            else if Continues(st, p) then v.Store? && Attempt(v.rx, st.parts) && v.rx.srcId == p.dataId
            else if Opens(st, p) then v.Store? && Attempt(v.rx, []) && v.rx.srcId == p.dataId
            else v.Skip? && Means(v.rx, Dumping(p.tick))
    ensures var v := Classify(s, p);
            !v.Fault? && !Foreign(st, p) ==> v.rx.badSrcIdPackets == s.badSrcIdPackets
  {
    hide Sum;
    var v := Classify(s, p);
    if v.Store? && !Continues(st, p) {
      SumNone();
    }
  }

  lemma SumNone()
    ensures Sum([]) == 0
  {
  }

  /** One turn of the loop is one reaction of the reference, and it counts a
      packet of a wrong source exactly when the reference finds one foreign. */
  lemma StepReacts(rx: Rx, st: Status, r: Recv, room: nat)
    requires Means(rx, st)
    ensures Agrees(Next(rx, r, room), React(st, r, room))
    ensures Next(rx, r, room).rx.badSrcIdPackets
            == rx.badSrcIdPackets + if IsPacket(r) && Foreign(st, Parse(r)) then 1 else 0
  {
    hide Next, Parse, Classify, TopOfLoop, Commit, Means, Attempt, Sum;
    TopMeans(rx, st);
    if IsPacket(r) {
      var s, p := TopOfLoop(rx), Parse(r);
      var v := Classify(s, p);
      VerdictMeans(s, st, p);
      NextOnPacket(rx, r, p, v, room);
      if v.Store? && p.End() <= room {
        CommitAgrees(v.rx, if Continues(st, p) then st.parts else [], p);
        CommitKeepsCount(v.rx, p);
      }
    } else {
      NextOnError(rx, r, room);
    }
  }

  lemma CommitKeepsCount(s: Rx, p: Packet)
    ensures Commit(s, p).rx.badSrcIdPackets == s.badSrcIdPackets
  {
  }

  // ----- A whole call -----

  datatype Ending = Ending(result: Result, parts: seq<Packet>, foreign: nat, rest: seq<Recv>)

  function Watch(st: Status, stream: seq<Recv>, room: nat): Ending
    decreases |stream|
  {
    if stream == [] then Ending(Waiting, [], 0, [])
    else
      match React(st, stream[0], room)
      case Now(st1) =>
        var e := Watch(st1, stream[1..], room);
        e.(foreign := e.foreign + if IsPacket(stream[0]) && Foreign(st, Parse(stream[0])) then 1 else 0)
      case Return(result, parts) => Ending(result, parts, 0, stream[1..])
  }

  /** A call returns what the reference returns, for all input: same answer, same
      packets counted, same number of foreign packets, same input left. */
  lemma {:induction false} CallIsWatched(rx: Rx, st: Status, stream: seq<Recv>, room: nat)
    requires Means(rx, st)
    ensures var r, e := Run(rx, stream, room), Watch(st, stream, room);
            && r.result == e.result && r.rest == e.rest
            && r.rx.badSrcIdPackets == rx.badSrcIdPackets + e.foreign
            && (r.result.Built? ==> Counts(r.rx, e.parts))
    decreases |stream|
  {
    hide Next, React, Means, Parse, Foreign, Counts, Run;
    if stream == [] {
      RunEnd(rx, room);
    } else {
      StepReacts(rx, st, stream[0], room);
      RunStep(rx, stream, room);
      ForeignStays(st, stream[0], room);
      match Next(rx, stream[0], room)
      case More(s) => CallIsWatched(s, React(st, stream[0], room).st, stream[1..], room);
      case Done(_, _) =>
    }
  }

  lemma ForeignStays(st: Status, r: Recv, room: nat)
    ensures IsPacket(r) && Foreign(st, Parse(r)) ==> React(st, r, room) == Now(st)
  {
    hide Parse;
  }

  lemma FreshCallIsWatched(stream: seq<Recv>, room: nat)
    ensures var r, e := Run(RX_START, stream, room), Watch(Fresh, stream, room);
            && r.result == e.result && r.rest == e.rest && r.rx.badSrcIdPackets == e.foreign
            && (r.result.Built? ==> Counts(r.rx, e.parts))
  {
    hide Run, Watch;
    StartMeansFresh();
    CallIsWatched(RX_START, Fresh, stream, room);
  }

  // ----- Repeated calls -----

  datatype Standing = Alive(st: Status) | Gone

  /** The status after any input, read by as many calls as it takes. */
  function StatusAfter(st: Status, stream: seq<Recv>, room: nat): Standing
    decreases |stream|
  {
    if stream == [] then Alive(st)
    else
      match React(st, stream[0], room)
      case Now(st1) => StatusAfter(st1, stream[1..], room)
      case Return(result, _) =>
        if result == Failed(DIVIDE_BY_ZERO) then Gone else StatusAfter(Fresh, stream[1..], room)
  }

  lemma {:induction false} AfterStands(rx: Rx, st: Status, buf: seq<byte>, stream: seq<Recv>)
    requires Means(rx, st)
    ensures match After(rx, buf, stream)
            case InCall(s, buf1) =>
              var standing := StatusAfter(st, stream, |buf|);
              standing.Alive? && Means(s, standing.st) && |buf1| == |buf|
            case Dead => StatusAfter(st, stream, |buf|) == Gone
    decreases |stream|
  {
    hide Next, React, Means, WriteAll;
    if stream != [] {
      StepReacts(rx, st, stream[0], |buf|);
      match Next(rx, stream[0], |buf|)
      case More(s) => AfterStands(s, React(st, stream[0], |buf|).st, buf, stream[1..]);
      case Done(_, s) =>
        StartMeansFresh();
        AfterStands(RX_START, Fresh, WriteAll(buf, s.writes), stream[1..]);
    }
  }

  lemma AcceptsIffOpens(rx: Rx, st: Status, p: Packet)
    requires Means(rx, st) && Unmet(rx, p.dataId, p.tick)
    ensures Accepts(rx, p.dataId, p.tick, p.offset) <==> Opens(st, p)
  {
    hide Sum;
  }

  /** The delivery theorem from the input alone. After any earlier input of any
      sources without packets of the event, a complete event from one source is
      delivered if and only if the reference receiver is still alive then and the
      event's first packet opens an event for it; otherwise nothing more is. */
  lemma DeliveredIffOpen(sent: map<Key, seq<byte>>, buf: seq<byte>, src: nat, tick: nat,
                         earlier: seq<Recv>, stream: seq<Recv>)
    requires Honest(sent, earlier + stream) && (src, tick) in sent && NoneOf(src, tick, earlier)
    requires Complete(src, tick, |sent[(src, tick)]|, stream) && |sent[(src, tick)]| <= |buf|
    requires SingleSource(src, stream)
    ensures var before, after := Session(RX_START, buf, earlier), Session(RX_START, buf, earlier + stream);
            var standing := StatusAfter(Fresh, earlier, |buf|);
            var open := standing.Alive? && Opens(standing.st, Parse(stream[0]));
            && (Delivers(before, after, src, tick, sent[(src, tick)]) <==> open)
            && (!open ==> after == before)
  {
    hide Session, Parse, OwnBytes, AllOf, Accepts, Opens, After, StatusAfter, Unmet, Means, WriteAll, Delivers;
    DeliveredIffAccepted(sent, buf, src, tick, earlier, stream);
    StartUnmet(src, tick);
    AfterKeepsUnmet(RX_START, buf, src, tick, earlier);
    StartMeansFresh();
    AfterStands(RX_START, Fresh, buf, earlier);
    OwnFirst(src, tick, |sent[(src, tick)]|, stream);
    var p := After(RX_START, buf, earlier);
    if p.InCall? {
      AcceptsIffOpens(p.rx, StatusAfter(Fresh, earlier, |buf|).st, Parse(stream[0]));
    }
  }

  lemma OwnFirst(src: nat, tick: nat, n: nat, stream: seq<Recv>)
    requires Complete(src, tick, n, stream)
    ensures IsPacket(stream[0]) && Parse(stream[0]).dataId == src && Parse(stream[0]).tick == tick
  {
    hide Parse;
    assert stream[0] in stream;
  }

  // ----- How a receiver becomes free, and how it stays busy -----

  /** A packet of another tick and nonzero offset from the receiver's own source
      ends the event it was busy with and the source's hold on it: a complete event
      of any source and a third tick that follows is returned. */
  lemma AbandonedThenDelivered(rx: Rx, q: Recv, src: nat, tick: nat, n: nat, stream: seq<Recv>, bufLen: nat)
    requires !rx.veryFirstRead && !rx.dumpTick
    requires IsPacket(q) && Parse(q).dataId == rx.srcId && Parse(q).tick != rx.prevTick && Parse(q).offset != 0
    requires Complete(src, tick, n, stream) && n <= bufLen
    requires Parse(stream[0]).offset == 0 && tick != Parse(q).tick
    ensures var r := Run(rx, [q] + stream, bufLen);
            && r.result == Built(n, tick, src) && r.rest == []
            && r.rx.writes == rx.writes + OwnPackets(src, stream)
  {
    hide Parse, Run, OwnBytes, OwnPackets, AllOf;
    var all := [q] + stream;
    assert all[0] == q && all[1..] == stream;
    RunStep(rx, all, bufLen);
    OwnFirst(src, tick, n, stream);
    var step := Next(rx, q, bufLen);
    assert step.More? && Accepts(step.rx, src, tick, 0) && step.rx.writes == rx.writes;
    CompleteIsBuilt(step.rx, src, tick, n, stream, bufLen);
  }

  /** A receiver busy with a source has been so since one of that source's
      packets, all of whose packets since then were of one tick, and holds
      exactly those. */
  ghost predicate BusySince(src: nat, tick: nat, parts: seq<Packet>, stream: seq<Recv>, i: nat) {
    && i < |stream|
    && (forall r <- stream[i..] :: IsPacket(r) && (Own(src, r) ==> Parse(r).tick == tick))
    && Own(src, stream[i])
    && parts == OwnPackets(src, stream[i..])
  }

  /** ... or was busy with it from the beginning. */
  ghost predicate StillBusy(st: Status, src: nat, tick: nat, parts: seq<Packet>, stream: seq<Recv>) {
    && st.Busy? && st.src == src && st.tick == tick
    && (forall r <- stream :: IsPacket(r) && (Own(src, r) ==> Parse(r).tick == tick))
    && parts == st.parts + OwnPackets(src, stream)
  }

  lemma {:induction false} BusyWith(st: Status, stream: seq<Recv>, room: nat)
    requires var end := StatusAfter(st, stream, room); end.Alive? && end.st.Busy?
    ensures var end := StatusAfter(st, stream, room).st;
            || StillBusy(st, end.src, end.tick, end.parts, stream)
            || exists i: nat :: BusySince(end.src, end.tick, end.parts, stream, i)
    decreases |stream|
  {
    hide Parse, Sum, React, StillBusy, BusySince, OwnPackets;
    var end := StatusAfter(st, stream, room).st;
    if stream == [] {
      NoneSince(st);
    } else {
      var r, tail := stream[0], stream[1..];
      var reaction := React(st, r, room);
      var st1 := if reaction.Now? then reaction.st else Fresh;
      BusyWith(st1, tail, room);
      if StillBusy(st1, end.src, end.tick, end.parts, tail) {
        assert [r] + tail == stream;
        StillBusyIs(st1, end.src, end.tick, end.parts, tail);
        BusyStep(st, r, tail, room, end.tick, end.parts);
      } else {
        var i: nat :| BusySince(end.src, end.tick, end.parts, tail, i);
        BusySinceLater(end.src, end.tick, end.parts, stream, i);
      }
    }
  }

  lemma NoneSince(st: Status)
    requires st.Busy?
    ensures StillBusy(st, st.src, st.tick, st.parts, [])
  {
    assert st.parts + [] == st.parts;
  }

  lemma BusySinceLater(src: nat, tick: nat, parts: seq<Packet>, stream: seq<Recv>, i: nat)
    requires stream != [] && BusySince(src, tick, parts, stream[1..], i)
    ensures BusySince(src, tick, parts, stream, i + 1)
  {
    hide OwnPackets, Own;
    assert stream[i + 1..] == stream[1..][i..] && stream[i + 1] == stream[1..][i];
  }

  lemma StillBusyIs(st: Status, src: nat, tick: nat, parts: seq<Packet>, stream: seq<Recv>)
    requires StillBusy(st, src, tick, parts, stream)
    ensures st.Busy? && st.src == src && st.tick == tick
  {
  }

  lemma BusyStep(st: Status, r: Recv, tail: seq<Recv>, room: nat, tick: nat, parts: seq<Packet>)
    requires React(st, r, room).Now? && React(st, r, room).st.Busy?
    requires StillBusy(React(st, r, room).st, React(st, r, room).st.src, tick, parts, tail)
    ensures var src := React(st, r, room).st.src;
            || StillBusy(st, src, tick, parts, [r] + tail)
            || BusySince(src, tick, parts, [r] + tail, 0)
  {
    hide Parse, Sum, OwnPackets;
    var st1, all := React(st, r, room).st, [r] + tail;
    OwnHead(st1.src, all);
    assert all[1..] == tail && all[0..] == all;
    var p := Parse(r);
    if Foreign(st, p) {
      assert st1 == st;
    } else {
      assert st1.parts == (if Continues(st, p) then st.parts else []) + [p];
      assert st1.parts + OwnPackets(st1.src, tail)
             == (if Continues(st, p) then st.parts else []) + ([p] + OwnPackets(st1.src, tail));
    }
  }

  /** From the start of a session: which source a receiver is busy with, since
      when, and what it holds. */
  lemma BusyFromStart(stream: seq<Recv>, room: nat)
    requires var end := StatusAfter(Fresh, stream, room); end.Alive? && end.st.Busy?
    ensures var end := StatusAfter(Fresh, stream, room).st;
            exists i: nat :: BusySince(end.src, end.tick, end.parts, stream, i)
  {
    BusyWith(Fresh, stream, room);
  }
}
