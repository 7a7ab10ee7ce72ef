/** Safety of reassembly over whole runs: on a lossy, reordered, interleaved
    stream without duplicates, whatever is returned is one of the events sent,
    byte for byte, and no event is returned twice. */
module ReassemblySafety {
  import opened Headers
  import opened Reassembly
  import opened Sets

  type Key = (nat, nat)

  function KeyOf(p: Packet): Key {
    (p.dataId, p.tick)
  }

  ghost predicate FragmentOf(p: Packet, event: seq<byte>) {
    p.length == |event| && p.End() <= |event| && p.payload == event[p.offset..p.End()]
  }

  ghost predicate Genuine(sent: map<Key, seq<byte>>, p: Packet) {
    KeyOf(p) in sent && FragmentOf(p, sent[KeyOf(p)])
  }

  /** Packets of one event that are not the same packet do not overlap. */
  ghost predicate Clear(p: Packet, q: Packet) {
    p.SameEvent(q) ==> p.End() <= q.offset || q.End() <= p.offset
  }

  ghost predicate Apart(p: Packet, stream: seq<Recv>) {
    forall i :: 0 <= i < |stream| && IsPacket(stream[i]) ==> Clear(p, Parse(stream[i]))
  }

  ghost predicate AllGenuine(sent: map<Key, seq<byte>>, stream: seq<Recv>) {
    forall i :: 0 <= i < |stream| && IsPacket(stream[i]) ==> Genuine(sent, Parse(stream[i]))
  }

  ghost predicate NoDuplicates(stream: seq<Recv>) {
    forall i, j :: 0 <= i < j < |stream| && IsPacket(stream[i]) && IsPacket(stream[j])
      ==> Clear(Parse(stream[i]), Parse(stream[j]))
  }

  /** Every packet is part of an event sent and none arrives twice. Packets may
      be missing, in any order, and mixed with those of other events and sources. */
  ghost predicate Honest(sent: map<Key, seq<byte>>, stream: seq<Recv>) {
    AllGenuine(sent, stream) && NoDuplicates(stream)
  }

  lemma HonestTail(sent: map<Key, seq<byte>>, stream: seq<Recv>)
    requires Honest(sent, stream) && stream != []
    ensures Honest(sent, stream[1..])
    ensures IsPacket(stream[0]) ==> Genuine(sent, Parse(stream[0])) && Apart(Parse(stream[0]), stream[1..])
  {
    var tail := stream[1..];
    assert forall i :: 0 <= i < |tail| ==> tail[i] == stream[i + 1];
  }

  // ----- Counting bytes covers the event -----

  function Sum(ps: seq<Packet>): nat {
    if ps == [] then 0 else Sum(ps[..|ps| - 1]) + |ps[|ps| - 1].payload|
  }

  ghost predicate PairwiseClear(ps: seq<Packet>) {
    forall i, j :: 0 <= i < j < |ps| ==> Clear(ps[i], ps[j])
  }

  ghost predicate OneEvent(ps: seq<Packet>, key: Key) {
    forall p <- ps :: KeyOf(p) == key
  }

  ghost predicate CoveredBy(ps: seq<Packet>, i: int) {
    exists p :: p in ps && p.Covers(i)
  }

  ghost function Covered(ps: seq<Packet>): (r: set<nat>)
    ensures forall i :: i in r <==> CoveredBy(ps, i)
  {
    if ps == [] then {}
    else
      var init, last := ps[..|ps| - 1], ps[|ps| - 1];
      CoveredByParts(ps);
      Covered(init) + Range(last.offset, last.End())
  }

  lemma CoveredByParts(ps: seq<Packet>)
    requires ps != []
    ensures forall i :: CoveredBy(ps, i) <==> CoveredBy(ps[..|ps| - 1], i) || ps[|ps| - 1].Covers(i)
  {
    assert ps == ps[..|ps| - 1] + [ps[|ps| - 1]];
  }

  lemma {:induction false} CoveredSize(ps: seq<Packet>, key: Key)
    requires PairwiseClear(ps) && OneEvent(ps, key)
    ensures |Covered(ps)| == Sum(ps)
  {
    if ps != [] {
      var init, last := ps[..|ps| - 1], ps[|ps| - 1];
      CoveredSize(init, key);
      assert forall p <- init :: KeyOf(p) == KeyOf(last) && Clear(p, last);
      assert Covered(init) !! Range(last.offset, last.End());
    }
  }

  /** The partition argument: distinct packets of one event whose byte count
      reaches the event's length count it exactly and cover every byte. */
  lemma CountingCovers(ps: seq<Packet>, key: Key, event: seq<byte>)
    requires PairwiseClear(ps) && OneEvent(ps, key)
    requires forall p <- ps :: FragmentOf(p, event)
    requires Sum(ps) >= |event|
    ensures Sum(ps) == |event|
    ensures forall i :: 0 <= i < |event| ==> CoveredBy(ps, i)
  {
    CoveredSize(ps, key);
    SubsetSize(Covered(ps), Range(0, |event|));
    forall i | 0 <= i < |event|
      ensures CoveredBy(ps, i)
    {
      assert i in Range(0, |event|);
    }
  }

  lemma {:induction false} WritesAgree(buf: seq<byte>, before: seq<Packet>, ps: seq<Packet>, event: seq<byte>, i: nat)
    requires forall p <- ps :: FragmentOf(p, event) && p.End() <= |buf|
    requires CoveredBy(ps, i)
    requires i < |buf| && i < |event|
    ensures WriteAll(buf, before + ps)[i] == event[i]
  {
    var last := ps[|ps| - 1];
    var init := ps[..|ps| - 1];
    assert (before + ps)[..|before + ps| - 1] == before + init;
    if !last.Covers(i) {
      assert ps == init + [last];
      WritesAgree(buf, before, init, event, i);
    }
  }

  // ----- The invariant of a run -----

  /** The packets counted by the attempt in progress. */
  function Accepted(rx: Rx): seq<Packet>
    requires rx.pktCount <= |rx.writes|
  {
    rx.writes[|rx.writes| - rx.pktCount..]
  }

  ghost predicate Shut(closed: set<Key>, stream: seq<Recv>) {
    forall i :: 0 <= i < |stream| && IsPacket(stream[i]) && KeyOf(Parse(stream[i])) in closed
      ==> !Parse(stream[i]).Covers(0)
  }

  /** What holds of packets counted for one event, given the input still to
      come; `closed` names events whose first byte can no longer arrive. */
  ghost predicate Tally(sent: map<Key, seq<byte>>, closed: set<Key>, ps: seq<Packet>, key: Key, stream: seq<Recv>,
        bufLen: nat) {
    && PairwiseClear(ps)
    && OneEvent(ps, key)
    && (forall p <- ps :: Genuine(sent, p) && Apart(p, stream) && p.End() <= bufLen)
    && (forall p <- ps :: KeyOf(p) in closed ==> !p.Covers(0))
  }

  ghost predicate Counted(sent: map<Key, seq<byte>>, closed: set<Key>, rx: Rx, stream: seq<Recv>, bufLen: nat) {
    && rx.pktCount <= |rx.writes|
    && rx.totalBytesRead == Sum(Accepted(rx))
    && Tally(sent, closed, Accepted(rx), (rx.srcId, rx.prevTick), stream, bufLen)
  }

  ghost predicate Inv(sent: map<Key, seq<byte>>, closed: set<Key>, rx: Rx, stream: seq<Recv>, bufLen: nat) {
    rx.veryFirstRead || Counted(sent, closed, rx, stream, bufLen)
  }

  lemma AddToAccepted(s: Rx, p: Packet, s': Rx)
    requires s.pktCount <= |s.writes|
    requires s'.writes == s.writes + [p] && s'.pktCount == s.pktCount + 1
    ensures Accepted(s') == Accepted(s) + [p]
    ensures Sum(Accepted(s')) == Sum(Accepted(s)) + |p.payload|
  {
    assert Accepted(s') == Accepted(s) + [p];
    assert (Accepted(s) + [p])[..s.pktCount] == Accepted(s);
  }

  lemma TallyAppend(sent: map<Key, seq<byte>>, closed: set<Key>, ps: seq<Packet>, p: Packet, stream: seq<Recv>,
        bufLen: nat)
    requires Tally(sent, closed, ps, KeyOf(p), stream, bufLen)
    requires Tally(sent, closed, [p], KeyOf(p), stream, bufLen)
    requires forall a <- ps :: Clear(a, p)
    ensures Tally(sent, closed, ps + [p], KeyOf(p), stream, bufLen)
  {
  }

  lemma TallyTail(sent: map<Key, seq<byte>>, closed: set<Key>, ps: seq<Packet>, key: Key, stream: seq<Recv>,
        bufLen: nat)
    requires stream != [] && Tally(sent, closed, ps, key, stream, bufLen)
    ensures Tally(sent, closed, ps, key, stream[1..], bufLen)
    ensures IsPacket(stream[0]) ==> forall a <- ps :: Clear(a, Parse(stream[0]))
  {
    var tail := stream[1..];
    assert forall i :: 0 <= i < |tail| ==> tail[i] == stream[i + 1];
  }

  lemma CommitKeeps(sent: map<Key, seq<byte>>, closed: set<Key>, s: Rx, p: Packet, stream: seq<Recv>, bufLen: nat)
    requires s.pktCount <= |s.writes| && s.totalBytesRead == Sum(Accepted(s))
    requires Tally(sent, closed, Accepted(s), KeyOf(p), stream, bufLen)
    requires Tally(sent, closed, [p], KeyOf(p), stream, bufLen)
    requires forall a <- Accepted(s) :: Clear(a, p)
    requires p.dataId == s.srcId
    ensures Counted(sent, closed, Commit(s, p).rx, stream, bufLen)
  {
    AddToAccepted(s, p, Commit(s, p).rx);
    TallyAppend(sent, closed, Accepted(s), p, stream, bufLen);
  }

  lemma SkipKeeps(sent: map<Key, seq<byte>>, closed: set<Key>, s: Rx, p: Packet, stream: seq<Recv>, bufLen: nat)
    requires Inv(sent, closed, s, stream, bufLen) && Classify(s, p).Skip?
    ensures Inv(sent, closed, Classify(s, p).rx, stream, bufLen)
  {
  }

  lemma StoreKeeps(sent: map<Key, seq<byte>>, closed: set<Key>, s: Rx, p: Packet, stream: seq<Recv>, bufLen: nat)
    requires s.veryFirstRead ==> s.pktCount == s.totalBytesRead == 0
    requires Inv(sent, closed, s, stream, bufLen) && Classify(s, p).Store?
    requires !s.veryFirstRead ==> forall a <- Accepted(s) :: Clear(a, p)
    requires Tally(sent, closed, [p], KeyOf(p), stream, bufLen)
    ensures Counted(sent, closed, Commit(Classify(s, p).rx, p).rx, stream, bufLen)
  {
    var s1 := Classify(s, p).rx;
    if s1.pktCount == 0 {
      assert Accepted(s1) == [];
    } else {
      assert Accepted(s1) == Accepted(s);
    }
    CommitKeeps(sent, closed, s1, p, stream, bufLen);
  }

  /** What `Done` reports when it reports success. */
  ghost predicate Finished(sent: map<Key, seq<byte>>, closed: set<Key>, result: Result, rx: Rx, stream: seq<Recv>,
        bufLen: nat) {
    && Counted(sent, closed, rx, stream, bufLen)
    && result == Built(rx.totalBytesRead, rx.prevTick, rx.srcId)
    && rx.pktCount > 0
    && rx.totalBytesRead >= rx.writes[|rx.writes| - 1].length
  }

  lemma StepKeeps(sent: map<Key, seq<byte>>, closed: set<Key>, rx: Rx, stream: seq<Recv>, bufLen: nat)
    requires stream != [] && Honest(sent, stream) && Shut(closed, stream)
    requires Inv(sent, closed, rx, stream, bufLen)
    ensures Honest(sent, stream[1..]) && Shut(closed, stream[1..])
    ensures var step := Next(rx, stream[0], bufLen);
            && (step.More? ==> Inv(sent, closed, step.rx, stream[1..], bufLen))
            && (step.Done? && step.result.Built? ==> Finished(sent, closed, step.result, step.rx, stream[1..], bufLen))
  {
    HonestTail(sent, stream);
    ShutTail(closed, stream);
    var s := TopOfLoop(rx);
    if !s.veryFirstRead {
      TallyTail(sent, closed, Accepted(s), (s.srcId, s.prevTick), stream, bufLen);
    }
    if IsPacket(stream[0]) {
      var p := Parse(stream[0]);
      match Classify(s, p)
      case Fault =>
      case Skip(_) => SkipKeeps(sent, closed, s, p, stream[1..], bufLen);
      case Store(_) =>
        if p.End() <= bufLen {
          StoreKeeps(sent, closed, s, p, stream[1..], bufLen);
        }
    }
  }

  lemma ShutTail(closed: set<Key>, stream: seq<Recv>)
    requires stream != [] && Shut(closed, stream)
    ensures Shut(closed, stream[1..])
    ensures IsPacket(stream[0]) && KeyOf(Parse(stream[0])) in closed ==> !Parse(stream[0]).Covers(0)
  {
    var tail := stream[1..];
    assert forall i :: 0 <= i < |tail| ==> tail[i] == stream[i + 1];
  }

  /** What a successful call returns, and that its first byte cannot come again. */
  ghost predicate Faithful(sent: map<Key, seq<byte>>, closed: set<Key>, buf: seq<byte>, r: RunResult)
    requires r.result.Built?
  {
    var key := (r.result.dataId, r.result.tick);
    && key in sent
    && r.result.bytes == |sent[key]| <= |buf|
    && WriteAll(buf, r.rx.writes)[..r.result.bytes] == sent[key]
    && (sent[key] != [] ==> key !in closed && Shut({key}, r.rest))
  }

  lemma FirstByteShut(p: Packet, stream: seq<Recv>)
    requires Apart(p, stream) && p.Covers(0)
    ensures Shut({KeyOf(p)}, stream)
  {
  }

  lemma EqualPrefix(b: seq<byte>, event: seq<byte>)
    requires |event| <= |b| && forall i :: 0 <= i < |event| ==> b[i] == event[i]
    ensures b[..|event|] == event
  {
  }

  lemma AcceptedBytes(buf: seq<byte>, before: seq<Packet>, ps: seq<Packet>, event: seq<byte>)
    requires forall p <- ps :: FragmentOf(p, event) && p.End() <= |buf|
    requires forall i :: 0 <= i < |event| ==> CoveredBy(ps, i)
    ensures |event| <= |buf| && WriteAll(buf, before + ps)[..|event|] == event
  {
    if event != [] {
      assert CoveredBy(ps, |event| - 1);
    }
    var after := WriteAll(buf, before + ps);
    forall i | 0 <= i < |event|
      ensures after[i] == event[i]
    {
      WritesAgree(buf, before, ps, event, i);
    }
    EqualPrefix(after, event);
  }

  lemma BuiltIsFaithful(sent: map<Key, seq<byte>>, closed: set<Key>, buf: seq<byte>, r: RunResult)
    requires Finished(sent, closed, r.result, r.rx, r.rest, |buf|)
    ensures Faithful(sent, closed, buf, r)
  {
    var ps := Accepted(r.rx);
    var key := (r.rx.srcId, r.rx.prevTick);
    var last := ps[|ps| - 1];
    assert r.rx.writes[|r.rx.writes| - 1] == last && last in ps;
    assert KeyOf(last) == key && Genuine(sent, last);
    var event := sent[key];
    CountingCovers(ps, key, event);
    var before := r.rx.writes[..|r.rx.writes| - r.rx.pktCount];
    assert before + ps == r.rx.writes;
    AcceptedBytes(buf, before, ps, event);
    if event != [] {
      assert CoveredBy(ps, 0);
      var q :| q in ps && q.Covers(0);
      FirstByteShut(q, r.rest);
    }
  }

  lemma {:induction false} RunSafe(sent: map<Key, seq<byte>>, closed: set<Key>, rx: Rx, stream: seq<Recv>,
        buf: seq<byte>)
    requires Honest(sent, stream) && Shut(closed, stream) && Inv(sent, closed, rx, stream, |buf|)
    ensures var r := Run(rx, stream, |buf|);
            && Honest(sent, r.rest) && Shut(closed, r.rest)
            && (r.result.Built? ==> Faithful(sent, closed, buf, r))
    decreases |stream|
  {
    if stream != [] {
      StepKeeps(sent, closed, rx, stream, |buf|);
      match Next(rx, stream[0], |buf|)
      case More(s) => RunSafe(sent, closed, s, stream[1..], buf);
      case Done(result, s) =>
        if result.Built? {
          BuiltIsFaithful(sent, closed, buf, Run(rx, stream, |buf|));
        }
    }
  }

  /** A single call: whatever it returns is a sent event, in full. */
  lemma CallReturnsSentEvent(sent: map<Key, seq<byte>>, stream: seq<Recv>, buf: seq<byte>)
    requires Honest(sent, stream)
    ensures var r := Run(RX_START, stream, |buf|);
            r.result.Built? ==>
              var key := (r.result.dataId, r.result.tick);
              && key in sent
              && r.result.bytes == |sent[key]| <= |buf|
              && WriteAll(buf, r.rx.writes)[..r.result.bytes] == sent[key]
  {
    RunSafe(sent, {}, RX_START, stream, buf);
  }

  // ----- Repeated calls -----

  ghost predicate Correct(sent: map<Key, seq<byte>>, d: Delivery) {
    && (d.dataId, d.tick) in sent
    && d.bytes == |sent[(d.dataId, d.tick)]| <= |d.buffer|
    && d.buffer[..d.bytes] == sent[(d.dataId, d.tick)]
  }

  ghost predicate Distinct(ds: seq<Delivery>) {
    forall i, j :: 0 <= i < j < |ds| && ds[i].bytes > 0 ==>
      (ds[i].dataId, ds[i].tick) != (ds[j].dataId, ds[j].tick)
  }

  lemma {:induction false} SessionSafe(sent: map<Key, seq<byte>>, closed: set<Key>, rx: Rx, buf: seq<byte>,
        stream: seq<Recv>)
    requires Honest(sent, stream) && Shut(closed, stream) && Inv(sent, closed, rx, stream, |buf|)
    ensures var ds := Session(rx, buf, stream);
            && (forall d <- ds :: Correct(sent, d) && (d.bytes > 0 ==> (d.dataId, d.tick) !in closed))
            && Distinct(ds)
    decreases |stream|
  {
    RunSafe(sent, closed, rx, stream, buf);
    var r := Run(rx, stream, |buf|);
    if !r.result.Waiting? && r.result != Failed(DIVIDE_BY_ZERO) {
      var buf1 := WriteAll(buf, r.rx.writes);
      if r.result.Built? {
        var key := (r.result.dataId, r.result.tick);
        var closed1 := if r.result.bytes > 0 then closed + {key} else closed;
        SessionSafe(sent, closed1, RX_START, buf1, r.rest);
        DistinctCons(Delivery(key.0, key.1, r.result.bytes, buf1), Session(RX_START, buf1, r.rest));
      } else {
        SessionSafe(sent, closed, RX_START, buf1, r.rest);
      }
    }
  }

  lemma DistinctCons(d: Delivery, ds: seq<Delivery>)
    requires Distinct(ds)
    requires d.bytes > 0 ==> forall e <- ds :: (e.dataId, e.tick) != (d.dataId, d.tick)
    ensures Distinct([d] + ds)
  {
  }

  /** The safety theorem: over any number of calls on an honest stream, every
      delivery is a sent event, byte for byte, and no (nonempty) event is
      delivered twice. */
  lemma DeliveriesAreSentEvents(sent: map<Key, seq<byte>>, buf: seq<byte>, stream: seq<Recv>)
    requires Honest(sent, stream)
    ensures forall d <- Session(RX_START, buf, stream) :: Correct(sent, d)
    ensures Distinct(Session(RX_START, buf, stream))
  {
    SessionSafe(sent, {}, RX_START, buf, stream);
  }
}
