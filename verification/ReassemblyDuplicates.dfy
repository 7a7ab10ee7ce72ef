/** What duplicated packets do to reassembly: counting bytes is right exactly when
    no byte was counted twice. */
module ReassemblyDuplicates {
  import opened Headers
  import opened Sets
  import opened Reassembly
  import opened ReassemblySafety
  import opened ReassemblyDelivery

  // ----- Counting bytes, with duplicates -----

  ghost predicate Meet(p: Packet, q: Packet) {
    exists k :: p.Covers(k) && q.Covers(k)
  }

  ghost predicate NoByteTwice(ps: seq<Packet>) {
    forall i, j :: 0 <= i < j < |ps| ==> !Meet(ps[i], ps[j])
  }

  lemma NoByteTwiceSplit(init: seq<Packet>, last: Packet)
    ensures NoByteTwice(init + [last]) <==> NoByteTwice(init) && forall p <- init :: !Meet(p, last)
  {
    hide Meet;
    var ps := init + [last];
    assert forall i :: 0 <= i < |init| ==> ps[i] == init[i];
    if NoByteTwice(ps) {
      forall p | p in init
        ensures !Meet(p, last)
      {
        var i :| 0 <= i < |init| && init[i] == p;
        assert !Meet(ps[i], ps[|init|]);
      }
      assert NoByteTwice(init);
    }
  }

  lemma NoneTwice()
    ensures NoByteTwice([])
  {
  }

  lemma UnionSize(a: set<nat>, b: set<nat>)
    ensures |a + b| <= |a| + |b| && (|a + b| == |a| + |b| <==> a !! b)
  {
    assert a + b == (a - b) + b && a == (a - b) + (a * b);
    assert a * b == {} <==> a !! b;
  }

  lemma CoveredMeets(ps: seq<Packet>, q: Packet)
    ensures Covered(ps) !! Range(q.offset, q.End()) <==> forall p <- ps :: !Meet(p, q)
  {
    forall p, k | p in ps && p.Covers(k) && q.Covers(k)
      ensures k in Covered(ps) && k in Range(q.offset, q.End()) && Meet(p, q)
    {
      assert CoveredBy(ps, k);
    }
    forall k | k in Covered(ps) && k in Range(q.offset, q.End())
      ensures exists p :: p in ps && Meet(p, q)
    {
      var p :| p in ps && p.Covers(k);
      assert q.Covers(k) && Meet(p, q);
    }
  }

  lemma {:induction false} CoveredAtMost(ps: seq<Packet>)
    ensures |Covered(ps)| <= Sum(ps) && (|Covered(ps)| == Sum(ps) <==> NoByteTwice(ps))
    decreases |ps|
  {
    hide Meet, NoByteTwice;
    if ps == [] {
      NoneTwice();
    } else {
      var init, last := ps[..|ps| - 1], ps[|ps| - 1];
      assert ps == init + [last];
      CoveredAtMost(init);
      NoByteTwiceSplit(init, last);
      CoveredMeets(init, last);
      UnionSize(Covered(init), Range(last.offset, last.End()));
    }
  }

  /** The exact condition for counting: fragments of one event, duplicates and
      all, whose byte count reaches the event's length have counted it exactly
      and cover every byte if and only if no two of them share a byte. */
  lemma CountingIsRightIff(ps: seq<Packet>, event: seq<byte>)
    requires forall p <- ps :: FragmentOf(p, event)
    requires Sum(ps) >= |event|
    ensures (Sum(ps) == |event| && forall i :: 0 <= i < |event| ==> CoveredBy(ps, i)) <==> NoByteTwice(ps)
  {
    hide NoByteTwice;
    var all := Range(0, |event|);
    CoveredAtMost(ps);
    assert Covered(ps) <= all;
    SubsetSize(Covered(ps), all);
    if NoByteTwice(ps) {
      forall i | 0 <= i < |event|
        ensures CoveredBy(ps, i)
      {
        assert i in all;
      }
    } else if forall i :: 0 <= i < |event| ==> CoveredBy(ps, i) {
      assert Covered(ps) == all;
    }
  }

  // ----- Any run on genuine packets -----

  /** What holds at every turn whether or not packets are duplicated. */
  ghost predicate Tallied(sent: map<Key, seq<byte>>, rx: Rx, bufLen: nat) {
    && rx.pktCount <= |rx.writes|
    && rx.totalBytesRead == Sum(Accepted(rx))
    && OneEvent(Accepted(rx), (rx.srcId, rx.prevTick))
    && forall p <- Accepted(rx) :: Genuine(sent, p) && p.End() <= bufLen
  }

  ghost predicate TalliedRun(sent: map<Key, seq<byte>>, rx: Rx, bufLen: nat) {
    rx.veryFirstRead || Tallied(sent, rx, bufLen)
  }

  ghost predicate TalliedEnd(sent: map<Key, seq<byte>>, result: Result, rx: Rx, bufLen: nat) {
    && Tallied(sent, rx, bufLen)
    && result == Built(rx.totalBytesRead, rx.prevTick, rx.srcId)
    && rx.pktCount > 0
    && rx.totalBytesRead >= rx.writes[|rx.writes| - 1].length
  }

  ghost predicate Fragments(sent: map<Key, seq<byte>>, ps: seq<Packet>, key: Key, bufLen: nat) {
    OneEvent(ps, key) && forall p <- ps :: Genuine(sent, p) && p.End() <= bufLen
  }

  lemma CommitTallies(sent: map<Key, seq<byte>>, s: Rx, p: Packet, bufLen: nat)
    requires s.pktCount <= |s.writes| && s.totalBytesRead == Sum(Accepted(s))
    requires Fragments(sent, Accepted(s), KeyOf(p), bufLen)
    requires Genuine(sent, p) && p.End() <= bufLen && p.dataId == s.srcId
    ensures Tallied(sent, Commit(s, p).rx, bufLen)
  {
    hide Genuine, Sum;
    AddToAccepted(s, p, Commit(s, p).rx);
  }

  lemma StoreTallies(sent: map<Key, seq<byte>>, s: Rx, p: Packet, bufLen: nat)
    requires s.veryFirstRead ==> s.pktCount == s.totalBytesRead == 0
    requires TalliedRun(sent, s, bufLen) && Classify(s, p).Store?
    requires Genuine(sent, p) && p.End() <= bufLen
    ensures Tallied(sent, Commit(Classify(s, p).rx, p).rx, bufLen)
    ensures Classify(s, p).rx.srcId == p.dataId
  {
    hide Genuine, Sum;
    var s1 := Classify(s, p).rx;
    SumNone();
    assert s1.pktCount == 0 || (s1.pktCount == s.pktCount && s1.srcId == s.srcId && s.prevTick == p.tick);
    assert s1.writes == s.writes;
    assert Accepted(s1) == if s1.pktCount == 0 then [] else Accepted(s);
    CommitTallies(sent, s1, p, bufLen);
  }

  lemma SumNone()
    ensures Sum([]) == 0
  {
  }

  lemma SkipTallies(sent: map<Key, seq<byte>>, s: Rx, p: Packet, bufLen: nat)
    requires TalliedRun(sent, s, bufLen) && Classify(s, p).Skip?
    ensures TalliedRun(sent, Classify(s, p).rx, bufLen)
  {
    hide Genuine, Sum;
  }

  lemma TopTallies(sent: map<Key, seq<byte>>, rx: Rx, bufLen: nat)
    requires TalliedRun(sent, rx, bufLen)
    ensures var s := TopOfLoop(rx);
            TalliedRun(sent, s, bufLen) && (s.veryFirstRead ==> s.pktCount == s.totalBytesRead == 0)
  {
    hide Tallied;
  }

  lemma CommitEnds(sent: map<Key, seq<byte>>, s: Rx, p: Packet, bufLen: nat)
    requires Tallied(sent, Commit(s, p).rx, bufLen) && s.srcId == p.dataId
    ensures var step := Commit(s, p);
            && (step.More? ==> TalliedRun(sent, step.rx, bufLen))
            && (step.Done? ==> step.result.Built? && TalliedEnd(sent, step.result, step.rx, bufLen))
  {
    hide Tallied;
  }

  lemma StepTallies(sent: map<Key, seq<byte>>, rx: Rx, r: Recv, bufLen: nat)
    requires TalliedRun(sent, rx, bufLen) && (IsPacket(r) ==> Genuine(sent, Parse(r)))
    ensures var step := Next(rx, r, bufLen);
            && (step.More? ==> TalliedRun(sent, step.rx, bufLen))
            && (step.Done? && step.result.Built? ==> TalliedEnd(sent, step.result, step.rx, bufLen))
  {
    hide Genuine, Parse, Next, Classify, TopOfLoop, Commit, Tallied, TalliedRun, TalliedEnd;
    if IsPacket(r) {
      var s, p := TopOfLoop(rx), Parse(r);
      var v := Classify(s, p);
      TopTallies(sent, rx, bufLen);
      NextOnPacket(rx, r, p, v, bufLen);
      if v.Skip? {
        SkipTallies(sent, s, p, bufLen);
      } else if v.Store? && p.End() <= bufLen {
        StoreTallies(sent, s, p, bufLen);
        CommitEnds(sent, v.rx, p, bufLen);
      }
    } else {
      NextOnError(rx, r, bufLen);
    }
  }

  lemma {:induction false} RunTallies(sent: map<Key, seq<byte>>, rx: Rx, stream: seq<Recv>, bufLen: nat)
    requires TalliedRun(sent, rx, bufLen) && AllGenuine(sent, stream)
    ensures var r := Run(rx, stream, bufLen);
            r.result.Built? ==> TalliedEnd(sent, r.result, r.rx, bufLen)
    decreases |stream|
  {
    hide Next, Genuine, Parse, TalliedRun, TalliedEnd;
    if stream != [] {
      StepTallies(sent, rx, stream[0], bufLen);
      var tail := stream[1..];
      assert forall i :: 0 <= i < |tail| ==> tail[i] == stream[i + 1];
      var step := Next(rx, stream[0], bufLen);
      if step.More? {
        RunTallies(sent, step.rx, tail, bufLen);
      }
    }
  }

  /** The call counted its event's length, and the packets it counted hold every byte. */
  ghost predicate CountedRight(r: RunResult, event: seq<byte>)
    requires r.result.Built? && r.rx.pktCount <= |r.rx.writes|
  {
    r.result.bytes == |event| && forall i :: 0 <= i < |event| ==> CoveredBy(Accepted(r.rx), i)
  }

  /** The exact condition for a call: on any stream of genuine packets, lost,
      reordered, mixed and duplicated in any way, a successful call returns the
      length of a sent event and has stored its every byte if and only if no two
      of the packets it counted share a byte; and then its buffer begins with the
      event. */
  lemma CallIsRightIff(sent: map<Key, seq<byte>>, stream: seq<Recv>, buf: seq<byte>)
    requires AllGenuine(sent, stream)
    ensures var r := Run(RX_START, stream, |buf|);
            r.result.Built? ==>
              var key := (r.result.dataId, r.result.tick);
              && key in sent && r.rx.pktCount <= |r.rx.writes|
              && (CountedRight(r, sent[key]) <==> NoByteTwice(Accepted(r.rx)))
              && (NoByteTwice(Accepted(r.rx)) ==>
                   |sent[key]| <= |buf| && WriteAll(buf, r.rx.writes)[..|sent[key]|] == sent[key])
  {
    hide Run, WriteAll, NoByteTwice, CoveredBy;
    RunTallies(sent, RX_START, stream, |buf|);
    var r := Run(RX_START, stream, |buf|);
    if r.result.Built? {
      var ps := Accepted(r.rx);
      var last := ps[|ps| - 1];
      assert last == r.rx.writes[|r.rx.writes| - 1] && last in ps;
      var event := sent[(r.result.dataId, r.result.tick)];
      assert forall p <- ps :: FragmentOf(p, event);
      CountingIsRightIff(ps, event);
      if NoByteTwice(ps) {
        var before := r.rx.writes[..|r.rx.writes| - r.rx.pktCount];
        assert before + ps == r.rx.writes;
        AcceptedBytes(buf, before, ps, event);
      }
    }
  }

  // ----- The buffer -----

  lemma {:induction false} UncoveredStays(buf: seq<byte>, ws: seq<Packet>, i: nat)
    requires i < |buf| && !CoveredBy(ws, i)
    ensures WriteAll(buf, ws)[i] == buf[i]
    decreases |ws|
  {
    if ws != [] {
      CoveredByParts(ws);
      UncoveredStays(buf, ws[..|ws| - 1], i);
    }
  }

  /** The call's answer and buffer are right. */
  ghost predicate Right(r: RunResult, buf: seq<byte>, event: seq<byte>)
    requires r.result.Built?
  {
    r.result.bytes == |event| <= |buf| && WriteAll(buf, r.rx.writes)[..|event|] == event
  }

  lemma ShowsThrough(r: RunResult, buf: seq<byte>, event: seq<byte>, i: nat)
    requires r.result.Built? && i < |event| <= |buf| && !CoveredBy(r.rx.writes, i) && buf[i] != event[i]
    ensures !Right(r, buf, event)
  {
    hide WriteAll, CoveredBy;
    UncoveredStays(buf, r.rx.writes, i);
    var after := WriteAll(buf, r.rx.writes);
    assert after[..|event|][i] == after[i];
  }

  ghost predicate RightForAll(r: RunResult, bufLen: nat, event: seq<byte>)
    requires r.result.Built?
  {
    forall buf: seq<byte> :: |buf| == bufLen ==> Right(r, buf, event)
  }

  /** When the call dropped nothing it had stored, that is also exactly when its
      answer is right whatever the buffer held before. */
  lemma BufferIsRightIff(sent: map<Key, seq<byte>>, stream: seq<Recv>, bufLen: nat)
    requires AllGenuine(sent, stream)
    ensures var r := Run(RX_START, stream, bufLen);
            r.result.Built? && r.rx.pktCount == |r.rx.writes| ==>
              var key := (r.result.dataId, r.result.tick);
              key in sent && (RightForAll(r, bufLen, sent[key]) <==> NoByteTwice(r.rx.writes))
  {
    hide Run, WriteAll, NoByteTwice, CoveredBy, Right, Genuine;
    var zeros: seq<byte> := seq(bufLen, _ => 0);
    CallIsRightIff(sent, stream, zeros);
    var r := Run(RX_START, stream, bufLen);
    if r.result.Built? && r.rx.pktCount == |r.rx.writes| {
      assert Accepted(r.rx) == r.rx.writes;
      var event := sent[(r.result.dataId, r.result.tick)];
      if NoByteTwice(r.rx.writes) {
        forall buf: seq<byte> | |buf| == bufLen
          ensures Right(r, buf, event)
        {
          CallIsRightIff(sent, stream, buf);
          RightWhen(r, buf, event);
        }
      } else {
        WrongForSome(r, bufLen, event);
      }
    }
  }

  lemma RightWhen(r: RunResult, buf: seq<byte>, event: seq<byte>)
    requires r.result.Built? && r.result.bytes == |event| <= |buf|
    requires WriteAll(buf, r.rx.writes)[..|event|] == event
    ensures Right(r, buf, event)
  {
  }

  /** A byte that was not stored shows what the buffer held before. */
  lemma WrongForSome(r: RunResult, bufLen: nat, event: seq<byte>)
    requires r.result.Built?
    requires r.result.bytes != |event| || exists i :: 0 <= i < |event| && !CoveredBy(r.rx.writes, i)
    ensures !RightForAll(r, bufLen, event)
  {
    hide WriteAll, CoveredBy;
    if r.result.bytes == |event| <= bufLen {
      var i :| 0 <= i < |event| && !CoveredBy(r.rx.writes, i);
      var other: byte := if event[i] == 0 then 1 else 0;
      var buf: seq<byte> := seq(bufLen, _ => other);
      ShowsThrough(r, buf, event, i);
    } else {
      var zeros: seq<byte> := seq(bufLen, _ => 0);
      assert !Right(r, zeros, event);
    }
  }

  // ----- One event -----

  /** Why duplicates are excluded: a first packet that holds at least half of its
      event, but not all of it, and arrives twice is taken for the whole event.
      The call reports success although no byte after that packet was stored. */
  lemma DuplicateIsTakenForWhole(r: Recv, event: seq<byte>, buf: seq<byte>)
    requires IsPacket(r) && FragmentOf(Parse(r), event) && Parse(r).offset == 0
    requires |Parse(r).payload| < |event| <= 2 * |Parse(r).payload| && |event| <= |buf|
    ensures var run := Run(RX_START, [r, r], |buf|);
            var p := Parse(r);
            && run.result == Built(2 * |p.payload|, p.tick, p.dataId)
            && forall i :: |p.payload| <= i < |buf| ==> WriteAll(buf, run.rx.writes)[i] == buf[i]
  {
    hide Next, Parse, Run, WriteAll;
    var p := Parse(r);
    FirstStep(RX_START, p.dataId, p.tick, |event|, r, |buf|);
    var rx := Next(RX_START, r, |buf|).rx;
    BuildingStep(rx, p.dataId, p.tick, |event|, r, |buf|);
    RunStep(RX_START, [r, r], |buf|);
    RunStep(rx, [r], |buf|);
    assert [r, r][1..] == [r];
    WriteNone(buf);
    WriteNext(buf, [], p);
    WriteNext(buf, [p], p);
    assert [p] == [] + [p] && Next(rx, r, |buf|).rx.writes == [p] + [p];
  }
}
