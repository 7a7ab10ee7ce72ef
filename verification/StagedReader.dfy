/** `getPacketizedBuffer`: reading one large event in stages, in order, with the
    returned offset passed to the next call. */
module StagedReader {
  import opened Headers
  import opened Reassembly
  import opened Receiver
  import opened AllocatingReassembly

  datatype StageCode = NO_REASSEMBLY | OUT_OF_ORDER | READ_ERROR | SHORT_PACKET | PAST_END | WAITING

  /** The variables of a call at the top of its loop; `data` is what has been
      stored at the start of the buffer so far. */
  datatype Stage = Stage(veryFirstRead: bool, srcId: nat, tick: nat, nextOffset: nat,
                         rejectedPkt: nat, pktCount: nat, data: seq<byte>)

  datatype StageStep = Continue(stage: Stage) | Finish(stage: Stage) | Abort(code: StageCode)

  /** One packet; `bufLen` bytes of buffer in all. */
  function Take(s: Stage, p: Packet, bufLen: nat): StageStep {
    if p.offset != (if s.veryFirstRead then 0 else s.nextOffset) then Abort(OUT_OF_ORDER)
    else if !s.veryFirstRead && (p.dataId != s.srcId || p.tick != s.tick) then
      if s.rejectedPkt + 1 >= 100 then Abort(NO_REASSEMBLY)
      else Continue(s.(rejectedPkt := s.rejectedPkt + 1))
    else if |s.data| + |p.payload| > bufLen then Abort(PAST_END)
    else if Wrap(p.End()) >= p.length then Finish(Stored(s, p))
    else Continue(Stored(s, p))
  }

  /** Offsets are 32 bits wide. */
  function Wrap(x: int): nat {
    x % 0x1_0000_0000
  }

  function Stored(s: Stage, p: Packet): Stage {
    Stage(false, p.dataId, p.tick, Wrap(p.End()), s.rejectedPkt, s.pktCount + 1, s.data + p.payload)
  }

  /** Failed calls leave an error code, others the stage reached; `last` is set
      when the event is complete. */
  datatype StageResult = StageOk(last: bool, stage: Stage, rest: seq<Recv>) | StageFailed(code: StageCode,
        rest: seq<Recv>)

  function RunStage(s: Stage, stream: seq<Recv>, bufLen: nat): (r: StageResult)
    requires |s.data| <= bufLen
    ensures |r.rest| <= |stream|
    decreases |stream|
  {
    if bufLen - |s.data| < MAX_EJFAT_MTU then StageOk(false, s, stream)
    else if stream == [] then StageFailed(WAITING, [])
    else if stream[0].RecvError? then StageFailed(READ_ERROR, stream[1..])
    else if !IsPacket(stream[0]) then StageFailed(SHORT_PACKET, stream[1..])
    else
      var step := Take(s, Parse(stream[0]), bufLen);
      if step.Abort? then StageFailed(step.code, stream[1..])
      else if step.Finish? then StageOk(true, step.stage, stream[1..])
      else RunStage(step.stage, stream[1..], bufLen)
  }

  function Start(veryFirstRead: bool, srcId: nat, tick: nat, offset: nat): Stage {
    Stage(veryFirstRead, srcId, tick, offset, 0, 0, [])
  }

  lemma RunStageStep(s: Stage, stream: seq<Recv>, bufLen: nat, p: Packet)
    requires |s.data| <= bufLen && bufLen - |s.data| >= MAX_EJFAT_MTU
    requires stream != [] && IsPacket(stream[0]) && p == Parse(stream[0])
    ensures RunStage(s, stream, bufLen) ==
            var step := Take(s, p, bufLen);
            if step.Abort? then StageFailed(step.code, stream[1..])
            else if step.Finish? then StageOk(true, step.stage, stream[1..])
            else RunStage(step.stage, stream[1..], bufLen)
  {
  }

  lemma RunStageFull(s: Stage, stream: seq<Recv>, bufLen: nat)
    requires |s.data| <= bufLen && bufLen - |s.data| < MAX_EJFAT_MTU
    ensures RunStage(s, stream, bufLen) == StageOk(false, s, stream)
  {
  }

  lemma RunStageUnread(s: Stage, stream: seq<Recv>, bufLen: nat)
    requires |s.data| <= bufLen && bufLen - |s.data| >= MAX_EJFAT_MTU
    requires stream == [] || !IsPacket(stream[0])
    ensures RunStage(s, stream, bufLen) ==
            if stream == [] then StageFailed(WAITING, [])
            else StageFailed(if stream[0].RecvError? then READ_ERROR else SHORT_PACKET, stream[1..])
  {
  }

  /** The buffer now, given what it was before and what has been stored from its start. */
  ghost predicate Holds(now: seq<byte>, data: seq<byte>, before: seq<byte>) {
    |data| <= |before| && now == data + before[|data|..]
  }

  method AppendPayload(dataBuf: array<byte>, at: nat, payload: seq<byte>, ghost data: seq<byte>,
        ghost before: seq<byte>)
    requires at == |data| && at + |payload| <= dataBuf.Length
    requires Holds(dataBuf[..], data, before)
    modifies dataBuf
    ensures Holds(dataBuf[..], data + payload, before)
  {
    CopyInto(dataBuf, at, payload);
  }

  lemma HoldsNothing(before: seq<byte>)
    ensures Holds(before, [], before)
  {
  }

  lemma WrapMoves(first: nat, total: nat, n: nat)
    requires first < 0x1_0000_0000 && total < 0x1_0000_0000
    ensures Wrap(first) == first && Wrap(0 - 0) == 0
    ensures Wrap(Wrap(first + total) - first) == total
    ensures Wrap(Wrap(first + total) + n) == Wrap(first + total + n)
  {
  }

  /** The tests on a packet's offset, source and tick, and the new values of the
      variables; `stored` says whether the payload goes into the buffer. */
  method Examine(s: Stage, p: Packet, bufLen: nat) returns (step: StageStep, stored: bool)
    ensures step == Take(s, p, bufLen)
    ensures step.Abort? ==> !stored
    ensures !step.Abort? && !stored ==> step.Continue? && step.stage == s.(rejectedPkt := s.rejectedPkt + 1)
    ensures stored ==> step.stage == Stored(s, p) && |s.data| + |p.payload| <= bufLen
    ensures stored ==> p.offset == if s.veryFirstRead then 0 else s.nextOffset
  {
    stored := false;
    if s.veryFirstRead {
      if p.offset != 0 {
        return Abort(OUT_OF_ORDER), false;
      }
    } else {
      if p.offset != s.nextOffset {
        return Abort(OUT_OF_ORDER), false;
      }
      if p.dataId != s.srcId || p.tick != s.tick {
        var rejectedPkt := s.rejectedPkt + 1;
        if rejectedPkt >= 100 {
          return Abort(NO_REASSEMBLY), false;
        }
        return Continue(s.(rejectedPkt := rejectedPkt)), false;
      }
    }
    if |p.payload| > bufLen - |s.data| {
      return Abort(PAST_END), false;
    }
    var nextOffset := Wrap(p.offset + |p.payload|);
    var s1 := Stage(false, p.dataId, p.tick, nextOffset, s.rejectedPkt, s.pktCount + 1, s.data + p.payload);
    return if nextOffset >= p.length then Finish(s1) else Continue(s1), true;
  }

  /** `getPacketizedBuffer`. The very first call of a sequence passes offset 0. */
  method GetPacketizedBuffer(dataBuf: array<byte>, socket: UdpSocket, veryFirst: bool,
                             srcId: nat, tick: nat, offset: nat)
    returns (r: StageResult, totalBytesRead: nat)
    requires veryFirst ==> offset == 0
    requires offset < 0x1_0000_0000 && dataBuf.Length < 0x1_0000_0000
    modifies dataBuf, socket
    ensures r == RunStage(Start(veryFirst, srcId, tick, offset), old(socket.incoming), dataBuf.Length)
    ensures socket.incoming == r.rest
    ensures r.StageOk? ==>
              && totalBytesRead == |r.stage.data| <= dataBuf.Length
              && Holds(dataBuf[..], r.stage.data, old(dataBuf[..]))
  {
    hide RunStage, Take, Stored, Parse, Wrap, Holds;
    var s := Start(veryFirst, srcId, tick, offset);
    totalBytesRead := 0;
    ghost var before := dataBuf[..];
    WrapMoves(offset, 0, 0);
    HoldsNothing(before);

    while true
      invariant totalBytesRead == |s.data| <= dataBuf.Length
      invariant s.nextOffset == Wrap(offset + totalBytesRead)
      invariant s.veryFirstRead ==> offset == 0 && totalBytesRead == 0
      invariant Holds(dataBuf[..], s.data, before)
      invariant RunStage(s, socket.incoming, dataBuf.Length)
             == RunStage(Start(veryFirst, srcId, tick, offset), old(socket.incoming), dataBuf.Length)
      decreases |socket.incoming|
    {
      var remainingLen := dataBuf.Length - totalBytesRead;
      if remainingLen < MAX_EJFAT_MTU {
        RunStageFull(s, socket.incoming, dataBuf.Length);
        r := StageOk(false, s, socket.incoming);
        return;
      }
      if socket.incoming == [] || !IsPacket(socket.incoming[0]) {
        RunStageUnread(s, socket.incoming, dataBuf.Length);
      }
      if socket.incoming == [] {
        r := StageFailed(WAITING, []);
        return;
      }
      ghost var input := socket.incoming;
      var packet := socket.RecvFrom();
      if packet.RecvError? {
        r := StageFailed(READ_ERROR, socket.incoming);
        return;
      } else if |packet.bytes| < RE_HEADER_BYTES {
        r := StageFailed(SHORT_PACKET, socket.incoming);
        return;
      }
      var p := Parse(packet);
      RunStageStep(s, input, dataBuf.Length, p);
      var step, stored := Examine(s, p, dataBuf.Length);
      if step.Abort? {
        r := StageFailed(step.code, socket.incoming);
        return;
      }
      if stored {
        var offsetLocal := Wrap(p.offset - offset);
        WrapMoves(offset, totalBytesRead, |p.payload|);
        AppendPayload(dataBuf, offsetLocal, p.payload, s.data, before);
        StoredFacts(s, p);
        totalBytesRead := totalBytesRead + |p.payload|;
      }
      s := step.stage;
      if step.Finish? {
        r := StageOk(true, s, socket.incoming);
        return;
      }
    }
  }

  lemma StoredFacts(s: Stage, p: Packet)
    ensures var t := Stored(s, p);
            t.data == s.data + p.payload && t.nextOffset == Wrap(p.offset + |p.payload|) && !t.veryFirstRead
  {
  }

  // ----- Staged reading composes -----

  /** The rest of an event from byte `from` on, in order, without loss, in
      nonempty payloads of at most 9000 bytes. */
  ghost predicate InSequence(event: seq<byte>, src: nat, tick: nat, from: nat, stream: seq<Recv>)
    decreases |stream|
  {
    from == |event| ||
    (&& stream != [] && IsPacket(stream[0])
     && var p := Parse(stream[0]);
     && p.dataId == src && p.tick == tick && p.length == |event| && p.offset == from
     && 0 < |p.payload| <= 9000 && p.End() <= |event| && p.payload == event[from..p.End()]
     && InSequence(event, src, tick, p.End(), stream[1..]))
  }

  /** `s` holds the event's bytes from `first` on and continues at `s.nextOffset`. */
  ghost predicate OnTrack(s: Stage, event: seq<byte>, src: nat, tick: nat, first: nat) {
    && first <= s.nextOffset <= |event| < 0x1_0000_0000
    && s.data == event[first..s.nextOffset]
    && (if s.veryFirstRead then s.nextOffset == 0 else s.srcId == src && s.tick == tick)
  }

  lemma TakeInSequence(s: Stage, event: seq<byte>, src: nat, tick: nat, first: nat, stream: seq<Recv>, bufLen: nat)
    requires OnTrack(s, event, src, tick, first) && s.nextOffset < |event|
    requires InSequence(event, src, tick, s.nextOffset, stream) && bufLen >= |s.data| + MAX_EJFAT_MTU
    ensures stream != [] && IsPacket(stream[0])
    ensures var step := Take(s, Parse(stream[0]), bufLen);
            && !step.Abort?
            && OnTrack(step.stage, event, src, tick, first)
            && s.nextOffset < step.stage.nextOffset
            && |step.stage.data| <= bufLen
            && !step.stage.veryFirstRead
            && (step.Finish? <==> step.stage.nextOffset == |event|)
            && InSequence(event, src, tick, step.stage.nextOffset, stream[1..])
  {
    hide Parse, InSequence, OnTrack;
    SequenceHead(event, src, tick, s.nextOffset, stream);
    var p := Parse(stream[0]);
    TrackNext(s, event, src, tick, first, p);
  }

  lemma SequenceHead(event: seq<byte>, src: nat, tick: nat, from: nat, stream: seq<Recv>)
    requires InSequence(event, src, tick, from, stream) && from < |event|
    ensures stream != [] && IsPacket(stream[0])
    ensures var p := Parse(stream[0]);
            && p.dataId == src && p.tick == tick && p.length == |event| && p.offset == from
            && 0 < |p.payload| <= 9000 && p.End() <= |event| && p.payload == event[from..p.End()]
            && InSequence(event, src, tick, p.End(), stream[1..])
  {
    hide Parse;
  }

  /** Taking the next packet of the event keeps the call on track. */
  lemma TrackNext(s: Stage, event: seq<byte>, src: nat, tick: nat, first: nat, p: Packet)
    requires OnTrack(s, event, src, tick, first)
    requires p.dataId == src && p.tick == tick && p.offset == s.nextOffset && p.End() <= |event|
    requires p.payload == event[p.offset..p.End()]
    ensures var t := Stored(s, p);
            && t.nextOffset == p.End() && t.data == s.data + p.payload && !t.veryFirstRead
            && OnTrack(t, event, src, tick, first)
    ensures |event| < 0x1_0000_0000
    ensures if s.veryFirstRead then s.nextOffset == 0 else s.srcId == src && s.tick == tick
  {
    assert event[first..p.offset] + event[p.offset..p.End()] == event[first..p.End()];
  }

  /** A call reads on to the end of the event or until less than a jumbo packet
      fits; what it returns is the next piece of the event. */
  ghost predicate ReadsOn(s: Stage, event: seq<byte>, src: nat, tick: nat, first: nat, r: StageResult) {
    && r.StageOk?
    && OnTrack(r.stage, event, src, tick, first)
    && s.nextOffset <= r.stage.nextOffset
    && (r.last <==> r.stage.nextOffset == |event|)
    && (!r.last ==> InSequence(event, src, tick, r.stage.nextOffset, r.rest))
  }

  lemma {:induction false} StageReads(s: Stage, event: seq<byte>, src: nat, tick: nat, first: nat,
        stream: seq<Recv>, bufLen: nat)
    requires OnTrack(s, event, src, tick, first) && s.nextOffset < |event| && |s.data| <= bufLen
    requires InSequence(event, src, tick, s.nextOffset, stream)
    ensures ReadsOn(s, event, src, tick, first, RunStage(s, stream, bufLen))
    ensures bufLen >= |s.data| + MAX_EJFAT_MTU ==>
              var r := RunStage(s, stream, bufLen);
              !r.stage.veryFirstRead && |r.rest| < |stream|
    decreases |stream|
  {
    hide Take, Parse, InSequence, OnTrack;
    if bufLen >= |s.data| + MAX_EJFAT_MTU {
      TakeInSequence(s, event, src, tick, first, stream, bufLen);
      var step := Take(s, Parse(stream[0]), bufLen);
      RunStageStep(s, stream, bufLen, Parse(stream[0]));
      if step.Continue? {
        OnTrackBound(step.stage, event, src, tick, first);
        StageReads(step.stage, event, src, tick, first, stream[1..], bufLen);
        if bufLen < |step.stage.data| + MAX_EJFAT_MTU {
          RunStageFull(step.stage, stream[1..], bufLen);
        }
      }
    } else {
      RunStageFull(s, stream, bufLen);
    }
  }

  lemma OnTrackBound(s: Stage, event: seq<byte>, src: nat, tick: nat, first: nat)
    requires OnTrack(s, event, src, tick, first)
    ensures s.nextOffset <= |event|
  {
  }

  datatype Reading = Reading(chunks: seq<seq<byte>>, complete: bool)

  /** One call per buffer, each passing on the offset, source and tick returned
      by the one before, until `last` is set. */
  function ReadAll(s: Stage, stream: seq<Recv>, caps: seq<nat>): Reading
    requires s.data == []
    decreases |caps|
  {
    if caps == [] then Reading([], false)
    else
      var r := RunStage(s, stream, caps[0]);
      if r.StageFailed? then Reading([], false)
      else if r.last then Reading([r.stage.data], true)
      else
        var more := ReadAll(Start(r.stage.veryFirstRead, r.stage.srcId, r.stage.tick, r.stage.nextOffset),
          r.rest, caps[1..]);
        Reading([r.stage.data] + more.chunks, more.complete)
  }

  function Flatten(chunks: seq<seq<byte>>): seq<byte> {
    if chunks == [] then [] else chunks[0] + Flatten(chunks[1..])
  }

  lemma {:induction false} ReadAllFrom(event: seq<byte>, src: nat, tick: nat, s: Stage, stream: seq<Recv>,
        caps: seq<nat>)
    requires OnTrack(s, event, src, tick, s.nextOffset) && s.data == [] && s.nextOffset < |event|
    requires InSequence(event, src, tick, s.nextOffset, stream)
    requires |caps| >= |stream| && forall c <- caps :: c >= 9000
    ensures var all := ReadAll(s, stream, caps);
            all.complete && Flatten(all.chunks) == event[s.nextOffset..]
    decreases |caps|
  {
    hide RunStage, InSequence;
    if caps == [] {
      NothingLeft(event, src, tick, s.nextOffset);
    } else {
      assert caps[0] in caps && forall c <- caps[1..] :: c in caps;
      StageReads(s, event, src, tick, s.nextOffset, stream, caps[0]);
      var r := RunStage(s, stream, caps[0]);
      if r.last {
        assert [r.stage.data][1..] == [];
      } else {
        var s1 := Start(r.stage.veryFirstRead, r.stage.srcId, r.stage.tick, r.stage.nextOffset);
        ReadAllFrom(event, src, tick, s1, r.rest, caps[1..]);
        var more := ReadAll(s1, r.rest, caps[1..]);
        assert ([r.stage.data] + more.chunks)[1..] == more.chunks;
        assert event[s.nextOffset..r.stage.nextOffset] + event[r.stage.nextOffset..] == event[s.nextOffset..];
      }
    }
  }

  lemma NothingLeft(event: seq<byte>, src: nat, tick: nat, from: nat)
    requires from < |event|
    ensures !InSequence(event, src, tick, from, [])
  {
  }

  /** Staged reading composes: over an in-order lossless input the pieces read
      call by call make up the event, and `last` is set exactly on the call that
      ends it. */
  lemma StagesMakeUpEvent(event: seq<byte>, src: nat, tick: nat, stream: seq<Recv>, caps: seq<nat>, srcIn: nat,
        tickIn: nat)
    requires 0 < |event| < 0x1_0000_0000 && InSequence(event, src, tick, 0, stream)
    requires |caps| >= |stream| && forall c <- caps :: c >= 9000
    ensures var all := ReadAll(Start(true, srcIn, tickIn, 0), stream, caps);
            all.complete && Flatten(all.chunks) == event
  {
    ReadAllFrom(event, src, tick, Start(true, srcIn, tickIn, 0), stream, caps);
    assert event[0..] == event;
  }
}
