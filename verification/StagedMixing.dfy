/** Staged reading of any input whatever: what a call stores comes from its own
    source and tick only, in order and without gap; packets of others that turn up
    at the expected offset are counted, and end the call at the hundredth. */
module StagedMixing {
  import opened Headers
  import opened Reassembly
  import opened ReassemblySafety
  import opened StagedReader

  predicate Belongs(key: Key, r: Recv) {
    IsPacket(r) && KeyOf(Parse(r)) == key
  }

  /** The packets of one source and tick, in order. */
  function OwnOnly(key: Key, read: seq<Recv>): seq<Recv> {
    if read == [] then [] else (if Belongs(key, read[0]) then [read[0]] else []) + OwnOnly(key, read[1..])
  }

  function Foreigns(key: Key, read: seq<Recv>): nat {
    if read == [] then 0 else (if Belongs(key, read[0]) then 0 else 1) + Foreigns(key, read[1..])
  }

  function Payloads(key: Key, read: seq<Recv>): seq<byte> {
    if read == [] then []
    else (if Belongs(key, read[0]) then Parse(read[0]).payload else []) + Payloads(key, read[1..])
  }

  /** The offset expected after `read` when `from` was expected before it. */
  function Expected(key: Key, read: seq<Recv>, from: nat): nat {
    if read == [] then from
    else Expected(key, read[1..], if Belongs(key, read[0]) then Parse(read[0]).End() % 0x1_0000_0000 else from)
  }

  /** Every packet, foreign ones included, has the offset expected when it comes. */
  predicate InStep(key: Key, read: seq<Recv>, from: nat)
    decreases |read|
  {
    read == [] ||
    (&& IsPacket(read[0]) && Parse(read[0]).offset == from
     && InStep(key, read[1..], if Belongs(key, read[0]) then Parse(read[0]).End() % 0x1_0000_0000 else from))
  }

  /** The packet that completes its event, going by its own header. */
  predicate IsLast(r: Recv) {
    IsPacket(r) && Parse(r).End() % 0x1_0000_0000 >= Parse(r).length
  }

  // ----- Whatever the input -----

  predicate Mine(s: Stage, key: Key, stream: seq<Recv>) {
    if s.veryFirstRead then stream != [] && Belongs(key, stream[0]) else (s.srcId, s.tick) == key
  }

  function From(s: Stage): nat {
    if s.veryFirstRead then 0 else s.nextOffset
  }

  /** There was room for a jumbo packet before the last packet was read. */
  ghost predicate HadRoom(s: Stage, key: Key, read: seq<Recv>, bufLen: nat) {
    read != [] ==> |s.data| + |Payloads(key, read[..|read| - 1])| + 9000 <= bufLen
  }

  /** A call that succeeds from `s` after reading `read`: it stops at the end of
      the event, or when there is no room for another jumbo packet. */
  ghost predicate Succeeds(s: Stage, key: Key, read: seq<Recv>, last: bool, t: Stage, bufLen: nat) {
    && HadRoom(s, key, read, bufLen)
    && (!last ==> |t.data| + 9000 > bufLen)
    && InStep(key, read, From(s))
    && t.data == s.data + Payloads(key, read)
    && t.rejectedPkt == s.rejectedPkt + Foreigns(key, read)
    && t.pktCount + Foreigns(key, read) == s.pktCount + |read|
    && (read != [] ==> !t.veryFirstRead && (t.srcId, t.tick) == key && t.nextOffset == Expected(key, read, From(s)))
    && (read == [] ==> t == s)
    && (last ==> read != [] && Belongs(key, read[|read| - 1]) && IsLast(read[|read| - 1]))
    && (!last ==> forall r <- read :: Belongs(key, r) ==> !IsLast(r))
    && (Foreigns(key, read) > 0 ==> t.rejectedPkt < 100)
  }

  /** A call that fails, and why: a read error, a runt, own data that does not fit;
      a packet out of order is the first not at the expected
      offset, and too many foreign packets are a hundred of them. */
  ghost predicate Fails(s: Stage, key: Key, read: seq<Recv>, code: StageCode, bufLen: nat) {
    && HadRoom(s, key, read, bufLen)
    && (code != WAITING ==> read != [] && InStep(key, read[..|read| - 1], From(s)))
    && (code == READ_ERROR ==> read[|read| - 1].RecvError?)
    && (code == SHORT_PACKET ==> read[|read| - 1].Datagram? && |read[|read| - 1].bytes| < 20)
    && (code == PAST_END ==>
         Belongs(key, read[|read| - 1]) && |s.data| + |Payloads(key, read)| > bufLen)
    && (code == OUT_OF_ORDER ==>
         && IsPacket(read[|read| - 1])
         && Parse(read[|read| - 1]).offset != Expected(key, read[..|read| - 1], From(s)))
    && (code == NO_REASSEMBLY ==>
         && InStep(key, read, From(s)) && !Belongs(key, read[|read| - 1])
         && s.rejectedPkt + Foreigns(key, read) >= 100
         && (s.rejectedPkt < 100 ==> s.rejectedPkt + Foreigns(key, read) == 100))
  }

  ghost predicate Explains(s: Stage, key: Key, read: seq<Recv>, r: StageResult, bufLen: nat) {
    match r
    case StageOk(last, t, _) => Succeeds(s, key, read, last, t, bufLen)
    case StageFailed(code, _) => Fails(s, key, read, code, bufLen)
  }

  lemma TakeForeign(s: Stage, p: Packet, bufLen: nat)
    requires !s.veryFirstRead && KeyOf(p) != (s.srcId, s.tick)
    ensures Take(s, p, bufLen) ==
            if p.offset != s.nextOffset then Abort(OUT_OF_ORDER)
            else if s.rejectedPkt + 1 >= 100 then Abort(NO_REASSEMBLY)
            else Continue(s.(rejectedPkt := s.rejectedPkt + 1))
  {
  }

  lemma TakeOwn(s: Stage, p: Packet, bufLen: nat)
    requires s.veryFirstRead || KeyOf(p) == (s.srcId, s.tick)
    ensures var t := Stage(false, p.dataId, p.tick, p.End() % 0x1_0000_0000, s.rejectedPkt, s.pktCount + 1,
                           s.data + p.payload);
            Take(s, p, bufLen) ==
            if p.offset != From(s) then Abort(OUT_OF_ORDER)
            else if |s.data| + |p.payload| > bufLen then Abort(PAST_END)
            else if p.End() % 0x1_0000_0000 >= p.length then Finish(t)
            else Continue(t)
  {
  }

  /** What the first packet of a call does to it, when it goes on after it. */
  ghost predicate Takes(s: Stage, key: Key, r: Recv, t: Stage) {
    && IsPacket(r) && Parse(r).offset == From(s) && !t.veryFirstRead && (t.srcId, t.tick) == key
    && if Belongs(key, r)
       then t == Stage(false, key.0, key.1, Parse(r).End() % 0x1_0000_0000, s.rejectedPkt, s.pktCount + 1,
                       s.data + Parse(r).payload) && !IsLast(r)
       else !s.veryFirstRead && (s.srcId, s.tick) == key && s.rejectedPkt + 1 < 100
            && t == s.(rejectedPkt := s.rejectedPkt + 1)
  }

  lemma AllButLast(r: Recv, read: seq<Recv>)
    requires read != []
    ensures var all := [r] + read;
            && all[|all| - 1] == read[|read| - 1]
            && all[..|all| - 1] == [r] + read[..|read| - 1]
  {
  }

  lemma PayloadsFirst(key: Key, r: Recv, read: seq<Recv>)
    ensures Payloads(key, [r] + read) == (if Belongs(key, r) then Parse(r).payload else []) + Payloads(key, read)
    ensures Foreigns(key, [r] + read) == (if Belongs(key, r) then 0 else 1) + Foreigns(key, read)
  {
    hide Parse;
    assert ([r] + read)[1..] == read;
  }

  lemma InStepFirst(key: Key, r: Recv, read: seq<Recv>, from: nat)
    requires IsPacket(r) && Parse(r).offset == from
    ensures var next := if Belongs(key, r) then Parse(r).End() % 0x1_0000_0000 else from;
            && (InStep(key, [r] + read, from) <==> InStep(key, read, next))
            && Expected(key, [r] + read, from) == Expected(key, read, next)
  {
    hide Parse;
    assert ([r] + read)[1..] == read;
  }

  lemma RoomFirst(s: Stage, key: Key, r: Recv, t: Stage, read: seq<Recv>, bufLen: nat)
    requires Takes(s, key, r, t) && |s.data| + 9000 <= bufLen && HadRoom(t, key, read, bufLen)
    ensures HadRoom(s, key, [r] + read, bufLen)
  {
    hide Parse, IsLast, Payloads;
    NoPayloads(key);
    if read == [] {
      var none: seq<Recv> := [];
      assert ([r] + read)[..|[r] + read| - 1] == none;
    } else {
      AllButLast(r, read);
      PayloadsFirst(key, r, read[..|read| - 1]);
    }
  }

  lemma NoPayloads(key: Key)
    ensures Payloads(key, []) == [] && Foreigns(key, []) == 0
  {
  }

  lemma SucceedsFirst(s: Stage, key: Key, r: Recv, t: Stage, read: seq<Recv>, last: bool, end: Stage, bufLen: nat)
    requires Takes(s, key, r, t) && |s.data| + 9000 <= bufLen
    requires Succeeds(t, key, read, last, end, bufLen)
    ensures Succeeds(s, key, [r] + read, last, end, bufLen)
  {
    hide Parse, Belongs, IsLast, Payloads, Foreigns, InStep, Expected, HadRoom;
    var all := [r] + read;
    RoomFirst(s, key, r, t, read, bufLen);
    PayloadsFirst(key, r, read);
    InStepFirst(key, r, read, From(s));
    assert s.data + (Parse(r).payload + Payloads(key, read)) == (s.data + Parse(r).payload) + Payloads(key, read);
    assert [] + Payloads(key, read) == Payloads(key, read);
    if read == [] {
      NoPayloads(key);
      NoneExpected(key, t.nextOffset);
    } else {
      AllButLast(r, read);
    }
    assert forall x <- all :: x == r || x in read;
    assert !last ==> forall x <- all :: Belongs(key, x) ==> !IsLast(x);
  }

  lemma NoneExpected(key: Key, from: nat)
    ensures Expected(key, [], from) == from
  {
  }

  lemma FailsFirst(s: Stage, key: Key, r: Recv, t: Stage, read: seq<Recv>, code: StageCode, bufLen: nat)
    requires Takes(s, key, r, t) && |s.data| + 9000 <= bufLen
    requires Fails(t, key, read, code, bufLen)
    ensures Fails(s, key, [r] + read, code, bufLen)
  {
    hide Parse, Belongs, IsLast, Payloads, Foreigns, InStep, Expected, HadRoom;
    RoomFirst(s, key, r, t, read, bufLen);
    PayloadsFirst(key, r, read);
    InStepFirst(key, r, read, From(s));
    if read != [] {
      AllButLast(r, read);
      InStepFirst(key, r, read[..|read| - 1], From(s));
    }
  }

  lemma Single(key: Key, r: Recv, from: nat)
    ensures Payloads(key, [r]) == if Belongs(key, r) then Parse(r).payload else []
    ensures Foreigns(key, [r]) == if Belongs(key, r) then 0 else 1
    ensures Expected(key, [r], from) == if Belongs(key, r) then Parse(r).End() % 0x1_0000_0000 else from
    ensures InStep(key, [r], from) <==> IsPacket(r) && Parse(r).offset == from
  {
    hide Parse;
    var none: seq<Recv> := [];
    assert [r][1..] == none;
  }

  /** A call that ends on its first packet. */
  lemma EndsAtOnce(s: Stage, key: Key, r: Recv, bufLen: nat)
    requires IsPacket(r) && Mine(s, key, [r]) && |s.data| + 9000 <= bufLen
    ensures match Take(s, Parse(r), bufLen)
            case Abort(code) => Fails(s, key, [r], code, bufLen)
            case Finish(t) => Succeeds(s, key, [r], true, t, bufLen)
            case Continue(_) => true
  {
    hide Parse, Take, Payloads, Foreigns;
    var none: seq<Recv> := [];
    assert [r][..0] == none;
    NoPayloads(key);
    Single(key, r, From(s));
    if s.veryFirstRead || Belongs(key, r) {
      TakeOwn(s, Parse(r), bufLen);
    } else {
      TakeForeign(s, Parse(r), bufLen);
    }
  }

  lemma StopsFull(s: Stage, key: Key, bufLen: nat)
    requires |s.data| + 9000 > bufLen
    ensures Succeeds(s, key, [], false, s, bufLen)
  {
  }

  lemma ReadsNothing(s: Stage, key: Key, bufLen: nat)
    ensures Fails(s, key, [], WAITING, bufLen)
  {
  }

  lemma ReadsNoPacket(s: Stage, key: Key, r: Recv, bufLen: nat)
    requires !IsPacket(r) && |s.data| + 9000 <= bufLen
    ensures Fails(s, key, [r], if r.RecvError? then READ_ERROR else SHORT_PACKET, bufLen)
  {
    var none: seq<Recv> := [];
    assert [r][..0] == none;
  }

  /** For all input: what a call reads explains its result. In particular all it
      stores is the payloads of its own source and tick, in order, without gap. */
  lemma {:induction false} StageStoresOwn(s: Stage, key: Key, stream: seq<Recv>, bufLen: nat)
    returns (read: seq<Recv>)
    requires |s.data| <= bufLen && Mine(s, key, stream)
    ensures var r := RunStage(s, stream, bufLen);
            stream == read + r.rest && Explains(s, key, read, r, bufLen)
    decreases |stream|
  {
    hide Parse, Take, Succeeds, Fails, RunStage, Takes;
    read := [];
    if bufLen - |s.data| < 9000 {
      RunStageFull(s, stream, bufLen);
      StopsFull(s, key, bufLen);
    } else if stream == [] || !IsPacket(stream[0]) {
      RunStageUnread(s, stream, bufLen);
      ReadsNothing(s, key, bufLen);
      if stream != [] {
        ReadsNoPacket(s, key, stream[0], bufLen);
        read := [stream[0]];
      }
    } else {
      var r, tail := stream[0], stream[1..];
      var p := Parse(r);
      RunStageStep(s, stream, bufLen, p);
      EndsAtOnce(s, key, r, bufLen);
      var step := Take(s, p, bufLen);
      read := [r];
      if step.Continue? {
        StepTaken(s, key, r, bufLen);
        var more := StageStoresOwn(step.stage, key, tail, bufLen);
        match RunStage(step.stage, tail, bufLen) {
          case StageOk(last, end, _) => SucceedsFirst(s, key, r, step.stage, more, last, end, bufLen);
          case StageFailed(code, _) => FailsFirst(s, key, r, step.stage, more, code, bufLen);
        }
        read := [r] + more;
      }
    }
  }

  lemma StepTaken(s: Stage, key: Key, r: Recv, bufLen: nat)
    requires IsPacket(r) && Mine(s, key, [r]) && |s.data| <= bufLen
    requires Take(s, Parse(r), bufLen).Continue?
    ensures var t := Take(s, Parse(r), bufLen).stage;
            Takes(s, key, r, t) && |t.data| <= bufLen && !t.veryFirstRead && (t.srcId, t.tick) == key
  {
    hide Parse, Take;
    if s.veryFirstRead || Belongs(key, r) {
      TakeOwn(s, Parse(r), bufLen);
    } else {
      TakeForeign(s, Parse(r), bufLen);
    }
  }

  // ----- Packets of others mixed in -----

  /** The result of a call that had also rejected `n` foreign packets. */
  function Rejecting(r: StageResult, n: nat): StageResult {
    match r
    case StageOk(last, t, rest) => StageOk(last, t.(rejectedPkt := n), rest)
    case StageFailed(_, _) => r
  }

  lemma TakeIgnoresRejected(s: Stage, n: nat, p: Packet, bufLen: nat)
    requires s.veryFirstRead || KeyOf(p) == (s.srcId, s.tick)
    ensures var step := Take(s, p, bufLen);
            Take(s.(rejectedPkt := n), p, bufLen) ==
            match step
            case Continue(t) => Continue(t.(rejectedPkt := n))
            case Finish(t) => Finish(t.(rejectedPkt := n))
            case Abort(code) => step
  {
  }

  /** The input ends with a packet of the call's own, unless the call waits for more. */
  predicate EndsOwn(key: Key, stream: seq<Recv>, r: StageResult) {
    r == StageFailed(WAITING, []) || stream == [] || Belongs(key, stream[|stream| - 1])
  }

  /** Up to 99 foreign packets at the expected offset make no difference to what a
      call returns; with the hundredth it returns NO_REASSEMBLY. `s` has rejected
      `n` before. */
  lemma {:induction false} OthersAreRejected(s: Stage, n: nat, key: Key, stream: seq<Recv>, bufLen: nat)
    requires |s.data| <= bufLen && n < 100
    requires InStep(key, stream, From(s))
    requires if s.veryFirstRead then stream != [] ==> Belongs(key, stream[0]) else (s.srcId, s.tick) == key
    requires var r := RunStage(s, OwnOnly(key, stream), bufLen); r.rest == [] && EndsOwn(key, stream, r)
    ensures var r, mixed := RunStage(s, OwnOnly(key, stream), bufLen), RunStage(s.(rejectedPkt := n), stream, bufLen);
            if n + Foreigns(key, stream) < 100
            then Rejecting(mixed, 0) == Rejecting(r, 0)
                 && (mixed.StageOk? ==> mixed.stage.rejectedPkt == n + Foreigns(key, stream))
            else mixed.StageFailed? && mixed.code == NO_REASSEMBLY
    decreases |stream|
  {
    hide Parse, Take, RunStage;
    var s' := s.(rejectedPkt := n);
    var own := OwnOnly(key, stream);
    if bufLen - |s.data| < 9000 {
      RunStageFull(s, own, bufLen);
      RunStageFull(s', stream, bufLen);
      OwnLastStays(key, stream);
    } else if stream == [] {
      RunStageUnread(s, own, bufLen);
      RunStageUnread(s', stream, bufLen);
    } else {
      var x, tail := stream[0], stream[1..];
      var p := Parse(x);
      RunStageStep(s', stream, bufLen, p);
      assert tail != [] ==> tail[|tail| - 1] == stream[|stream| - 1];
      if Belongs(key, x) {
        assert own[0] == x && own[1..] == OwnOnly(key, tail);
        RunStageStep(s, own, bufLen, p);
        TakeIgnoresRejected(s, n, p, bufLen);
        var step := Take(s, p, bufLen);
        if step.Continue? {
          StepTaken(s, key, x, bufLen);
          OthersAreRejected(step.stage, n, key, tail, bufLen);
        } else {
          TakeOwn(s, p, bufLen);
          OwnLastStays(key, tail);
        }
      } else {
        assert own == OwnOnly(key, tail);
        TakeForeign(s', p, bufLen);
        assert s'.(rejectedPkt := n + 1) == s.(rejectedPkt := n + 1);
        if n + 1 < 100 {
          OthersAreRejected(s, n + 1, key, tail, bufLen);
        }
      }
    }
  }

  /** Without own packets an input that ends with one is empty. */
  lemma {:induction false} OwnLastStays(key: Key, stream: seq<Recv>)
    requires OwnOnly(key, stream) == []
    ensures stream == [] || !Belongs(key, stream[|stream| - 1])
  {
    if stream != [] {
      OwnLastStays(key, stream[1..]);
    }
  }

  /** So an event in sequence, with fewer than a hundred packets of others mixed
      in, is read as if it came alone: the same bytes, offset and `last`. */
  lemma MixedStageReads(s: Stage, event: seq<byte>, src: nat, tick: nat, first: nat, stream: seq<Recv>, bufLen: nat)
    requires OnTrack(s, event, src, tick, first) && s.nextOffset < |event| && |s.data| <= bufLen
    requires InSequence(event, src, tick, s.nextOffset, OwnOnly((src, tick), stream))
    requires InStep((src, tick), stream, s.nextOffset) && s.rejectedPkt + Foreigns((src, tick), stream) < 100
    requires s.veryFirstRead ==> stream != [] && Belongs((src, tick), stream[0])
    requires var r := RunStage(s, OwnOnly((src, tick), stream), bufLen);
             r.rest == [] && EndsOwn((src, tick), stream, r)
    ensures ReadsOn(s, event, src, tick, first, RunStage(s, stream, bufLen))
  {
    hide InSequence, RunStage, OwnOnly, InStep, Foreigns, OnTrack;
    var key := (src, tick);
    TrackFrom(s, event, src, tick, first);
    StageReads(s, event, src, tick, first, OwnOnly(key, stream), bufLen);
    OthersAreRejected(s, s.rejectedPkt, key, stream, bufLen);
    assert s.(rejectedPkt := s.rejectedPkt) == s;
    var r, mixed := RunStage(s, OwnOnly(key, stream), bufLen), RunStage(s, stream, bufLen);
    SameTrack(r.stage, mixed.stage.rejectedPkt, event, src, tick, first);
    assert mixed.rest == [] && mixed.last == r.last;
    assert mixed.stage == r.stage.(rejectedPkt := mixed.stage.rejectedPkt);
  }

  lemma TrackFrom(s: Stage, event: seq<byte>, src: nat, tick: nat, first: nat)
    requires OnTrack(s, event, src, tick, first)
    ensures From(s) == s.nextOffset && (!s.veryFirstRead ==> (s.srcId, s.tick) == (src, tick))
  {
  }

  lemma SameTrack(s: Stage, n: nat, event: seq<byte>, src: nat, tick: nat, first: nat)
    requires OnTrack(s, event, src, tick, first)
    ensures OnTrack(s.(rejectedPkt := n), event, src, tick, first)
  {
  }
}
