/** The version 1 sender: packets carry a sequence number instead of a byte
    offset, and bits that mark the first and last packet of an event. */
module OldPacketizer {
  import opened Headers
  import opened Packetizer
  import opened StagedSending

  function OldHeader(m: Meta, first: bool, last: bool, sequence: u32): (h: seq<byte>)
    ensures |h| == HEADER_BYTES_OLD
  {
    LbBytes(LbHeader(m.version, m.protocol, m.entropy, m.tick))
    + ReBytesOld(ReHeaderOld(m.version, first, last, m.dataId, sequence, m.tick))
  }

  /** The sequence number `k` packets on; it is 32 bits wide. */
  function Advance(sequence: u32, k: nat): u32 {
    (sequence + k) % 0x1_0000_0000
  }

  lemma AdvanceTwice(sequence: u32, j: nat, k: nat)
    ensures Advance(Advance(sequence, j), k) == Advance(sequence, j + k)
    ensures Advance(sequence, 0) == sequence
  {
  }

  /** A number taken and given back. */
  lemma TakenBack(sequence: u32)
    ensures (Advance(sequence, 1) + 0xFFFF_FFFF) % 0x1_0000_0000 == sequence
  {
  }

  /** The datagrams of one call; `first` and `last` say whether it is the first
      and the last call for its event. */
  function OldPackets(m: Meta, data: seq<byte>, payload: nat, sequence: u32, first: bool,
        last: bool): (ps: seq<seq<byte>>)
    requires payload > 0
    ensures |ps| > 0
    decreases |data|
  {
    if |data| <= payload then [OldHeader(m, first, last, sequence) + data]
    else [OldHeader(m, first, false, sequence) + data[..payload]]
         + OldPackets(m, data[payload..], payload, Advance(sequence, 1), false, last)
  }

  /** After `k` packets of `ps` the data from `from` on is still to be sent,
      unless `more` is false. */
  ghost predicate OldPending(ps: seq<seq<byte>>, k: nat, m: Meta, data: seq<byte>, from: nat, payload: nat,
                             sequence: u32, first: bool, last: bool, more: bool) {
    && payload > 0 && from <= |data| && k <= |ps|
    && ps[k..] == if more then OldPackets(m, data[from..], payload, sequence, first, last) else []
  }

  lemma OldPendingAll(m: Meta, data: seq<byte>, payload: nat, sequence: u32, first: bool, last: bool)
    requires payload > 0
    ensures OldPending(OldPackets(m, data, payload, sequence, first, last), 0, m, data, 0, payload, sequence, first,
                       last, true)
  {
    assert data[0..] == data;
  }

  lemma OldPendingNone(ps: seq<seq<byte>>, k: nat, m: Meta, data: seq<byte>, from: nat, payload: nat, sequence: u32,
        first: bool, last: bool)
    requires OldPending(ps, k, m, data, from, payload, sequence, first, last, false)
    ensures k == |ps| && ps[..k] == ps
  {
  }

  lemma NextOldPacket(ps: seq<seq<byte>>, k: nat, m: Meta, data: seq<byte>, from: nat, payload: nat, sequence: u32,
        first: bool, last: bool)
    requires OldPending(ps, k, m, data, from, payload, sequence, first, last, true)
    ensures var n := Min(|data| - from, payload);
            && k < |ps|
            && ps[k] == OldHeader(m, first, from + n == |data| && last, sequence) + data[from..from + n]
            && ps[..k + 1] == ps[..k] + [ps[k]]
            && OldPending(ps, k + 1, m, data, from + n, payload, Advance(sequence, 1), false, last, from + n < |data|)
  {
    hide OldHeader, Advance;
    var rest := data[from..];
    var n := Min(|rest|, payload);
    assert rest[..n] == data[from..from + n] && rest[n..] == data[from + n..];
    assert |rest| <= payload ==> rest[..n] == rest;
    assert ps[k] == ps[k..][0] && ps[k + 1..] == ps[k..][1..];
  }

  method BuildOldPacket(buffer: array<byte>, m: Meta, first: bool, last: bool, sequence: u32,
        data: seq<byte>) returns (datagram: seq<byte>)
    requires HEADER_BYTES_OLD + |data| <= buffer.Length
    modifies buffer
    ensures datagram == OldHeader(m, first, last, sequence) + data
  {
    SetLbMetadata(buffer, 0, LbHeader(m.version, m.protocol, m.entropy, m.tick));
    SetReMetadataOld(buffer, LB_HEADER_BYTES, ReHeaderOld(m.version, first, last, m.dataId, sequence, m.tick));
    assert buffer[..HEADER_BYTES_OLD] == OldHeader(m, first, last, sequence);
    CopyInto(buffer, HEADER_BYTES_OLD, data);
    assert buffer[..HEADER_BYTES_OLD] == OldHeader(m, first, last, sequence);
    datagram := buffer[..HEADER_BYTES_OLD + |data|];
    assert datagram == buffer[..HEADER_BYTES_OLD] + buffer[HEADER_BYTES_OLD..HEADER_BYTES_OLD + |data|];
  }

  /** One round of the loop: as `SendRound`, and the sequence number moves on
      unless the packet is to be tried again. */
  method SendOldRound(buffer: array<byte>, m: Meta, dataBuffer: seq<byte>, s: Sender, sequence: u32, lastBuffer: bool,
                      path: UdpPath)
    returns (err: SendResult, s': Sender, packetCounter: u32)
    requires s.remaining <= |dataBuffer|
    requires HEADER_BYTES_OLD + Min(s.remaining, s.payload) <= buffer.Length
    modifies buffer, path
    ensures var from, n := |dataBuffer| - s.remaining, Min(s.remaining, s.payload);
            && err == (if HEADER_BYTES_OLD + n > path.limit then MsgTooLong
                       else if old(path.credit) == 0 then OtherError else Accepted)
            && (err == Accepted ==>
                 && path.sent == old(path.sent)
                    + [OldHeader(m, s.veryFirst, n == s.remaining && lastBuffer, sequence) + dataBuffer[from..from + n]]
                 && path.credit == old(path.credit) - 1)
            && (err != Accepted ==> path.sent == old(path.sent) && path.credit == old(path.credit))
    ensures s' == if err == OtherError then s.(failed := true) else Round(s, HEADER_BYTES_OLD, path.limit)
    ensures !s'.failed ==> packetCounter == if err == Accepted then Advance(sequence, 1) else sequence
  {
    hide OldHeader;
    var getDataFrom := |dataBuffer| - s.remaining;
    var bytesToWrite := Min(s.remaining, s.payload);
    var veryLastPacket := bytesToWrite == s.remaining && lastBuffer;
    var chunk := dataBuffer[getDataFrom..getDataFrom + bytesToWrite];
    var datagram := BuildOldPacket(buffer, m, s.veryFirst, veryLastPacket, sequence, chunk);
    packetCounter := (sequence + 1) % 0x1_0000_0000;
    err := path.Send(datagram);
    if err == Accepted {
      s' := s.(remaining := s.remaining - bytesToWrite, veryFirst := false);
    } else if err == MsgTooLong && s.veryFirst {
      TakenBack(sequence);
      packetCounter := (packetCounter + 0xFFFF_FFFF) % 0x1_0000_0000;
      s' := s.(payload := Cut(s.payload));
    } else {
      s' := s.(failed := true);
    }
  }

  /** `sendPacketizedBufferSend`. A rejected first packet takes its sequence
      number back before it is cut and tried again. */
  method SendPacketizedBufferSend(m: Meta, dataBuffer: seq<byte>, maxUdpPayload: nat, offset: u32,
                                  firstBuffer: bool, lastBuffer: bool, path: UdpPath)
    returns (outcome: Outcome, nextOffset: u32, packetsSent: nat)
    requires 0 < maxUdpPayload
    requires firstBuffer ==> path.limit > HEADER_BYTES_OLD
    modifies path
    ensures var payload := FinalPayload(maxUdpPayload, |dataBuffer|, path.limit - HEADER_BYTES_OLD, firstBuffer);
            var ps := OldPackets(m, dataBuffer, payload, offset, firstBuffer, lastBuffer);
            && (if HEADER_BYTES_OLD + Min(maxUdpPayload, |dataBuffer|) > 65536 then
                  outcome == OutOfBounds && packetsSent == 0 && path.sent == old(path.sent)
                else if HEADER_BYTES_OLD + Min(payload, |dataBuffer|) <= path.limit then
                  && packetsSent == Min(old(path.credit), |ps|)
                  && path.sent == old(path.sent) + ps[..packetsSent]
                  && outcome == if |ps| <= old(path.credit) then Sent else SendError
                else
                  && !firstBuffer && outcome == SendError && packetsSent == 0 && path.sent == old(path.sent))
            && nextOffset == if outcome == Sent then Advance(offset, |ps|) else offset
  {
    hide OldPackets, OldPending, OldHeader, Round, FinalPayload, Underway, Advance;
    ghost var c := Call(maxUdpPayload, |dataBuffer|, HEADER_BYTES_OLD, path.limit, firstBuffer);
    ghost var ps := OldPackets(m, dataBuffer, c.Final(), offset, firstBuffer, lastBuffer);
    packetsSent, nextOffset := 0, offset;
    if HEADER_BYTES_OLD + Min(maxUdpPayload, |dataBuffer|) > PACKET_STORAGE {
      outcome := OutOfBounds;
      return;
    }
    var buffer := new byte[PACKET_STORAGE];
    var s, packetCounter: u32 := Sender(maxUdpPayload, |dataBuffer|, firstBuffer, false), offset;
    var firstLoop := true;
    StartUnderway(c);
    OldPendingAll(m, dataBuffer, c.Final(), offset, firstBuffer, lastBuffer);
    AdvanceTwice(offset, 0, 0);

    while firstLoop || s.remaining > 0
      invariant Underway(c, s, packetsSent, firstLoop || s.remaining > 0)
      invariant packetsSent > 0 ==> c.Fits()
      invariant path.credit == old(path.credit) - packetsSent
      invariant packetsSent <= |ps| && path.sent == old(path.sent) + ps[..packetsSent]
      invariant s.remaining <= |dataBuffer| && s.payload <= maxUdpPayload
      invariant packetCounter == Advance(offset, packetsSent)
      invariant OldPending(ps, packetsSent, m, dataBuffer, |dataBuffer| - s.remaining, c.Final(), packetCounter,
                           s.veryFirst, lastBuffer, firstLoop || s.remaining > 0)
      decreases s.remaining, firstLoop, s.payload
    {
      firstLoop := false;
      NextOldPacket(ps, packetsSent, m, dataBuffer, |dataBuffer| - s.remaining, c.Final(), packetCounter,
                    s.veryFirst, lastBuffer);
      RoundUnderway(c, s, packetsSent);
      TakenBack(packetCounter);
      AdvanceTwice(offset, packetsSent, 1);
      var err;
      err, s, packetCounter := SendOldRound(buffer, m, dataBuffer, s, packetCounter, lastBuffer, path);
      if s.failed {
        outcome := SendError;
        return;
      }
      if err == Accepted {
        packetsSent := packetsSent + 1;
      }
    }
    OldPendingNone(ps, packetsSent, m, dataBuffer, |dataBuffer| - s.remaining, c.Final(), packetCounter,
                   s.veryFirst, lastBuffer);
    outcome, nextOffset := Sent, packetCounter;
  }

  // ----- Numbering over all calls for an event -----

  function HeaderOf(d: seq<byte>): ReHeaderOld
    requires |d| >= HEADER_BYTES_OLD
  {
    ParseReOld(d[LB_HEADER_BYTES..])
  }

  /** The packets of an event bear its tick in both headers and are numbered
      without gap from `sequence`, modulo 2^32; the first bit is on exactly the first packet of a first call, the last
      bit on exactly the last packet of a last call. */
  ghost predicate Numbered(m: Meta, ps: seq<seq<byte>>, sequence: u32, first: bool, last: bool) {
    forall i :: 0 <= i < |ps| ==>
      && |ps[i]| >= HEADER_BYTES_OLD
      && ParseLb(ps[i]) == Parsed(LbHeader(m.version % 0x100, m.protocol % 0x100, m.entropy % 0x1_0000, m.tick))
      && HeaderOf(ps[i]) == ReHeaderOld(m.version % 16, first && i == 0, last && i == |ps| - 1, m.dataId,
                                        (sequence + i) % 0x1_0000_0000, m.tick)
  }

  lemma NumberedJoin(m: Meta, a: seq<seq<byte>>, b: seq<seq<byte>>, sequence: u32, first: bool, last: bool)
    requires Numbered(m, a, sequence, first, false) && Numbered(m, b, Advance(sequence, |a|), false, last)
    requires a != [] && b != []
    ensures Numbered(m, a + b, sequence, first, last)
  {
    hide HeaderOf, ParseLb;
    var ps := a + b;
    forall i | |a| <= i < |ps|
      ensures ps[i] == b[i - |a|] && Advance(Advance(sequence, |a|), i - |a|) == Advance(sequence, i)
    {
      AdvanceTwice(sequence, |a|, i - |a|);
    }
  }

  lemma OnePacketNumbered(m: Meta, first: bool, last: bool, sequence: u32, data: seq<byte>)
    ensures Numbered(m, [OldHeader(m, first, last, sequence) + data], sequence, first, last)
  {
    hide LbBytes, ReBytesOld, ParseReOld, ParseLb;
    var lb, re := LbHeader(m.version, m.protocol, m.entropy, m.tick),
                  ReHeaderOld(m.version, first, last, m.dataId, sequence, m.tick);
    LbBytesSize(lb);
    ReBytesOldFields(re);
    ParseReOfReBytesOld(re, data);
    AdvanceTwice(sequence, 0, 0);
    ParseLbOfLbBytes(lb, ReBytesOld(re) + data);
    var d := OldHeader(m, first, last, sequence) + data;
    assert d == LbBytes(lb) + (ReBytesOld(re) + data);
    assert d[LB_HEADER_BYTES..] == ReBytesOld(re) + data;
  }

  lemma {:induction false} PacketsNumbered(m: Meta, data: seq<byte>, payload: nat, sequence: u32, first: bool,
        last: bool)
    requires payload > 0
    ensures Numbered(m, OldPackets(m, data, payload, sequence, first, last), sequence, first, last)
    decreases |data|
  {
    hide OldHeader, Numbered, Advance;
    if |data| <= payload {
      OnePacketNumbered(m, first, last, sequence, data);
    } else {
      OnePacketNumbered(m, first, false, sequence, data[..payload]);
      PacketsNumbered(m, data[payload..], payload, Advance(sequence, 1), false, last);
      NumberedJoin(m, [OldHeader(m, first, false, sequence) + data[..payload]],
                   OldPackets(m, data[payload..], payload, Advance(sequence, 1), false, last), sequence, first, last);
    }
  }

  /** All calls for an event, the returned sequence number fed back each time. */
  function OldStages(m: Meta, pieces: seq<Piece>, sequence: u32, first: bool): seq<seq<byte>>
    requires forall p <- pieces :: p.payload > 0
    decreases |pieces|
  {
    if pieces == [] then []
    else
      var ps := OldPackets(m, pieces[0].data, pieces[0].payload, sequence, first, |pieces| == 1);
      assert forall p <- pieces[1..] :: p in pieces;
      ps + OldStages(m, pieces[1..], Advance(sequence, |ps|), false)
  }

  /** However an event is cut into calls and packets, and after whatever retries,
      its packets are numbered consecutively, with the first bit on exactly the
      first and the last bit on exactly the final packet. */
  lemma {:induction false} StagesNumbered(m: Meta, pieces: seq<Piece>, sequence: u32, first: bool)
    requires pieces != [] && forall p <- pieces :: p.payload > 0
    ensures OldStages(m, pieces, sequence, first) != []
    ensures Numbered(m, OldStages(m, pieces, sequence, first), sequence, first, true)
    decreases |pieces|
  {
    hide Numbered, OldPackets, Advance;
    var piece := pieces[0];
    var ps := OldPackets(m, piece.data, piece.payload, sequence, first, |pieces| == 1);
    PacketsNumbered(m, piece.data, piece.payload, sequence, first, |pieces| == 1);
    assert forall p <- pieces[1..] :: p in pieces;
    if |pieces| == 1 {
      assert OldStages(m, pieces, sequence, first) == ps + [] == ps;
    } else {
      StagesNumbered(m, pieces[1..], Advance(sequence, |ps|), false);
      NumberedJoin(m, ps, OldStages(m, pieces[1..], Advance(sequence, |ps|), false), sequence, first, true);
    }
  }

  // ----- What the packets carry -----

  function Carried(ps: seq<seq<byte>>): seq<byte>
    requires forall d <- ps :: |d| >= 34
  {
    if ps == [] then [] else ps[0][34..] + Carried(ps[1..])
  }

  ghost predicate AllFull(ps: seq<seq<byte>>, payload: nat) {
    && (forall d <- ps :: 34 <= |d| <= 34 + payload)
    && forall i :: 0 <= i < |ps| - 1 ==> |ps[i]| == 34 + payload
  }

  lemma FullCons(d: seq<byte>, ps: seq<seq<byte>>, payload: nat)
    requires AllFull(ps, payload) && |d| == 34 + payload && ps != []
    ensures AllFull([d] + ps, payload) && Carried([d] + ps) == d[34..] + Carried(ps)
  {
    hide Carried;
    assert ([d] + ps)[1..] == ps;
    CarriedCons(d, ps);
  }

  lemma CarriedCons(d: seq<byte>, ps: seq<seq<byte>>)
    requires |d| >= 34 && forall e <- ps :: |e| >= 34
    ensures Carried([d] + ps) == d[34..] + Carried(ps)
  {
    assert ([d] + ps)[1..] == ps;
  }

  lemma {:induction false} CarriedConcat(ps: seq<seq<byte>>, qs: seq<seq<byte>>)
    requires (forall d <- ps :: |d| >= 34) && forall d <- qs :: |d| >= 34
    ensures Carried(ps + qs) == Carried(ps) + Carried(qs)
  {
    if ps == [] {
      assert ps + qs == qs;
    } else {
      assert (ps + qs)[1..] == ps[1..] + qs;
      CarriedConcat(ps[1..], qs);
    }
  }

  lemma OneCarries(m: Meta, first: bool, last: bool, sequence: u32, data: seq<byte>, payload: nat)
    requires |data| <= payload
    ensures var d := OldHeader(m, first, last, sequence) + data;
            d[34..] == data && |d| == 34 + |data| && AllFull([d], payload) && Carried([d]) == data
  {
    hide OldHeader;
    var d := OldHeader(m, first, last, sequence) + data;
    var none: seq<seq<byte>> := [];
    assert [d][1..] == none && d[34..] == data;
  }

  /** The packets of a call carry its data, in order and in full packets but for
      the last. */
  lemma {:induction false} PacketsCarry(m: Meta, data: seq<byte>, payload: nat, sequence: u32, first: bool,
        last: bool)
    requires payload > 0
    ensures var ps := OldPackets(m, data, payload, sequence, first, last);
            AllFull(ps, payload) && Carried(ps) == data
    decreases |data|
  {
    hide OldHeader, AllFull, Carried, Advance;
    if |data| <= payload {
      OneCarries(m, first, last, sequence, data, payload);
    } else {
      var d := OldHeader(m, first, false, sequence) + data[..payload];
      OneCarries(m, first, false, sequence, data[..payload], payload);
      PacketsCarry(m, data[payload..], payload, Advance(sequence, 1), false, last);
      FullCons(d, OldPackets(m, data[payload..], payload, Advance(sequence, 1), false, last), payload);
      assert data == data[..payload] + data[payload..];
    }
  }

  /** All calls for an event together carry the event. */
  lemma {:induction false} StagesCarry(m: Meta, pieces: seq<Piece>, sequence: u32, first: bool)
    requires forall p <- pieces :: p.payload > 0
    ensures var ps := OldStages(m, pieces, sequence, first);
            (forall d <- ps :: |d| >= 34) && Carried(ps) == Joined(pieces)
    decreases |pieces|
  {
    hide OldPackets, Carried, Advance;
    if pieces == [] {
      NoneCarries();
    } else {
      var piece := pieces[0];
      var ps := OldPackets(m, piece.data, piece.payload, sequence, first, |pieces| == 1);
      PacketsCarry(m, piece.data, piece.payload, sequence, first, |pieces| == 1);
      assert forall p <- pieces[1..] :: p in pieces;
      StagesCarry(m, pieces[1..], Advance(sequence, |ps|), false);
      CarriedConcat(ps, OldStages(m, pieces[1..], Advance(sequence, |ps|), false));
    }
  }

  lemma NoneCarries()
    ensures Carried([]) == []
  {
  }
}
