/** The sending side: cutting a buffer into UDP packets (version 2 header),
    with the shrink-and-retry of the first packet when the path rejects it. */
module Packetizer {
  import opened Headers

  // ----- The path -----

  datatype SendResult = Accepted | MsgTooLong | OtherError

  /** A connected UDP socket whose path rejects exactly the datagrams longer
      than `limit`, and whose link fails after `credit` more datagrams. */
  class UdpPath {
    const limit: nat
    var credit: nat
    var sent: seq<seq<byte>>

    constructor (limit: nat, credit: nat)
      ensures this.limit == limit && this.credit == credit && sent == []
    {
      this.limit, this.credit, sent := limit, credit, [];
    }

    method Send(datagram: seq<byte>) returns (r: SendResult)
      modifies this
      ensures r == if |datagram| > limit then MsgTooLong else if old(credit) == 0 then OtherError else Accepted
      ensures r == Accepted ==> sent == old(sent) + [datagram] && credit == old(credit) - 1
      ensures r != Accepted ==> sent == old(sent) && credit == old(credit)
    {
      if |datagram| > limit {
        return MsgTooLong;
      }
      if credit == 0 {
        return OtherError;
      }
      sent, credit := sent + [datagram], credit - 1;
      return Accepted;
    }
  }

  // ----- What is to be sent -----

  /** The arguments that are the same for every packet of a call. */
  datatype Meta = Meta(
    tick: u64, version: int, protocol: int, entropy: int, dataId: u16, fullLen: u32, reserved: int, direct: bool)

  function HeaderSize(m: Meta): nat {
    if m.direct then RE_HEADER_BYTES else HEADER_BYTES
  }

  function LbPart(m: Meta): seq<byte> {
    if m.direct then [] else LbBytes(LbHeader(m.version, m.protocol, m.entropy, m.tick))
  }

  function RePart(m: Meta, offset: u32): seq<byte> {
    ReBytes(ReHeader(m.version, m.reserved, m.dataId, offset, m.fullLen, m.tick))
  }

  function Header(m: Meta, offset: u32): (h: seq<byte>)
    ensures |h| == HeaderSize(m)
  {
    LbPart(m) + RePart(m, offset)
  }

  /** The datagrams for `data`, which starts at `offset` of the full buffer.
      Empty data gives one empty packet. */
  function Packets(m: Meta, data: seq<byte>, payload: nat, offset: nat): (ps: seq<seq<byte>>)
    requires payload > 0 && offset + |data| < 0x1_0000_0000
    ensures |ps| > 0
    decreases |data|
  {
    if |data| <= payload then [Header(m, offset) + data]
    else [Header(m, offset) + data[..payload]] + Packets(m, data[payload..], payload, offset + payload)
  }

  function Min(a: nat, b: nat): nat {
    if a <= b then a else b
  }

  lemma {:induction false} PacketSizes(m: Meta, data: seq<byte>, payload: nat, offset: nat)
    requires payload > 0 && offset + |data| < 0x1_0000_0000
    ensures forall d <- Packets(m, data, payload, offset) ::
              |d| <= HeaderSize(m) + Min(payload, |data|) && (data != [] ==> |d| > HeaderSize(m))
    decreases |data|
  {
    hide Header;
    if |data| > payload {
      PacketSizes(m, data[payload..], payload, offset + payload);
    }
  }

  // ----- Every packet, byte by byte -----

  /** A packet carries `data`, and both of its headers parse back to what the
      call was given and to the data's offset. The load balancer header bears the
      event's tick, by which the load balancer directs the packet. */
  predicate Bears(m: Meta, d: seq<byte>, offset: nat, data: seq<byte>) {
    var start := if m.direct then 0 else 16;
    && |d| == start + 20 + |data|
    && (!m.direct ==>
         ParseLb(d) == Parsed(LbHeader(m.version % 0x100, m.protocol % 0x100, m.entropy % 0x1_0000, m.tick)))
    && d[start + 20..] == data
    && var h := ParseRe(d[start..]);
       && h.version == m.version % 16 && h.reserved == m.reserved % 0x100 && h.dataId == m.dataId
       && h.offset == offset && h.length == m.fullLen && h.tick == m.tick
  }

  lemma PacketBears(m: Meta, offset: u32, data: seq<byte>)
    ensures Bears(m, Header(m, offset) + data, offset, data)
  {
    hide LbBytes, ReBytes, ParseLb, ParseRe;
    var lb := LbHeader(m.version, m.protocol, m.entropy, m.tick);
    var re := ReHeader(m.version, m.reserved, m.dataId, offset, m.fullLen, m.tick);
    ReBytesFields(re);
    LbBytesSize(lb);
    ParseReOfReBytes(re, data);
    ParseLbOfLbBytes(lb, ReBytes(re) + data);
    var d := Header(m, offset) + data;
    if m.direct {
      assert d[0..] == ReBytes(re) + data;
      assert d[20..] == data;
    } else {
      assert d == LbBytes(lb) + (ReBytes(re) + data);
      assert d[16..] == ReBytes(re) + data;
      assert d[36..] == data;
    }
  }

  /** Where the data of packet `k` starts when all earlier packets are full. */
  function Boundary(k: nat, payload: nat): nat {
    if k == 0 then 0 else Boundary(k - 1, payload) + payload
  }

  lemma {:induction false} BoundaryIsMultiple(k: nat, payload: nat)
    ensures Boundary(k, payload) == k * payload
  {
    if k > 0 {
      BoundaryIsMultiple(k - 1, payload);
    }
  }

  lemma NextMultiple(i: nat, payload: nat)
    requires i > 0
    ensures i * payload == payload + (i - 1) * payload
  {
  }

  lemma SliceOfTail(s: seq<byte>, n: nat, from: nat, to: nat)
    requires n <= |s| && from <= to <= |s| - n
    ensures s[n..][from..to] == s[n + from..n + to]
  {
  }

  /** Packet `i` in full: the data it carries and what its headers say. */
  lemma {:induction false} PacketAt(m: Meta, data: seq<byte>, payload: nat, offset: nat, i: nat)
    requires payload > 0 && offset + |data| < 0x1_0000_0000
    requires i < |Packets(m, data, payload, offset)|
    ensures var from := Boundary(i, payload);
            from <= |data|
            && Bears(m, Packets(m, data, payload, offset)[i], offset + from, data[from..Min(from + payload, |data|)])
    decreases i
  {
    hide Packets, Header, Bears;
    var n := Min(|data|, payload);
    PacketsStep(m, data, payload, offset);
    assert i > 0 ==> n == payload;
    if i == 0 {
      PacketBears(m, offset, data[..n]);
    } else {
      PacketAt(m, data[n..], payload, offset + n, i - 1);
      var from := Boundary(i - 1, payload);
      SliceOfTail(data, n, from, Min(from + payload, |data| - n));
    }
  }

  /** No packet more than needed: all but the last are full. */
  lemma {:induction false} PacketCount(m: Meta, data: seq<byte>, payload: nat, offset: nat)
    requires payload > 0 && offset + |data| < 0x1_0000_0000
    ensures var n := |Packets(m, data, payload, offset)|;
            if data == [] then n == 1 else (n - 1) * payload < |data| <= n * payload
    decreases |data|
  {
    hide Header, Packets;
    PacketsStep(m, data, payload, offset);
    if |data| > payload {
      PacketCount(m, data[payload..], payload, offset + payload);
      var n := |Packets(m, data, payload, offset)|;
      NextMultiple(n, payload);
      NextMultiple(n - 1, payload);
    }
  }

  // ----- Shrinking the payload -----

  /** A fifth less, rounded down. */
  function Cut(payload: nat): nat {
    payload * 8 / 10
  }

  /** The payload limit after the retries: cut by a fifth until the first packet passes. */
  function Shrunk(payload: nat, len: nat, usable: nat): (p: nat)
    requires payload > 0 && usable > 0
    ensures 0 < p <= payload
    ensures Min(p, len) <= usable
    decreases payload
  {
    if Min(payload, len) <= usable then payload else Shrunk(Cut(payload), len, usable)
  }

  lemma ShrunkStep(payload: nat, len: nat, usable: nat)
    requires payload > 0 && usable > 0
    ensures if Min(payload, len) <= usable then Shrunk(payload, len, usable) == payload
            else 0 < Cut(payload) < payload && Shrunk(payload, len, usable) == Shrunk(Cut(payload), len, usable)
  {
  }

  /** The retries stop as soon as they can: a shrunk limit is at least four
      fifths of one byte more than the path can carry, and no limit that passes
      is ever cut. */
  lemma {:induction false} ShrunkBound(payload: nat, len: nat, usable: nat)
    requires payload > 0 && usable > 0
    ensures var p := Shrunk(payload, len, usable);
            && (p == payload <==> Min(payload, len) <= usable)
            && (p < payload ==> p >= (usable + 1) * 8 / 10)
    decreases payload
  {
    if Min(payload, len) > usable {
      ShrunkBound(Cut(payload), len, usable);
    }
  }

  /** The payload limit a call ends up using: only the first packet of the first
      buffer is retried. */
  function FinalPayload(payload: nat, len: nat, usable: int, firstBuffer: bool): nat
    requires payload > 0 && (firstBuffer ==> usable > 0)
  {
    if firstBuffer then Shrunk(payload, len, usable) else payload
  }

  /** One of several calls for an event: its data and the payload limit it ends
      up with. */
  datatype Piece = Piece(data: seq<byte>, payload: nat)

  // ----- The packets in order -----

  const PACKET_STORAGE: nat := 65536

  lemma PacketsStep(m: Meta, data: seq<byte>, payload: nat, offset: nat)
    requires payload > 0 && offset + |data| < 0x1_0000_0000
    ensures var n := Min(|data|, payload);
            Packets(m, data, payload, offset) ==
            [Header(m, offset) + data[..n]]
            + if n < |data| then Packets(m, data[n..], payload, offset + n) else []
  {
    hide Header;
    if |data| <= payload {
      assert data[..|data|] == data;
    }
  }

  /** After `k` packets of `ps` the data from `from` on is still to be sent, the
      whole of which starts at `offset`; `more` is false when nothing is. */
  ghost predicate Pending(ps: seq<seq<byte>>, k: nat, m: Meta, data: seq<byte>, from: nat, payload: nat, offset: nat,
                          more: bool) {
    && payload > 0 && from <= |data| && offset + |data| < 0x1_0000_0000 && k <= |ps|
    && ps[k..] == if more then Packets(m, data[from..], payload, offset + from) else []
  }

  lemma PendingAll(m: Meta, data: seq<byte>, payload: nat, offset: nat)
    requires payload > 0 && offset + |data| < 0x1_0000_0000
    ensures Pending(Packets(m, data, payload, offset), 0, m, data, 0, payload, offset, true)
  {
    assert data[0..] == data;
  }

  lemma PendingNone(ps: seq<seq<byte>>, k: nat, m: Meta, data: seq<byte>, from: nat, payload: nat, offset: nat)
    requires Pending(ps, k, m, data, from, payload, offset, false)
    ensures k == |ps| && ps[..k] == ps
  {
  }

  /** The packet after the first `k`. */
  lemma NextPacket(ps: seq<seq<byte>>, k: nat, m: Meta, data: seq<byte>, from: nat, payload: nat, offset: nat)
    requires Pending(ps, k, m, data, from, payload, offset, true)
    ensures var n := Min(|data| - from, payload);
            && k < |ps|
            && ps[k] == Header(m, offset + from) + data[from..from + n]
            && ps[..k + 1] == ps[..k] + [ps[k]]
            && Pending(ps, k + 1, m, data, from + n, payload, offset, from + n < |data|)
  {
    hide Header, Packets;
    var n := Min(|data| - from, payload);
    PacketsStep(m, data[from..], payload, offset + from);
    assert data[from..][..n] == data[from..from + n] && data[from..][n..] == data[from + n..];
    assert ps[k] == ps[k..][0] && ps[k + 1..] == ps[k..][1..];
  }

  /** Header and data of one packet, put together in the packet buffer. */
  method BuildPacket(buffer: array<byte>, m: Meta, offset: u32, data: seq<byte>) returns (datagram: seq<byte>)
    requires HeaderSize(m) + |data| <= buffer.Length
    modifies buffer
    ensures datagram == Header(m, offset) + data
  {
    var lbHeaderSize, allHeadersSize := LB_HEADER_BYTES, HEADER_BYTES;
    if m.direct {
      lbHeaderSize, allHeadersSize := 0, RE_HEADER_BYTES;
    }
    if !m.direct {
      SetLbMetadata(buffer, 0, LbHeader(m.version, m.protocol, m.entropy, m.tick));
    }
    SetReMetadata(buffer, lbHeaderSize, ReHeader(m.version, m.reserved, m.dataId, offset, m.fullLen, m.tick));
    assert buffer[..allHeadersSize] == Header(m, offset);
    CopyInto(buffer, allHeadersSize, data);
    assert buffer[..allHeadersSize] == Header(m, offset);
    datagram := buffer[..allHeadersSize + |data|];
    assert datagram == buffer[..allHeadersSize] + buffer[allHeadersSize..allHeadersSize + |data|];
  }

  // ----- One round of the sending loop -----

  /** The variables that decide the sending loop; `failed` is its error return. */
  datatype Sender = Sender(payload: nat, remaining: nat, veryFirst: bool, failed: bool)

  /** One round of the loop on a path without other errors; `headers` is the size
      of all headers. A rejected first packet is cut, a later one ends the call. */
  function Round(s: Sender, headers: nat, limit: nat): Sender {
    var n := Min(s.remaining, s.payload);
    if headers + n <= limit then s.(remaining := s.remaining - n, veryFirst := false)
    else if s.veryFirst then s.(payload := Cut(s.payload))
    else s.(failed := true)
  }

  /** Sends one packet of the data still to go, and moves the variables on. */
  method SendRound(buffer: array<byte>, m: Meta, dataBuffer: seq<byte>, offset: u32, s: Sender, path: UdpPath)
    returns (err: SendResult, s': Sender)
    requires s.remaining <= |dataBuffer| && offset + |dataBuffer| < 0x1_0000_0000
    requires HeaderSize(m) + Min(s.remaining, s.payload) <= buffer.Length
    modifies buffer, path
    ensures var from, n := |dataBuffer| - s.remaining, Min(s.remaining, s.payload);
            && err == (if HeaderSize(m) + n > path.limit then MsgTooLong
                       else if old(path.credit) == 0 then OtherError else Accepted)
            && (err == Accepted ==>
                 && path.sent == old(path.sent) + [Header(m, offset + from) + dataBuffer[from..from + n]]
                 && path.credit == old(path.credit) - 1)
            && (err != Accepted ==> path.sent == old(path.sent) && path.credit == old(path.credit))
    ensures s' == if err == OtherError then s.(failed := true) else Round(s, HeaderSize(m), path.limit)
  {
    hide Header;
    var getDataFrom := |dataBuffer| - s.remaining;
    var bytesToWrite := Min(s.remaining, s.payload);
    var chunk := dataBuffer[getDataFrom..getDataFrom + bytesToWrite];
    var datagram := BuildPacket(buffer, m, offset + getDataFrom, chunk);
    err := path.Send(datagram);
    if err == Accepted {
      s' := s.(remaining := s.remaining - bytesToWrite, veryFirst := false);
    } else if err == MsgTooLong && s.veryFirst {
      s' := s.(payload := Cut(s.payload));
    } else {
      s' := s.(failed := true);
    }
  }

  // ----- When the sending loop ends -----

  predicate Over(s: Sender) {
    s.failed || s.remaining == 0
  }

  function Rounds(s: Sender, k: nat, headers: nat, limit: nat): Sender
    decreases k
  {
    if k == 0 || Over(s) then s else Rounds(Round(s, headers, limit), k - 1, headers, limit)
  }

  ghost predicate Ends(s: Sender, headers: nat, limit: nat) {
    exists k :: Over(Rounds(s, k, headers, limit))
  }

  lemma {:induction false} StuckRounds(s: Sender, k: nat, headers: nat, limit: nat)
    requires limit <= headers && s.remaining > 0 && !s.failed && (s.veryFirst || s.payload == 0)
    requires !s.veryFirst ==> limit == headers
    ensures !Over(Rounds(s, k, headers, limit))
    decreases k
  {
    if k > 0 {
      StuckRounds(Round(s, headers, limit), k - 1, headers, limit);
    }
  }

  lemma {:induction false} EndingRounds(s: Sender, headers: nat, limit: nat) returns (k: nat)
    requires limit > headers && s.payload > 0 && !s.failed
    requires !s.veryFirst ==> headers + Min(s.remaining, s.payload) <= limit
    ensures var t := Rounds(s, k, headers, limit); t.remaining == 0 && !t.failed
    decreases s.remaining, s.payload
  {
    k := 0;
    if s.remaining > 0 {
      k := EndingRounds(Round(s, headers, limit), headers, limit);
      k := k + 1;
    }
  }

  function Power(b: nat, k: nat): nat {
    if k == 0 then 1 else b * Power(b, k - 1)
  }

  lemma Regroup(x: nat, c: nat, y: nat)
    ensures x * (c * y) == c * (x * y) == c * x * y
  {
  }

  lemma Fifths(p: nat, cut: nat, q: nat, a: nat, b: nat)
    requires cut * 5 <= p * 4 && (p + 4) * 4 <= (cut + 4) * 5
    requires q * b <= cut * a && (cut + 4) * a <= (q + 4) * b
    ensures q * (5 * b) <= p * (4 * a) && (p + 4) * (4 * a) <= (q + 4) * (5 * b)
  {
    FifthOff(p, cut, q * b, a);
    Regroup(q, 5, b);
    MulLe(4 * (p + 4), 5 * (cut + 4), a);
    Regroup(p + 4, 4, a);
    Regroup(cut + 4, 5, a);
    Regroup(q + 4, 5, b);
  }

  lemma FifthOff(p: nat, cut: nat, qb: nat, a: nat)
    requires cut * 5 <= p * 4
    requires qb <= cut * a
    ensures 5 * qb <= p * (4 * a)
  {
    MulLe(5 * cut, 4 * p, a);
    Regroup(cut, 5, a);
    Regroup(p, 4, a);
  }

  lemma MulLe(x: nat, y: nat, z: nat)
    requires x <= y
    ensures x * z <= y * z
  {
  }

  /** `p` is `payload` less a fifth, `k` times over, up to rounding. */
  ghost predicate FifthsOff(payload: nat, p: nat, k: nat) {
    p * Power(5, k) <= payload * Power(4, k) && (payload + 4) * Power(4, k) <= (p + 4) * Power(5, k)
  }

  lemma OneMoreFifth(payload: nat, p: nat, k: nat)
    requires FifthsOff(Cut(payload), p, k)
    ensures FifthsOff(payload, p, k + 1)
  {
    Fifths(payload, Cut(payload), p, Power(4, k), Power(5, k));
  }

  lemma NoFifth(payload: nat)
    ensures FifthsOff(payload, payload, 0)
  {
  }

  ghost predicate OnlyRetries(payload: nat, len: nat, headers: nat, limit: nat, k: nat)
    requires payload > 0 && limit > headers
  {
    var s := Sender(payload, len, true, false);
    && Rounds(s, k, headers, limit) == s.(payload := Shrunk(payload, len, limit - headers))
    && headers + Min(Shrunk(payload, len, limit - headers), len) <= limit
    && forall j :: 0 <= j < k ==> headers + Min(Rounds(s, j, headers, limit).payload, len) > limit
  }

  lemma NoRetry(payload: nat, len: nat, headers: nat, limit: nat)
    requires payload > 0 && limit > headers && Min(payload, len) <= limit - headers
    ensures OnlyRetries(payload, len, headers, limit, 0)
  {
  }

  lemma OneRetry(payload: nat, len: nat, headers: nat, limit: nat, k: nat)
    requires payload > 0 && len > 0 && limit > headers && Min(payload, len) > limit - headers
    requires Cut(payload) > 0 && OnlyRetries(Cut(payload), len, headers, limit, k)
    ensures OnlyRetries(payload, len, headers, limit, k + 1)
  {
    hide Shrunk, Rounds;
    var s, s1 := Sender(payload, len, true, false), Sender(Cut(payload), len, true, false);
    ShrunkStep(payload, len, limit - headers);
    forall j: nat
      ensures Rounds(s, j + 1, headers, limit) == Rounds(s1, j, headers, limit)
    {
      RoundsStep(s, j + 1, headers, limit);
    }
    RoundsNone(s, headers, limit);
    forall j | 0 <= j < k + 1
      ensures headers + Min(Rounds(s, j, headers, limit).payload, len) > limit
    {
      if j > 0 {
        assert Rounds(s, j - 1 + 1, headers, limit) == Rounds(s1, j - 1, headers, limit);
      }
    }
  }

  lemma RoundsStep(s: Sender, k: nat, headers: nat, limit: nat)
    requires k > 0 && !Over(s)
    ensures Rounds(s, k, headers, limit) == Rounds(Round(s, headers, limit), k - 1, headers, limit)
  {
  }

  lemma RoundsNone(s: Sender, headers: nat, limit: nat)
    ensures Rounds(s, 0, headers, limit) == s
  {
  }

  /** The loop first retries `k` times, nothing else, until the first packet
      passes, and each retry takes a fifth off the payload limit, up to rounding. */
  lemma {:induction false} RetriesTakeFifths(payload: nat, len: nat, headers: nat, limit: nat) returns (k: nat)
    requires payload > 0 && len > 0 && limit > headers
    ensures OnlyRetries(payload, len, headers, limit, k)
    ensures FifthsOff(payload, Shrunk(payload, len, limit - headers), k)
    decreases payload
  {
    hide OnlyRetries, FifthsOff, Shrunk;
    k := 0;
    ShrunkStep(payload, len, limit - headers);
    if Min(payload, len) <= limit - headers {
      NoRetry(payload, len, headers, limit);
      NoFifth(payload);
    } else {
      var cut := Cut(payload);
      var more := RetriesTakeFifths(cut, len, headers, limit);
      k := more + 1;
      OneMoreFifth(payload, Shrunk(cut, len, limit - headers), more);
      OneRetry(payload, len, headers, limit, more);
    }
  }

  /** For nonempty data of a first buffer the loop with its shrink-and-retry ends
      if and only if the path lets at least one byte of data through behind the
      headers, and then it ends with everything sent. At exactly the size of the
      headers it sends empty packets for ever, below that it retries for ever. */
  lemma SendingEndsIff(payload: nat, len: nat, headers: nat, limit: nat)
    requires payload > 0 && len > 0
    ensures var s := Sender(payload, len, true, false);
            && (Ends(s, headers, limit) <==> limit > headers)
            && (Ends(s, headers, limit) ==>
                 exists k :: Rounds(s, k, headers, limit).remaining == 0 && !Rounds(s, k, headers, limit).failed)
  {
    var s := Sender(payload, len, true, false);
    if limit > headers {
      var k := EndingRounds(s, headers, limit);
    } else {
      forall k: nat
        ensures !Over(Rounds(s, k, headers, limit))
      {
        StuckRounds(s, k, headers, limit);
      }
    }
  }

  /** The sending loop cut off after `k` rounds, on any path whose link holds: it
      goes through exactly the states of `Rounds`. */
  method SendForRounds(m: Meta, dataBuffer: seq<byte>, maxUdpPayload: nat, offset: u32, path: UdpPath, k: nat)
    returns (s: Sender)
    requires 0 < maxUdpPayload && HeaderSize(m) + Min(maxUdpPayload, |dataBuffer|) <= PACKET_STORAGE
    requires offset + |dataBuffer| < 0x1_0000_0000 && path.credit >= k
    modifies path
    ensures s == Rounds(Sender(maxUdpPayload, |dataBuffer|, true, false), k, HeaderSize(m), path.limit)
  {
    var buffer := new byte[PACKET_STORAGE];
    s := Sender(maxUdpPayload, |dataBuffer|, true, false);
    ghost var start := s;
    var i := 0;
    while i < k && !Over(s)
      invariant i <= k && path.credit >= k - i
      invariant s.remaining <= |dataBuffer| && s.payload <= maxUdpPayload
      invariant Rounds(s, k - i, HeaderSize(m), path.limit) == Rounds(start, k, HeaderSize(m), path.limit)
      decreases k - i
    {
      var err;
      err, s := SendRound(buffer, m, dataBuffer, offset, s, path);
      i := i + 1;
    }
  }

  /** The call as it was made: the payload limit given, the data's length, the
      headers' size, the path limit, and whether it is the first call for its event. */
  datatype Call = Call(maxPayload: nat, len: nat, headers: nat, limit: nat, firstBuffer: bool) {
    predicate Valid() {
      maxPayload > 0 && (firstBuffer ==> limit > headers)
    }

    function Final(): (p: nat)
      requires Valid()
      ensures 0 < p <= maxPayload
    {
      FinalPayload(maxPayload, len, limit - headers, firstBuffer)
    }

    predicate Fits()
      requires Valid()
    {
      headers + Min(Final(), len) <= limit
    }
  }

  /** The loop before a round (`more`) or at its end, after `sent` packets: the
      payload limit is the final one, or the first packet is still being cut. */
  predicate Underway(c: Call, s: Sender, sent: nat, more: bool)
    requires c.Valid()
  {
    && s.remaining <= c.len && 0 < s.payload <= c.maxPayload && !s.failed
    && (if s.veryFirst
        then c.firstBuffer && sent == 0 && more
             && FinalPayload(s.payload, c.len, c.limit - c.headers, true) == c.Final()
        else s.payload == c.Final())
    && (sent == 0 ==> s.remaining == c.len && more)
    && (sent > 0 ==> !s.veryFirst && c.Fits())
    && (c.firstBuffer && sent == 0 ==> s.veryFirst)
  }

  lemma StartUnderway(c: Call)
    requires c.Valid()
    ensures Underway(c, Sender(c.maxPayload, c.len, c.firstBuffer, false), 0, true)
  {
  }

  /** What a round does to the loop: a packet that passes has the final size and
      shows that the first one passed; only a later call's first packet is
      rejected for good. */
  lemma RoundUnderway(c: Call, s: Sender, sent: nat)
    requires c.Valid() && Underway(c, s, sent, true)
    ensures var passes, s' := c.headers + Min(s.remaining, s.payload) <= c.limit, Round(s, c.headers, c.limit);
            && s'.payload <= s.payload
            && (passes ==>
                 && c.Fits() && Min(s.remaining, s.payload) == Min(s.remaining, c.Final())
                 && Underway(c, s', sent + 1, s'.remaining > 0) && !s'.failed && !s'.veryFirst
                 && s'.remaining == s.remaining - Min(s.remaining, c.Final()))
            && (!passes && s.veryFirst ==>
                 && sent == 0 && Underway(c, s', 0, true) && !s'.failed && s'.veryFirst
                 && s'.remaining == s.remaining > 0 && s'.payload < s.payload)
            && (!passes && !s.veryFirst ==> s'.failed && sent == 0 && !c.firstBuffer && !c.Fits())
  {
    hide Shrunk, Cut;
    if c.firstBuffer {
      ShrunkStep(s.payload, c.len, c.limit - c.headers);
      ShrunkStep(c.maxPayload, c.len, c.limit - c.headers);
    }
  }

  /** How a call ends; `OutOfBounds` is a store outside the packet buffer or
      before the caller's buffer, which is no return code. */
  datatype Outcome = Sent | SendError | OutOfBounds

  /** `sendPacketizedBufferSendNew`: every packet is copied into a separate
      buffer; the caller's data is not changed. */
  method SendPacketizedBufferSendNew(m: Meta, dataBuffer: seq<byte>, maxUdpPayload: nat, offset: u32,
                                     firstBuffer: bool, path: UdpPath)
    returns (outcome: Outcome, nextOffset: u32, packetsSent: nat)
    requires 0 < maxUdpPayload && offset + |dataBuffer| < 0x1_0000_0000
    requires firstBuffer ==> path.limit > HeaderSize(m)
    modifies path
    ensures var payload := FinalPayload(maxUdpPayload, |dataBuffer|, path.limit - HeaderSize(m), firstBuffer);
            var ps := Packets(m, dataBuffer, payload, offset);
            if HeaderSize(m) + Min(maxUdpPayload, |dataBuffer|) > 65536 then
              outcome == OutOfBounds && packetsSent == 0 && path.sent == old(path.sent)
            else if HeaderSize(m) + Min(payload, |dataBuffer|) <= path.limit then
              && packetsSent == Min(old(path.credit), |ps|)
              && path.sent == old(path.sent) + ps[..packetsSent]
              && outcome == if |ps| <= old(path.credit) then Sent else SendError
            else
              && !firstBuffer && outcome == SendError && packetsSent == 0 && path.sent == old(path.sent)
    ensures nextOffset == if outcome == Sent then offset + |dataBuffer| else offset
  {
    hide Packets, Header, Pending, Round, FinalPayload, Underway;
    ghost var c := Call(maxUdpPayload, |dataBuffer|, HeaderSize(m), path.limit, firstBuffer);
    ghost var ps := Packets(m, dataBuffer, c.Final(), offset);
    packetsSent := 0;
    if HeaderSize(m) + Min(maxUdpPayload, |dataBuffer|) > PACKET_STORAGE {
      outcome, nextOffset := OutOfBounds, offset;
      return;
    }
    var buffer := new byte[PACKET_STORAGE];
    var s := Sender(maxUdpPayload, |dataBuffer|, firstBuffer, false);
    var firstLoop := true;
    StartUnderway(c);
    PendingAll(m, dataBuffer, c.Final(), offset);

    while firstLoop || s.remaining > 0
      invariant Underway(c, s, packetsSent, firstLoop || s.remaining > 0)
      invariant packetsSent > 0 ==> c.Fits()
      invariant path.credit == old(path.credit) - packetsSent
      invariant packetsSent <= |ps| && path.sent == old(path.sent) + ps[..packetsSent]
      invariant s.remaining <= |dataBuffer| && s.payload <= maxUdpPayload
      invariant Pending(ps, packetsSent, m, dataBuffer, |dataBuffer| - s.remaining, c.Final(), offset,
                        firstLoop || s.remaining > 0)
      decreases s.remaining, firstLoop, s.payload
    {
      firstLoop := false;
      NextPacket(ps, packetsSent, m, dataBuffer, |dataBuffer| - s.remaining, c.Final(), offset);
      RoundUnderway(c, s, packetsSent);
      var err;
      err, s := SendRound(buffer, m, dataBuffer, offset, s, path);
      if s.failed {
        outcome, nextOffset := SendError, offset;
        return;
      }
      if err == Accepted {
        packetsSent := packetsSent + 1;
      }
    }
    PendingNone(ps, packetsSent, m, dataBuffer, |dataBuffer| - s.remaining, c.Final(), offset);
    outcome, nextOffset := Sent, offset + (|dataBuffer| - s.remaining);
  }
}
