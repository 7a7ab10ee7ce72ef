/** From the sender's buffer to the receiver's: the bytes of an event survive
    packetizing, the load balancer, reordering, packets of other sources, and
    reassembly. */
module EndToEnd {
  import opened Headers
  import opened Packetizer
  import opened LoadBalancer
  import opened Reassembly
  import opened ReassemblySafety
  import opened ReassemblyDelivery
  import opened AllocatingReassembly

  /** What a receiver parses out of a direct packet. */
  lemma DirectPacketParses(m: Meta, offset: u32, data: seq<byte>)
    requires m.direct
    ensures var r := Datagram(Header(m, offset) + data);
            IsPacket(r) && Parse(r) == Packet(m.dataId, m.tick, offset, m.fullLen, data)
  {
    hide ReBytes, ParseRe;
    var h := ReHeader(m.version, m.reserved, m.dataId, offset, m.fullLen, m.tick);
    ReBytesFields(h);
    ParseReOfReBytes(h, data);
    var d := Header(m, offset) + data;
    assert d == ReBytes(h) + data;
    assert d[RE_HEADER_BYTES..] == data;
  }

  /** The packets of `event[offset..end]`, as a receiver parses them. */
  function Parts(m: Meta, event: seq<byte>, payload: nat, offset: nat, end: nat): seq<Packet>
    requires payload > 0 && offset <= end <= |event| && m.fullLen == |event|
    decreases end - offset
  {
    var n := Min(end - offset, payload);
    [Packet(m.dataId, m.tick, offset, |event|, event[offset..offset + n])]
    + if offset + n < end then Parts(m, event, payload, offset + n, end) else []
  }

  function AsRecv(ds: seq<seq<byte>>): seq<Recv> {
    seq(|ds|, i requires 0 <= i < |ds| => Datagram(ds[i]))
  }

  ghost predicate ParsesTo(ds: seq<seq<byte>>, ps: seq<Packet>) {
    && |ds| == |ps|
    && forall i :: 0 <= i < |ds| ==> IsPacket(Datagram(ds[i])) && Parse(Datagram(ds[i])) == ps[i]
  }

  lemma ParsesToOne(d: seq<byte>, p: Packet)
    requires IsPacket(Datagram(d)) && Parse(Datagram(d)) == p
    ensures ParsesTo([d], [p])
  {
    hide Parse;
  }

  lemma ParsesToJoin(ds: seq<seq<byte>>, es: seq<seq<byte>>, ps: seq<Packet>, qs: seq<Packet>)
    requires ParsesTo(ds, ps) && ParsesTo(es, qs)
    ensures ParsesTo(ds + es, ps + qs)
  {
    hide Parse;
  }

  lemma PartsStep(m: Meta, event: seq<byte>, payload: nat, offset: nat, end: nat)
    requires payload > 0 && offset <= end <= |event| && m.fullLen == |event|
    ensures var n := Min(end - offset, payload);
            Parts(m, event, payload, offset, end) ==
            [Packet(m.dataId, m.tick, offset, |event|, event[offset..offset + n])]
            + if offset + n < end then Parts(m, event, payload, offset + n, end) else []
  {
  }

  lemma SliceOfSlice(s: seq<byte>, from: nat, end: nat, n: nat)
    requires from + n <= end <= |s|
    ensures s[from..end][..n] == s[from..from + n] && s[from..end][n..] == s[from + n..end]
  {
  }

  lemma {:induction false} PacketsParse(m: Meta, event: seq<byte>, payload: nat, offset: nat, end: nat)
    requires m.direct && payload > 0 && offset <= end <= |event| && m.fullLen == |event|
    ensures ParsesTo(Packets(m, event[offset..end], payload, offset), Parts(m, event, payload, offset, end))
    decreases end - offset
  {
    hide Header, Parse, Packets, Parts, ParsesTo;
    var data := event[offset..end];
    var n := Min(|data|, payload);
    SliceOfSlice(event, offset, end, n);
    PacketsStep(m, data, payload, offset);
    PartsStep(m, event, payload, offset, end);
    DirectPacketParses(m, offset, data[..n]);
    var d, p := Header(m, offset) + data[..n], Packet(m.dataId, m.tick, offset, |event|, data[..n]);
    ParsesToOne(d, p);
    if n < |data| {
      PacketsParse(m, event, payload, offset + n, end);
      ParsesToJoin([d], Packets(m, data[n..], payload, offset + n), [p], Parts(m, event, payload, offset + n, end));
    } else {
      assert [d] + [] == [d] && [p] + [] == [p];
    }
  }

  /** The packets of `event[offset..end]` tile it: they are nonempty fragments
      in ascending order without gap or overlap. */
  ghost predicate Tiles(ps: seq<Packet>, event: seq<byte>, offset: nat, end: nat) {
    && ps != [] && ps[0].offset == offset && ps[|ps| - 1].End() == end
    && (forall i :: 0 <= i < |ps| ==> FragmentOf(ps[i], event) && ps[i].payload != [])
    && (forall i :: 0 < i < |ps| ==> ps[i].offset == ps[i - 1].End())
  }

  lemma TilesJoin(a: seq<Packet>, b: seq<Packet>, event: seq<byte>, from: nat, mid: nat, end: nat)
    requires Tiles(a, event, from, mid) && Tiles(b, event, mid, end)
    ensures Tiles(a + b, event, from, end)
  {
    var ps := a + b;
    assert forall i :: |a| <= i < |ps| ==> ps[i] == b[i - |a|];
  }

  lemma OneTile(p: Packet, event: seq<byte>, offset: nat, end: nat)
    requires offset < end <= |event| && p.offset == offset && p.length == |event| && p.payload == event[offset..end]
    ensures Tiles([p], event, offset, end)
  {
  }

  lemma {:induction false} PartsTile(m: Meta, event: seq<byte>, payload: nat, offset: nat, end: nat)
    requires payload > 0 && offset < end <= |event| && m.fullLen == |event|
    ensures Tiles(Parts(m, event, payload, offset, end), event, offset, end)
    ensures forall p <- Parts(m, event, payload, offset, end) :: KeyOf(p) == (m.dataId as nat, m.tick as nat)
    decreases end - offset
  {
    hide Tiles, Parts;
    var n := Min(end - offset, payload);
    var p := Packet(m.dataId, m.tick, offset, |event|, event[offset..offset + n]);
    OneTile(p, event, offset, offset + n);
    PartsStep(m, event, payload, offset, end);
    if offset + n < end {
      PartsTile(m, event, payload, offset + n, end);
      TilesJoin([p], Parts(m, event, payload, offset + n, end), event, offset, offset + n, end);
    } else {
      assert [p] + [] == [p];
    }
  }

  lemma {:induction false} TilesAscend(ps: seq<Packet>, event: seq<byte>, i: nat, j: nat)
    requires Tiles(ps, event, 0, |event|) && i < j < |ps|
    ensures ps[i].End() <= ps[j].offset
    decreases j
  {
    if i < j - 1 {
      TilesAscend(ps, event, i, j - 1);
    }
  }

  /** Whatever the packet sizes, every byte of the event is in some packet. */
  lemma {:induction false} TilesCover(ps: seq<Packet>, event: seq<byte>, i: nat, k: nat)
    requires Tiles(ps, event, 0, |event|) && k < |ps| && i < ps[k].End()
    ensures CoveredBy(ps, i)
    decreases k
  {
    if i < ps[k].offset {
      TilesCover(ps, event, i, k - 1);
    } else {
      assert ps[k].Covers(i);
    }
  }

  // ----- Arrivals in any order -----

  function OwnDatagrams(src: nat, arrivals: seq<seq<byte>>): seq<seq<byte>> {
    if arrivals == [] then []
    else (if Own(src, Datagram(arrivals[0])) then [arrivals[0]] else []) + OwnDatagrams(src, arrivals[1..])
  }

  function DataBytes(ds: seq<seq<byte>>): int {
    if ds == [] then 0 else |ds[0]| - RE_HEADER_BYTES + DataBytes(ds[1..])
  }

  lemma {:induction false} DataBytesConcat(a: seq<seq<byte>>, b: seq<seq<byte>>)
    ensures DataBytes(a + b) == DataBytes(a) + DataBytes(b)
  {
    if a == [] {
      assert a + b == b;
    } else {
      assert (a + b)[1..] == a[1..] + b;
      DataBytesConcat(a[1..], b);
    }
  }

  lemma WithoutOne<T>(s: seq<T>, k: nat)
    requires k < |s|
    ensures multiset(s) == multiset(s[..k] + s[k + 1..]) + multiset{s[k]}
  {
    assert s == s[..k] + ([s[k]] + s[k + 1..]);
  }

  lemma CancelOne<T>(a: multiset<T>, b: multiset<T>, x: T)
    requires a + multiset{x} == b + multiset{x}
    ensures a == b
  {
    assert (a + multiset{x}) - multiset{x} == a;
    assert (b + multiset{x}) - multiset{x} == b;
  }

  lemma RemoveOne<T>(a: seq<T>, b: seq<T>, k: nat)
    requires multiset(a) == multiset(b) && a != [] && k < |b| && b[k] == a[0]
    ensures multiset(a[1..]) == multiset(b[..k] + b[k + 1..])
  {
    WithoutOne(a, 0);
    WithoutOne(b, k);
    assert a[..0] + a[1..] == a[1..];
    CancelOne(multiset(a[1..]), multiset(b[..k] + b[k + 1..]), a[0]);
  }

  lemma {:induction false} DataBytesPermuted(a: seq<seq<byte>>, b: seq<seq<byte>>)
    requires multiset(a) == multiset(b)
    ensures DataBytes(a) == DataBytes(b)
  {
    if a == [] {
      assert |multiset(a)| == |a| && |multiset(b)| == |b|;
    } else {
      var x := a[0];
      assert x in multiset(a);
      var k :| 0 <= k < |b| && b[k] == x;
      var b' := b[..k] + b[k + 1..];
      RemoveOne(a, b, k);
      DataBytesPermuted(a[1..], b');
      DataBytesConcat(b[..k], b[k + 1..]);
      DataBytesConcat(b[..k], [x] + b[k + 1..]);
      assert b == b[..k] + ([x] + b[k + 1..]);
    }
  }

  lemma {:induction false} OwnBytesOfArrivals(src: nat, arrivals: seq<seq<byte>>)
    ensures OwnBytes(src, AsRecv(arrivals)) == DataBytes(OwnDatagrams(src, arrivals))
  {
    if arrivals != [] {
      assert AsRecv(arrivals)[1..] == AsRecv(arrivals[1..]);
      OwnBytesOfArrivals(src, arrivals[1..]);
      var rest := OwnDatagrams(src, arrivals[1..]);
      assert ([arrivals[0]] + rest)[1..] == rest && [] + rest == rest;
    }
  }

  lemma {:induction false} OwnMembers(src: nat, arrivals: seq<seq<byte>>)
    ensures forall d :: d in OwnDatagrams(src, arrivals) <==> d in arrivals && Own(src, Datagram(d))
    ensures forall d <- OwnDatagrams(src, arrivals) ::
              IsPacket(Datagram(d)) && Parse(Datagram(d)) in OwnPackets(src, AsRecv(arrivals))
    ensures forall p <- OwnPackets(src, AsRecv(arrivals)) ::
              exists d :: d in OwnDatagrams(src, arrivals) && IsPacket(Datagram(d)) && Parse(Datagram(d)) == p
  {
    hide Parse;
    if arrivals != [] {
      assert AsRecv(arrivals)[1..] == AsRecv(arrivals[1..]);
      OwnMembers(src, arrivals[1..]);
    }
  }

  lemma {:induction false} PacketBytes(m: Meta, data: seq<byte>, payload: nat, offset: nat)
    requires m.direct && payload > 0 && offset + |data| < 0x1_0000_0000
    ensures DataBytes(Packets(m, data, payload, offset)) == |data|
    decreases |data|
  {
    hide Header, Packets;
    PacketsStep(m, data, payload, offset);
    var n := Min(|data|, payload);
    var first := Header(m, offset) + data[..n];
    if n < |data| {
      PacketBytes(m, data[n..], payload, offset + n);
      assert ([first] + Packets(m, data[n..], payload, offset + n))[1..] == Packets(m, data[n..], payload, offset + n);
    }
  }

  // ----- The round trip -----

  /** The event's packets behind the load balancer, in the order sent. */
  function Stripped(m: Meta, event: seq<byte>, payload: nat, basePort: nat, entropyBits: nat): seq<seq<byte>>
    requires !m.direct && payload > 0 && |event| < 0x1_0000_0000 && entropyBits < 16
  {
    StrippedIsDirect(m, event, payload, 0, basePort, entropyBits);
    Datagrams(ForwardAll(Packets(m, event, payload, 0), basePort, entropyBits))
  }

  /** Everything the receiver needs to know about those packets. */
  lemma StrippedParts(m: Meta, event: seq<byte>, payload: nat, basePort: nat, entropyBits: nat)
    requires !m.direct && event != [] && payload > 0 && m.fullLen == |event| && entropyBits < 16
    ensures var ds, ps := Stripped(m, event, payload, basePort, entropyBits), Parts(m, event, payload, 0, |event|);
            && ParsesTo(ds, ps) && Tiles(ps, event, 0, |event|)
            && (forall p <- ps :: KeyOf(p) == (m.dataId as nat, m.tick as nat))
            && DataBytes(ds) == |event|
  {
    hide Packets, ForwardAll, Datagrams, Parts, Tiles, Parse;
    var direct := m.(direct := true);
    StrippedIsDirect(m, event, payload, 0, basePort, entropyBits);
    assert event[0..|event|] == event;
    PacketsParse(direct, event, payload, 0, |event|);
    PartsTile(direct, event, payload, 0, |event|);
    PacketBytes(direct, event, payload, 0);
    PartsIgnoreDirect(m, event, payload, 0, |event|);
  }

  lemma {:induction false} PartsIgnoreDirect(m: Meta, event: seq<byte>, payload: nat, offset: nat, end: nat)
    requires payload > 0 && offset <= end <= |event| && m.fullLen == |event|
    ensures Parts(m.(direct := true), event, payload, offset, end) == Parts(m, event, payload, offset, end)
    decreases end - offset
  {
    var n := Min(end - offset, payload);
    if offset + n < end {
      PartsIgnoreDirect(m, event, payload, offset + n, end);
    }
  }

  /** What arrives: the event's packets, each once and in any order but with the
      first packet first, and after it any packets of other sources; the last
      packet is the event's. */
  ghost predicate Arrived(src: nat, ds: seq<seq<byte>>, arrivals: seq<seq<byte>>) {
    && ds != [] && arrivals != []
    && arrivals[0] == ds[0]
    && (forall d <- arrivals :: IsPacket(Datagram(d)))
    && Own(src, Datagram(arrivals[|arrivals| - 1]))
    && multiset(OwnDatagrams(src, arrivals)) == multiset(ds)
  }

  /** An own arrival is one of the packets sent, and conversely. */
  lemma OwnArrival(src: nat, ds: seq<seq<byte>>, ps: seq<Packet>, arrivals: seq<seq<byte>>, d: seq<byte>)
    requires Arrived(src, ds, arrivals) && ParsesTo(ds, ps)
    ensures d in OwnDatagrams(src, arrivals) <==> d in ds
    ensures d in ds ==> IsPacket(Datagram(d)) && Parse(Datagram(d)) in ps
  {
    hide Parse, OwnDatagrams;
    assert d in multiset(OwnDatagrams(src, arrivals)) <==> d in multiset(ds);
    if d in ds {
      var i :| 0 <= i < |ds| && ds[i] == d;
      assert Parse(Datagram(d)) == ps[i];
    }
  }

  lemma ArrivedIsComplete(src: nat, tick: nat, event: seq<byte>, ds: seq<seq<byte>>, ps: seq<Packet>,
        arrivals: seq<seq<byte>>)
    requires Arrived(src, ds, arrivals) && ParsesTo(ds, ps) && Tiles(ps, event, 0, |event|) && DataBytes(ds) == |event|
    requires forall p <- ps :: KeyOf(p) == (src, tick)
    ensures Complete(src, tick, |event|, AsRecv(arrivals)) && Parse(AsRecv(arrivals)[0]).offset == 0
  {
    hide Parse, OwnPackets, OwnDatagrams, OwnBytes, DataBytes;
    var stream, own := AsRecv(arrivals), OwnDatagrams(src, arrivals);
    OwnMembers(src, arrivals);
    OwnBytesOfArrivals(src, arrivals);
    DataBytesPermuted(own, ds);
    forall r | r in stream
      ensures IsPacket(r) && (Own(src, r) ==> OneOf(tick, |event|, Parse(r)))
    {
      assert r.bytes in arrivals && r == Datagram(r.bytes);
      if Own(src, r) {
        OwnArrival(src, ds, ps, arrivals, r.bytes);
      }
    }
    OwnArrival(src, ds, ps, arrivals, ds[0]);
    assert Parse(Datagram(ds[0])) == ps[0] && KeyOf(ps[0]) == (src, tick);
  }

  lemma ArrivedCovers(src: nat, event: seq<byte>, ds: seq<seq<byte>>, ps: seq<Packet>, arrivals: seq<seq<byte>>)
    requires Arrived(src, ds, arrivals) && ParsesTo(ds, ps) && Tiles(ps, event, 0, |event|)
    ensures forall p <- OwnPackets(src, AsRecv(arrivals)) :: FragmentOf(p, event)
    ensures forall i :: 0 <= i < |event| ==> CoveredBy(OwnPackets(src, AsRecv(arrivals)), i)
  {
    hide Parse, OwnPackets, OwnDatagrams, Arrived;
    var own := OwnPackets(src, AsRecv(arrivals));
    OwnMembers(src, arrivals);
    forall p | p in own
      ensures FragmentOf(p, event)
    {
      var d :| d in OwnDatagrams(src, arrivals) && IsPacket(Datagram(d)) && Parse(Datagram(d)) == p;
      OwnArrival(src, ds, ps, arrivals, d);
    }
    forall i | 0 <= i < |event|
      ensures CoveredBy(own, i)
    {
      TilesCover(ps, event, i, |ps| - 1);
      var p :| p in ps && p.Covers(i);
      var k :| 0 <= k < |ps| && ps[k] == p;
      OwnArrival(src, ds, ps, arrivals, ds[k]);
      assert p in own;
    }
  }

  /** The end-to-end theorem. The packets of a nonempty event go through the
      load balancer and arrive, each once, in any order that starts with the
      first, packets of other sources mixed in after it. Then a receiver in any
      state that accepts the first packet returns exactly its bytes, tick and
      source on reading the last packet. */
  lemma EventSurvives(m: Meta, event: seq<byte>, payload: nat, basePort: nat, entropyBits: nat,
                      arrivals: seq<seq<byte>>, rx: Rx, buf: seq<byte>)
    requires !m.direct && event != [] && payload > 0 && m.fullLen == |event| && entropyBits < 16
    requires Arrived(m.dataId, Stripped(m, event, payload, basePort, entropyBits), arrivals)
    requires Accepts(rx, m.dataId, m.tick, 0) && |event| <= |buf|
    ensures var r := Run(rx, AsRecv(arrivals), |buf|);
            && r.result == Built(|event|, m.tick, m.dataId) && r.rest == []
            && WriteAll(buf, r.rx.writes)[..|event|] == event
  {
    hide Stripped, Parts, Run, WriteAll, Parse, Arrived, Tiles, ParsesTo, Complete, OwnPackets;
    var ds, ps := Stripped(m, event, payload, basePort, entropyBits), Parts(m, event, payload, 0, |event|);
    StrippedParts(m, event, payload, basePort, entropyBits);
    ArrivedIsComplete(m.dataId, m.tick, event, ds, ps, arrivals);
    ArrivedCovers(m.dataId, event, ds, ps, arrivals);
    var stream := AsRecv(arrivals);
    CompleteIsBuilt(rx, m.dataId, m.tick, |event|, stream, |buf|);
    AcceptedBytes(buf, rx.writes, OwnPackets(m.dataId, stream), event);
  }

  lemma PartsNotEmpty(ps: seq<Packet>, event: seq<byte>)
    requires Tiles(ps, event, 0, |event|)
    ensures ps != []
  {
  }

  lemma {:induction false} AllOwn(src: nat, ds: seq<seq<byte>>, ps: seq<Packet>)
    requires ParsesTo(ds, ps) && forall p <- ps :: p.dataId == src
    ensures OwnDatagrams(src, ds) == ds
    ensures forall d <- ds :: Own(src, Datagram(d))
  {
    hide Parse;
    if ds != [] {
      assert ps[0] in ps && forall p <- ps[1..] :: p in ps;
      AllOwn(src, ds[1..], ps[1..]);
      assert ds == [ds[0]] + ds[1..];
    }
  }

  /** With no loss, no reordering and no other source, every nonempty event
      arrives: the first call of a receiver returns it. */
  lemma UndisturbedEventSurvives(m: Meta, event: seq<byte>, payload: nat, basePort: nat, entropyBits: nat,
                                 buf: seq<byte>)
    requires !m.direct && event != [] && payload > 0 && m.fullLen == |event| && entropyBits < 16
    requires |event| <= |buf|
    ensures var r := Run(RX_START, AsRecv(Stripped(m, event, payload, basePort, entropyBits)), |buf|);
            && r.result == Built(|event|, m.tick, m.dataId) && r.rest == []
            && WriteAll(buf, r.rx.writes)[..|event|] == event
  {
    hide Stripped, Parts, Run, WriteAll, Parse, Tiles, OwnDatagrams;
    var ds := Stripped(m, event, payload, basePort, entropyBits);
    var ps := Parts(m, event, payload, 0, |event|);
    StrippedParts(m, event, payload, basePort, entropyBits);
    assert forall p <- ps :: KeyOf(p).0 == m.dataId;
    PartsNotEmpty(ps, event);
    AllOwn(m.dataId, ds, ps);
    EventSurvives(m, event, payload, basePort, entropyBits, ds, RX_START, buf);
  }

  lemma EmptyFirstPayloadFaults(rx: Rx, r: Recv, bufLen: nat)
    requires rx.veryFirstRead && IsPacket(r) && Parse(r).payload == []
    ensures Run(rx, [r], bufLen).result == Failed(DIVIDE_BY_ZERO)
  {
    hide Parse;
    RunStep(rx, [r], bufLen);
  }

  /** The round trip needs a nonempty event: the sender does send an empty event,
      as one empty packet, and that packet makes a waiting receiver divide by zero. */
  lemma EmptyEventFaults(m: Meta, payload: nat, basePort: nat, entropyBits: nat, rx: Rx, bufLen: nat)
    requires !m.direct && payload > 0 && m.fullLen == 0 && entropyBits < 16 && rx.veryFirstRead
    ensures var ds := Stripped(m, [], payload, basePort, entropyBits);
            |ds| == 1 && Run(rx, AsRecv(ds), bufLen).result == Failed(DIVIDE_BY_ZERO)
  {
    hide Header, Parse, Run, ForwardAll, Datagrams;
    var direct := m.(direct := true);
    StrippedIsDirect(m, [], payload, 0, basePort, entropyBits);
    DirectPacketParses(direct, 0, []);
    var ds := Stripped(m, [], payload, basePort, entropyBits);
    assert ds == [Header(direct, 0) + []];
    assert AsRecv(ds) == [Datagram(ds[0])];
    EmptyFirstPayloadFaults(rx, Datagram(ds[0]), bufLen);
  }

  // ----- Where honest streams come from -----

  /** One event as it was handed to a sender. */
  datatype Outgoing = Outgoing(m: Meta, event: seq<byte>, payload: nat)

  ghost predicate Sendable(out: map<Key, Outgoing>) {
    forall k <- out :: var o := out[k];
      o.event != [] && o.payload > 0 && o.m.fullLen == |o.event| && k == (o.m.dataId as nat, o.m.tick as nat)
  }

  function PacketsOf(key: Key, stream: seq<Recv>): seq<Packet> {
    if stream == [] then []
    else (if IsPacket(stream[0]) && KeyOf(Parse(stream[0])) == key then [Parse(stream[0])] else [])
         + PacketsOf(key, stream[1..])
  }

  /** The network loses, reorders and mixes, but delivers no packet twice. */
  ghost predicate EachAtMostOnce(out: map<Key, Outgoing>, stream: seq<Recv>)
    requires Sendable(out)
  {
    && (forall i :: 0 <= i < |stream| && IsPacket(stream[i]) ==> KeyOf(Parse(stream[i])) in out)
    && (forall k <- out :: multiset(PacketsOf(k, stream)) <= multiset(Parts(out[k].m, out[k].event,
      out[k].payload, 0, |out[k].event|)))
  }

  lemma {:induction false} PacketOccurs(key: Key, stream: seq<Recv>, i: nat)
    requires i < |stream| && IsPacket(stream[i]) && KeyOf(Parse(stream[i])) == key
    ensures Parse(stream[i]) in PacketsOf(key, stream)
  {
    hide Parse;
    if i > 0 {
      PacketOccurs(key, stream[1..], i - 1);
    }
  }

  lemma PacketsOfStep(key: Key, stream: seq<Recv>)
    requires stream != []
    ensures var rest := multiset(PacketsOf(key, stream[1..]));
            multiset(PacketsOf(key, stream)) ==
            if IsPacket(stream[0]) && KeyOf(Parse(stream[0])) == key then multiset{Parse(stream[0])} + rest else rest
  {
    hide Parse;
  }

  lemma OneOfSeq<T>(s: seq<T>, x: T)
    requires x in s
    ensures multiset{x} <= multiset(s)
  {
    assert x in multiset(s);
  }

  lemma {:induction false} TwoPacketsOccur(key: Key, stream: seq<Recv>, i: nat, j: nat)
    requires i < j < |stream| && IsPacket(stream[i]) && IsPacket(stream[j])
    requires KeyOf(Parse(stream[i])) == KeyOf(Parse(stream[j])) == key
    ensures multiset{Parse(stream[i]), Parse(stream[j])} <= multiset(PacketsOf(key, stream))
  {
    hide Parse, PacketsOf;
    var p, tail := stream[0], stream[1..];
    PacketsOfStep(key, stream);
    assert tail[j - 1] == stream[j];
    if i > 0 {
      assert tail[i - 1] == stream[i];
      TwoPacketsOccur(key, tail, i - 1, j - 1);
    } else {
      PacketOccurs(key, tail, j - 1);
      OneOfSeq(PacketsOf(key, tail), Parse(stream[j]));
    }
  }

  lemma TwoLeavesOne<T>(rest: multiset<T>, p: T, q: T)
    requires multiset{p, q} <= rest + multiset{p}
    ensures q in rest
  {
    assert multiset{p, q}[q] <= (rest + multiset{p})[q];
  }

  lemma TwoIndices<T>(s: seq<T>, p: T, q: T) returns (a: nat, b: nat)
    requires multiset{p, q} <= multiset(s)
    ensures a < |s| && b < |s| && a != b && s[a] == p && s[b] == q
  {
    assert p in multiset(s);
    a :| 0 <= a < |s| && s[a] == p;
    var rest := s[..a] + s[a + 1..];
    WithoutOne(s, a);
    TwoLeavesOne(multiset(rest), p, q);
    var c :| 0 <= c < |rest| && rest[c] == q;
    b := if c < a then c else c + 1;
  }

  lemma TwoOfTilesAreClear(ps: seq<Packet>, event: seq<byte>, p: Packet, q: Packet)
    requires Tiles(ps, event, 0, |event|) && multiset{p, q} <= multiset(ps)
    ensures Clear(p, q)
  {
    hide Tiles;
    var a, b := TwoIndices(ps, p, q);
    if a < b {
      TilesAscend(ps, event, a, b);
    } else {
      TilesAscend(ps, event, b, a);
    }
  }

  /** Whatever arrives of packetized events, each packet at most once, is an
      honest stream; so the safety of deliveries holds of it. */
  lemma ArrivalsAreHonest(out: map<Key, Outgoing>, stream: seq<Recv>)
    requires Sendable(out) && EachAtMostOnce(out, stream)
    ensures Honest(map k | k in out :: out[k].event, stream)
  {
    hide Parse, Parts, Tiles, PacketsOf, Clear, FragmentOf;
    var sent := map k | k in out :: out[k].event;
    forall i | 0 <= i < |stream| && IsPacket(stream[i])
      ensures Genuine(sent, Parse(stream[i]))
    {
      var p := Parse(stream[i]);
      var o := out[KeyOf(p)];
      PacketOccurs(KeyOf(p), stream, i);
      assert p in multiset(PacketsOf(KeyOf(p), stream));
      PartsTile(o.m, o.event, o.payload, 0, |o.event|);
      TilesAreFragments(Parts(o.m, o.event, o.payload, 0, |o.event|), o.event, p);
    }
    forall i, j | 0 <= i < j < |stream| && IsPacket(stream[i]) && IsPacket(stream[j])
      ensures Clear(Parse(stream[i]), Parse(stream[j]))
    {
      var p, q := Parse(stream[i]), Parse(stream[j]);
      if p.SameEvent(q) {
        var key := KeyOf(p);
        var o := out[key];
        TwoPacketsOccur(key, stream, i, j);
        PartsTile(o.m, o.event, o.payload, 0, |o.event|);
        TwoOfTilesAreClear(Parts(o.m, o.event, o.payload, 0, |o.event|), o.event, p, q);
      } else {
        ForeignIsClear(p, q);
      }
    }
  }

  lemma ForeignIsClear(p: Packet, q: Packet)
    requires !p.SameEvent(q)
    ensures Clear(p, q)
  {
  }

  lemma TilesAreFragments(ps: seq<Packet>, event: seq<byte>, p: Packet)
    requires Tiles(ps, event, 0, |event|) && p in multiset(ps)
    ensures FragmentOf(p, event)
  {
  }

  // ----- Loss and the allocating receiver -----

  /** The first packet of an event, then its last; the others are lost. */
  function FirstAndLast(m: Meta, event: seq<byte>, payload: nat): seq<Recv>
    requires payload > 0 && |event| < 0x1_0000_0000
  {
    var ds := Packets(m, event, payload, 0);
    [Datagram(ds[0]), Datagram(ds[|ds| - 1])]
  }

  /** The overrun happens on honest input: for every event longer than twice the
      initial buffer, sent in packets of at most 9000 data bytes, losing all but
      the first and the last packet makes the receiver store out of bounds. */
  lemma LossOverruns(m: Meta, event: seq<byte>, payload: nat, isNull: bool, bufLen: nat)
    requires m.direct && m.fullLen == |event| && 0 < payload <= MAX_EJFAT_MTU
    requires |event| > 2 * InitialLength(isNull, bufLen)
    ensures var stream := FirstAndLast(m, event, payload);
            && Honest(map[(m.dataId as nat, m.tick as nat) := event], stream)
            && RunAlloc(RX_START, stream, InitialLength(isNull, bufLen)).run.result == Failed(OVERRUN)
  {
    hide Packets, Parts, Tiles, Parse, FragmentOf, Clear, RunAlloc;
    var cap, stream := InitialLength(isNull, bufLen), FirstAndLast(m, event, payload);
    var ds, ps := Packets(m, event, payload, 0), Parts(m, event, payload, 0, |event|);
    assert event[0..|event|] == event;
    PacketsParse(m, event, payload, 0, |event|);
    PartsTile(m, event, payload, 0, |event|);
    var p, q := ps[0], ps[|ps| - 1];
    FirstPart(m, event, payload);
    TilesEnds(ps, event);
    assert Parse(stream[0]) == p && Parse(stream[1]) == q && p in ps && q in ps;
    TilesAscend(ps, event, 0, |ps| - 1);
    LastOverruns(stream, p, q, cap);
    TilesAreFragments(ps, event, p);
    TilesAreFragments(ps, event, q);
    ClearWhenApart(p, q);
  }

  lemma FirstPart(m: Meta, event: seq<byte>, payload: nat)
    requires payload > 0 && m.fullLen == |event|
    ensures var ps := Parts(m, event, payload, 0, |event|);
            ps != [] && |ps[0].payload| <= payload
  {
  }

  lemma TilesEnds(ps: seq<Packet>, event: seq<byte>)
    requires Tiles(ps, event, 0, |event|)
    ensures ps != [] && ps[0].offset == 0 && ps[0].payload != [] && ps[|ps| - 1].End() == |event|
    ensures ps[0].length == |event| && (|ps| == 1 ==> |ps[0].payload| == |event|)
  {
  }

  lemma ClearWhenApart(p: Packet, q: Packet)
    requires p.End() <= q.offset
    ensures Clear(p, q)
  {
  }

  /** A first packet without its successors, then one beyond twice the buffer. */
  lemma LastOverruns(stream: seq<Recv>, p: Packet, q: Packet, cap: nat)
    requires |stream| == 2 && IsPacket(stream[0]) && IsPacket(stream[1])
    requires Parse(stream[0]) == p && Parse(stream[1]) == q && p.SameEvent(q)
    requires p.offset == 0 && 0 < |p.payload| < p.length && p.End() <= cap
    requires q.End() > 2 * cap
    ensures RunAlloc(RX_START, stream, cap).run.result == Failed(OVERRUN)
  {
    hide Parse, RunAlloc;
    RunAllocStep(RX_START, stream, cap);
    var a := NextAlloc(RX_START, stream[0], cap);
    RunAllocStep(a.step.rx, stream[1..], a.cap);
  }
}
