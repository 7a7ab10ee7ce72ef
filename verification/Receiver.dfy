/** The receiving routines: loops over `recvfrom` that keep their state in local
    variables and store into a caller's buffer.
    Each is proved to do exactly what the reassembly machine says. */
module Receiver {
  import opened Headers
  import opened Reassembly
  import opened AllocatingReassembly

  /** A UDP socket: the outcomes its next reads will have. */
  class UdpSocket {
    var incoming: seq<Recv>

    constructor (incoming: seq<Recv>)
      ensures this.incoming == incoming
    {
      this.incoming := incoming;
    }

    method RecvFrom() returns (r: Recv)
      requires incoming != []
      modifies this
      ensures r == old(incoming)[0] && incoming == old(incoming)[1..]
    {
      r := incoming[0];
      incoming := incoming[1..];
    }
  }

  class PacketRecvStats {
    var acceptedBytes: int
    var acceptedPackets: int
    var badSrcIdPackets: int

    constructor ()
      ensures acceptedBytes == acceptedPackets == badSrcIdPackets == 0
    {
      acceptedBytes, acceptedPackets, badSrcIdPackets := 0, 0, 0;
    }
  }

  /** The tests of the receive loop on a packet's source and tick, up to the
      point where the packet would be stored. */
  method Examine(rx: Rx, p: Packet) returns (v: Verdict)
    ensures v == Classify(TopOfLoop(rx), p)
    ensures !v.Fault? ==> v.rx.writes == rx.writes
    ensures v.Store? ==> v.rx.badSrcIdPackets == rx.badSrcIdPackets
  {
    var prevTick, srcId := rx.prevTick, rx.srcId;
    var dumpTick, veryFirstRead := rx.dumpTick, rx.veryFirstRead;
    var totalBytesRead, pktCount := rx.totalBytesRead, rx.pktCount;
    var skip := false;

    if veryFirstRead {
      totalBytesRead, pktCount := 0, 0;
      srcId := p.dataId;
      if |p.payload| == 0 {
        return Fault;
      }
    } else if p.dataId != srcId {
      return Skip(rx.(badSrcIdPackets := rx.badSrcIdPackets + 1));
    }

    if p.tick != prevTick {
      if p.offset != 0 {
        veryFirstRead, dumpTick, prevTick, skip := true, true, p.tick, true;
      } else {
        if !veryFirstRead {
          pktCount, totalBytesRead, srcId := 0, 0, p.dataId;
        }
        dumpTick := false;
      }
    } else if dumpTick {
      veryFirstRead, skip := true, true;
    }

    var rx' := Rx(prevTick, srcId, dumpTick, veryFirstRead, totalBytesRead, pktCount, rx.badSrcIdPackets, rx.writes);
    v := if skip then Skip(rx') else Store(rx');
  }

  /** What a turn of a receive loop read: nothing usable, or a packet and what
      the tests say about it. */
  datatype Read = Refused(code: Code) | Examined(packet: Packet, verdict: Verdict)

  /** The first half of a turn, up to the point where a packet would be stored. */
  method ReadPacket(rx: Rx, socket: UdpSocket) returns (read: Read)
    requires socket.incoming != []
    modifies socket
    ensures socket.incoming == old(socket.incoming)[1..]
    ensures var r := old(socket.incoming)[0];
            match read
            case Refused(code) => !IsPacket(r) && code == if r.RecvError? then RECV_MSG else INTERNAL_ERROR
            case Examined(p, v) =>
              && IsPacket(r) && p == Parse(r) && v == Classify(TopOfLoop(rx), p)
              && (!v.Fault? ==> v.rx.writes == rx.writes)
  {
    hide Parse, Classify;
    var r := socket.RecvFrom();
    if r.RecvError? {
      return Refused(RECV_MSG);
    } else if |r.bytes| < RE_HEADER_BYTES {
      return Refused(INTERNAL_ERROR);
    }
    var p := Parse(r);
    var v := Examine(rx, p);
    return Examined(p, v);
  }

  method CopyPacket(dataBuf: array<byte>, p: Packet)
    requires p.End() <= dataBuf.Length
    modifies dataBuf
    ensures dataBuf[..] == Write(old(dataBuf[..]), p)
  {
    CopyInto(dataBuf, p.offset, p.payload);
  }

  /** `getCompletePacketizedBufferTime`. */
  method GetCompletePacketizedBufferTime(dataBuf: array<byte>, socket: UdpSocket)
    returns (result: Result, rx: Rx)
    modifies dataBuf, socket
    ensures var r := Run(RX_START, old(socket.incoming), dataBuf.Length);
            && result == r.result && rx == r.rx
            && socket.incoming == r.rest
            && dataBuf[..] == WriteAll(old(dataBuf[..]), rx.writes)
  {
    hide Run, Next, Classify, Parse, TopOfLoop, WriteAll, Write;
    rx := RX_START;
    WriteNone(dataBuf[..]);
    while true
      invariant Run(rx, socket.incoming, dataBuf.Length) == Run(RX_START, old(socket.incoming), dataBuf.Length)
      invariant dataBuf[..] == WriteAll(old(dataBuf[..]), rx.writes)
      decreases |socket.incoming|
    {
      if socket.incoming == [] {
        RunEnd(rx, dataBuf.Length);
        result := Waiting;
        return;
      }
      RunStep(rx, socket.incoming, dataBuf.Length);
      NextFromTop(rx, socket.incoming[0], dataBuf.Length);
      ghost var r := socket.incoming[0];
      var read := ReadPacket(rx, socket);
      match read {
        case Refused(code) =>
          NextOnError(rx, r, dataBuf.Length);
          rx, result := TopOfLoop(rx), Failed(code);
          return;
        case Examined(p, verdict) =>
          NextOnPacket(rx, r, p, verdict, dataBuf.Length);
          if verdict.Fault? {
            rx, result := TopOfLoop(rx), Failed(DIVIDE_BY_ZERO);
            return;
          }
          var s := verdict.rx;
          if verdict.Skip? {
            rx := s;
            continue;
          }
          if p.offset + |p.payload| > dataBuf.Length {
            rx, result := s, Failed(BUF_TOO_SMALL);
            return;
          }
          CopyPacket(dataBuf, p);
          WriteNext(old(dataBuf[..]), rx.writes, p);
          rx := s.(totalBytesRead := s.totalBytesRead + |p.payload|, veryFirstRead := false,
                   prevTick := p.tick, pktCount := s.pktCount + 1, writes := s.writes + [p]);
          if rx.totalBytesRead >= p.length {
            result := Built(rx.totalBytesRead, p.tick, p.dataId);
            return;
          }
      }
    }
  }

  /** `getCompletePacketizedBuffer` with statistics: what the call adds to the
      caller's counters. Accepted packets are counted only with their event. */
  method GetCompletePacketizedBuffer(dataBuf: array<byte>, socket: UdpSocket, stats: PacketRecvStats)
    returns (result: Result, rx: Rx)
    modifies dataBuf, socket, stats
    ensures var r := Run(RX_START, old(socket.incoming), dataBuf.Length);
            && result == r.result && rx == r.rx
            && socket.incoming == r.rest
            && dataBuf[..] == WriteAll(old(dataBuf[..]), rx.writes)
    ensures stats.badSrcIdPackets == old(stats.badSrcIdPackets) + rx.badSrcIdPackets
    ensures stats.acceptedBytes == old(stats.acceptedBytes) + (if result.Built? then result.bytes else 0)
    ensures stats.acceptedPackets == old(stats.acceptedPackets) + (if result.Built? then rx.pktCount else 0)
  {
    hide Run, WriteAll;
    result, rx := GetCompletePacketizedBufferTime(dataBuf, socket);
    stats.badSrcIdPackets := stats.badSrcIdPackets + rx.badSrcIdPackets;
    if result.Built? {
      stats.acceptedBytes := stats.acceptedBytes + result.bytes;
      stats.acceptedPackets := stats.acceptedPackets + rx.pktCount;
    }
  }

  /** `realloc` to twice the length: the old bytes, then arbitrary ones. */
  method DoubleBuffer(buf: array<byte>) returns (bigger: array<byte>, ghost extra: seq<byte>)
    ensures fresh(bigger) && bigger.Length == 2 * buf.Length
    ensures bigger[..] == buf[..] + extra
  {
    bigger := new byte[2 * buf.Length];
    forall i | 0 <= i < buf.Length {
      bigger[i] := buf[i];
    }
    extra := bigger[buf.Length..];
  }

  /** The buffer a call starts with: the supplied one if a jumbo packet fits it. */
  method StartBuffer(dataBufAlloc: array?<byte>, suppliedLen: nat) returns (buf: array<byte>)
    requires dataBufAlloc != null ==> dataBufAlloc.Length == suppliedLen
    ensures buf.Length == InitialLength(dataBufAlloc == null, suppliedLen) > 0
    ensures if dataBufAlloc != null && suppliedLen >= MAX_EJFAT_MTU then buf == dataBufAlloc else fresh(buf)
  {
    if dataBufAlloc == null || suppliedLen < MAX_EJFAT_MTU {
      buf := new byte[InitialLength(dataBufAlloc == null, suppliedLen)];
    } else {
      buf := dataBufAlloc;
    }
  }

  /** Doubles a buffer without room for `end` bytes; what was stored survives. */
  method MakeRoom(buf: array<byte>, end: nat, ghost initial: seq<byte>, ghost ws: seq<Packet>)
    returns (room: array<byte>, ghost initial': seq<byte>)
    requires |initial| == buf.Length && buf[..] == WriteAll(initial, ws) && Fits(ws, buf.Length)
    ensures if end > buf.Length then fresh(room) && room.Length == 2 * buf.Length else room == buf
    ensures |initial'| == room.Length && room[..] == WriteAll(initial', ws) && Fits(ws, room.Length)
    ensures initial <= initial'
  {
    hide WriteAll, Fits;
    room, initial' := buf, initial;
    if end > buf.Length {
      ghost var extra;
      room, extra := DoubleBuffer(buf);
      GrowthKeepsBytes(initial, extra, ws);
      FitsMore(ws, buf.Length, 2 * buf.Length);
      initial' := initial + extra;
    }
  }

  method AddPacket(buf: array<byte>, p: Packet, ghost initial: seq<byte>, ghost ws: seq<Packet>)
    requires buf[..] == WriteAll(initial, ws) && Fits(ws, buf.Length) && p.End() <= buf.Length
    modifies buf
    ensures buf[..] == WriteAll(initial, ws + [p]) && Fits(ws + [p], buf.Length)
  {
    hide WriteAll, Fits;
    CopyPacket(buf, p);
    WriteNext(initial, ws, p);
    FitsNext(ws, p, buf.Length);
  }

  /** `getCompleteAllocatedBuffer`. On success the buffer in use and its length
      are passed back; on failure the pointer and length passed in are left alone.
      `released` says that the supplied memory was handed to `realloc` and so is
      no longer the caller's, also when the call fails. `initial` is what the bytes
      of the returned buffer were before anything was stored. */
  method GetCompleteAllocatedBuffer(dataBufAlloc: array?<byte>, suppliedLen: nat, socket: UdpSocket)
    returns (result: Result, dataBuf: array?<byte>, bufLen: nat, rx: Rx, released: bool, ghost initial: seq<byte>)
    requires dataBufAlloc != null ==> dataBufAlloc.Length == suppliedLen
    modifies dataBufAlloc, socket
    ensures var a := RunAlloc(RX_START, old(socket.incoming), InitialLength(dataBufAlloc == null, suppliedLen));
            && result == a.run.result && rx == a.run.rx
            && socket.incoming == a.run.rest
            && (result.Built? ==>
                && dataBuf != null && dataBuf.Length == bufLen == |initial| == a.cap
                && dataBuf[..] == WriteAll(initial, rx.writes))
            && (released <==>
                 dataBufAlloc != null && suppliedLen >= MAX_EJFAT_MTU && a.cap != suppliedLen)
            && (result.Built? ==>
                 (dataBuf == dataBufAlloc <==> dataBufAlloc != null && suppliedLen >= MAX_EJFAT_MTU && !released))
    ensures result.Built? && dataBufAlloc != null && suppliedLen >= MAX_EJFAT_MTU ==> old(dataBufAlloc[..]) <= initial
    ensures !result.Built? ==> dataBuf == dataBufAlloc && bufLen == suppliedLen
  {
    hide RunAlloc, NextAlloc, Classify, Parse, TopOfLoop, InitialLength, WriteAll, Write, Fits;
    ghost var start := InitialLength(dataBufAlloc == null, suppliedLen);
    ghost var all := RunAlloc(RX_START, socket.incoming, start);
    var used := dataBufAlloc != null && suppliedLen >= MAX_EJFAT_MTU;
    if used {
      InitialLengthSupplied(suppliedLen);
    }
    var buf := StartBuffer(dataBufAlloc, suppliedLen);
    dataBuf, bufLen, released, initial := dataBufAlloc, suppliedLen, false, buf[..];

    rx := RX_START;
    WriteNone(buf[..]);
    FitsNone(buf.Length);
    while true
      invariant start <= buf.Length == |initial| && start > 0
      invariant if used && buf.Length == suppliedLen then buf == dataBufAlloc else fresh(buf)
      invariant released <==> used && buf.Length != suppliedLen
      invariant RunAlloc(rx, socket.incoming, buf.Length) == all
      invariant Fits(rx.writes, buf.Length)
      invariant buf[..] == WriteAll(initial, rx.writes)
      invariant used ==> old(dataBufAlloc[..]) <= initial
      decreases |socket.incoming|
    {
      if socket.incoming == [] {
        RunAllocEnd(rx, buf.Length);
        result := Waiting;
        return;
      }
      RunAllocStep(rx, socket.incoming, buf.Length);
      ghost var r := socket.incoming[0];
      var read := ReadPacket(rx, socket);
      match read {
        case Refused(code) =>
          NextAllocOnError(rx, r, buf.Length);
          rx, result := TopOfLoop(rx), Failed(code);
          return;
        case Examined(p, verdict) =>
          NextAllocOnPacket(rx, r, p, verdict, buf.Length);
          if verdict.Fault? {
            rx, result := TopOfLoop(rx), Failed(DIVIDE_BY_ZERO);
            return;
          }
          var s := verdict.rx;
          if verdict.Skip? {
            rx := s;
            continue;
          }
          released := released || (used && p.offset + |p.payload| > buf.Length);
          buf, initial := MakeRoom(buf, p.offset + |p.payload|, initial, rx.writes);
          if p.offset + |p.payload| > buf.Length {
            rx, result := s, Failed(OVERRUN);
            return;
          }
          AddPacket(buf, p, initial, rx.writes);
          rx := s.(totalBytesRead := s.totalBytesRead + |p.payload|, veryFirstRead := false,
                   prevTick := p.tick, pktCount := s.pktCount + 1, writes := s.writes + [p]);
          if rx.totalBytesRead >= p.length {
            dataBuf, bufLen := buf, buf.Length;
            result := Built(rx.totalBytesRead, p.tick, p.dataId);
            return;
          }
      }
    }
  }
}
