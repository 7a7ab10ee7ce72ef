/** The copy-saving sender: after the first packet each header is written in
    place, over bytes of the caller's buffer that have already been sent. */
module FastPacketizer {
  import opened Headers
  import opened Packetizer

  /** `data` after the headers of packets 1 to `k` have been written into the
      bytes just before their own data. */
  function Scribbled(m: Meta, data: seq<byte>, payload: nat, offset: nat, k: nat): (r: seq<byte>)
    requires !m.direct && payload >= HEADER_BYTES && Boundary(k, payload) <= |data| && offset + |data| < 0x1_0000_0000
    ensures |r| == |data|
  {
    if k == 0 then data
    else
      var at := Boundary(k, payload);
      Splice(Scribbled(m, data, payload, offset, k - 1), at - HEADER_BYTES, Header(m, offset + at))
  }

  predicate Window(i: int, at: int) {
    at - 36 <= i < at
  }

  ghost predicate InWindow(i: int, payload: nat, k: nat) {
    exists j: nat :: 1 <= j <= k && Window(i, Boundary(j, payload))
  }

  /** Only the 36 bytes before an internal packet boundary change. */
  lemma {:induction false} ScribbledWindows(m: Meta, data: seq<byte>, payload: nat, offset: nat, k: nat)
    requires !m.direct && payload >= HEADER_BYTES && Boundary(k, payload) <= |data| && offset + |data| < 0x1_0000_0000
    ensures var r := Scribbled(m, data, payload, offset, k);
            && (forall i :: 0 <= i < |data| && r[i] != data[i] ==> InWindow(i, payload, k))
            && (forall i :: Boundary(k, payload) <= i < |data| ==> r[i] == data[i])
  {
    hide Header;
    if k > 0 {
      ScribbledWindows(m, data, payload, offset, k - 1);
      var before := Scribbled(m, data, payload, offset, k - 1);
      var r := Scribbled(m, data, payload, offset, k);
      forall i | 0 <= i < |data| && r[i] != data[i]
        ensures InWindow(i, payload, k)
      {
        if before[i] != data[i] {
          assert InWindow(i, payload, k - 1);
        } else {
          assert Window(i, Boundary(k, payload));
        }
      }
    }
  }

  /** Each window ends up holding its packet's headers: a header once written is
      not disturbed by later ones. */
  lemma {:induction false} ScribbledHeader(m: Meta, data: seq<byte>, payload: nat, offset: nat, k: nat, j: nat)
    requires !m.direct && payload >= HEADER_BYTES && Boundary(k, payload) <= |data| && offset + |data| < 0x1_0000_0000
    requires 1 <= j <= k
    ensures var at := Boundary(j, payload);
            && HEADER_BYTES <= at <= Boundary(k, payload)
            && Scribbled(m, data, payload, offset, k)[at - HEADER_BYTES..at] == Header(m, offset + at)
  {
    hide Header;
    var at := Boundary(j, payload);
    if j < k {
      ScribbledHeader(m, data, payload, offset, k - 1, j);
      var before := Scribbled(m, data, payload, offset, k - 1);
      var r := Scribbled(m, data, payload, offset, k);
      var n := Boundary(k - 1, payload);
      assert r[..n] == before[..n];
      SliceOfPrefix(r, before, n, at - HEADER_BYTES, at);
    }
  }

  lemma SliceOfPrefix(a: seq<byte>, b: seq<byte>, n: nat, lo: nat, hi: nat)
    requires lo <= hi <= n <= |a| && n <= |b| && a[..n] == b[..n]
    ensures a[lo..hi] == b[lo..hi]
  {
    assert a[lo..hi] == a[..n][lo..hi] && b[lo..hi] == b[..n][lo..hi];
  }

  lemma SameSlice(a: seq<byte>, b: seq<byte>, lo: nat, n: nat)
    requires lo + n <= |a| == |b| && a[lo..] == b[lo..]
    ensures a[lo..lo + n] == b[lo..lo + n]
    ensures a[lo + n..] == b[lo + n..]
  {
    assert a[lo..lo + n] == a[lo..][..n] && b[lo..lo + n] == b[lo..][..n];
    assert a[lo + n..] == a[lo..][n..] && b[lo + n..] == b[lo..][n..];
  }

  lemma ScribbledNone(m: Meta, data: seq<byte>, payload: nat, offset: nat)
    requires !m.direct && payload >= HEADER_BYTES && offset + |data| < 0x1_0000_0000
    ensures Boundary(0, payload) == 0 && Boundary(1, payload) == payload
    ensures Scribbled(m, data, payload, offset, 0) == data
  {
    hide Header, Splice;
  }

  lemma ScribbledNext(m: Meta, data: seq<byte>, payload: nat, offset: nat, k: nat, at: nat)
    requires !m.direct && payload >= HEADER_BYTES && offset + |data| < 0x1_0000_0000
    requires k > 0 && Boundary(k, payload) == at <= |data|
    ensures Boundary(k - 1, payload) == at - payload && Boundary(k + 1, payload) == at + payload
    ensures Scribbled(m, data, payload, offset, k) ==
            Splice(Scribbled(m, data, payload, offset, k - 1), at - HEADER_BYTES, Header(m, offset + at))
  {
    hide Header, Splice;
  }

  /** Writes a packet's headers just before its data and gives the datagram. */
  method WriteHeaderInPlace(dataBuffer: array<byte>, writeHeaderTo: nat, m: Meta, offset: u32, bytesToWrite: nat)
    returns (datagram: seq<byte>)
    requires !m.direct && m.reserved == 0
    requires writeHeaderTo + HEADER_BYTES + bytesToWrite <= dataBuffer.Length
    modifies dataBuffer
    ensures dataBuffer[..] == Splice(old(dataBuffer[..]), writeHeaderTo, Header(m, offset))
    ensures var data := writeHeaderTo + HEADER_BYTES;
            && dataBuffer[data..] == old(dataBuffer[data..])
            && datagram == Header(m, offset) + old(dataBuffer[data..data + bytesToWrite])
  {
    hide LbBytes, ReBytes, Splice;
    ghost var before := dataBuffer[..];
    var lb := LbHeader(m.version, m.protocol, m.entropy, m.tick);
    var re := ReHeader(m.version, 0, m.dataId, offset, m.fullLen, m.tick);
    LbBytesSize(lb);
    ReBytesFields(re);
    SetLbMetadata(dataBuffer, writeHeaderTo, lb);
    SetReMetadata(dataBuffer, writeHeaderTo + LB_HEADER_BYTES, re);
    SpliceTwice(before, writeHeaderTo, LbBytes(lb), ReBytes(re));
    var data := writeHeaderTo + HEADER_BYTES;
    datagram := dataBuffer[writeHeaderTo..data + bytesToWrite];
    SpliceParts(before, writeHeaderTo, Header(m, offset));
    HeaderAndData(dataBuffer[..], before, writeHeaderTo, data, bytesToWrite);
  }

  lemma HeaderAndData(now: seq<byte>, before: seq<byte>, at: nat, data: nat, n: nat)
    requires at <= data && data + n <= |now| == |before| && now[data..] == before[data..]
    ensures now[at..data + n] == now[at..data] + before[data..data + n]
  {
    assert now[data..data + n] == now[data..][..n] == before[data..][..n] == before[data..data + n];
  }

  /** The first round of the loop, with its retries: the packet is put together
      in local storage, so the caller's buffer is not touched. */
  method SendFirst(m: Meta, dataBuffer: array<byte>, maxUdpPayload: nat, offset: u32, firstBuffer: bool, path: UdpPath)
    returns (err: SendResult, payload: nat)
    requires !m.direct && 0 < maxUdpPayload && Min(maxUdpPayload, dataBuffer.Length) <= PACKET_STORAGE
    requires firstBuffer ==> path.limit > HEADER_BYTES
    modifies path
    ensures payload == FinalPayload(maxUdpPayload, dataBuffer.Length, path.limit - HEADER_BYTES, firstBuffer)
    ensures var n := Min(dataBuffer.Length, payload);
            && err == (if HEADER_BYTES + n > path.limit then MsgTooLong else if old(path.credit) == 0
              then OtherError else Accepted)
            && (err == MsgTooLong ==> !firstBuffer)
            && path.sent == old(path.sent) + (if err == Accepted then [Header(m, offset) + dataBuffer[..n]] else [])
            && path.credit == old(path.credit) - (if err == Accepted then 1 else 0)
  {
    hide Header, Shrunk, Cut;
    ghost var final := FinalPayload(maxUdpPayload, dataBuffer.Length, path.limit - HEADER_BYTES, firstBuffer);
    var packetStorage := new byte[PACKET_STORAGE + HEADER_BYTES];
    payload := maxUdpPayload;
    while true
      invariant 0 < payload <= maxUdpPayload
      invariant FinalPayload(payload, dataBuffer.Length, path.limit - HEADER_BYTES, firstBuffer) == final
      invariant path.sent == old(path.sent) && path.credit == old(path.credit)
      decreases payload
    {
      var bytesToWrite := Min(dataBuffer.Length, payload);
      var datagram := BuildPacket(packetStorage, m, offset, dataBuffer[..bytesToWrite]);
      if firstBuffer {
        ShrunkStep(payload, dataBuffer.Length, path.limit - HEADER_BYTES);
      }
      err := path.Send(datagram);
      if err == MsgTooLong && firstBuffer {
        payload := Cut(payload);
        continue;
      }
      return;
    }
  }

  /** The buffer after the headers of packets 1 to `k` have been written into it. */
  ghost predicate Holds(now: seq<byte>, m: Meta, data: seq<byte>, payload: nat, offset: nat, k: nat) {
    && !m.direct && payload >= HEADER_BYTES && Boundary(k, payload) <= |data| && offset + |data| < 0x1_0000_0000
    && now == Scribbled(m, data, payload, offset, k)
  }

  /** Before packet `k` is sent: where its data starts, and that the data from
      there on is still the caller's. */
  ghost predicate Before(now: seq<byte>, m: Meta, data: seq<byte>, payload: nat, offset: nat, k: nat, at: nat) {
    && k > 0 && at == Boundary(k, payload) && at <= |data|
    && Holds(now, m, data, payload, offset, k - 1)
  }

  lemma StartBefore(m: Meta, data: seq<byte>, payload: nat, offset: nat)
    requires !m.direct && HEADER_BYTES <= payload < |data| && offset + |data| < 0x1_0000_0000
    ensures Before(data, m, data, payload, offset, 1, payload)
  {
    hide Scribbled, Boundary;
    ScribbledNone(m, data, payload, offset);
  }

  lemma WriteMovesOn(now: seq<byte>, m: Meta, data: seq<byte>, payload: nat, offset: nat, k: nat, at: nat)
    requires Before(now, m, data, payload, offset, k, at)
    ensures HEADER_BYTES <= at && |now| == |data| && now[at..] == data[at..]
    ensures var now' := Splice(now, at - HEADER_BYTES, Header(m, offset + at));
            && Holds(now', m, data, payload, offset, k)
            && (at + payload <= |data| ==> Before(now', m, data, payload, offset, k + 1, at + payload))
  {
    hide Header, Splice, Scribbled, Boundary;
    ScribbledNext(m, data, payload, offset, k, at);
    ScribbledWindows(m, data, payload, offset, k - 1);
    BoundaryAtLeast(k, payload);
  }

  lemma BoundaryAtLeast(k: nat, payload: nat)
    requires k > 0
    ensures Boundary(k, payload) >= payload
  {
  }

  /** The later rounds: the header of each packet goes in front of its data, over
      bytes already sent. `ps` is what the whole call is to send. */
  method SendRest(m: Meta, dataBuffer: array<byte>, payload: nat, offset: nat, path: UdpPath,
                  ghost ps: seq<seq<byte>>, ghost before: seq<seq<byte>>)
    returns (err: SendResult, packetsSent: nat)
    requires !m.direct && m.reserved == 0
    requires HEADER_BYTES <= payload < dataBuffer.Length && offset + dataBuffer.Length < 0x1_0000_0000
    requires HEADER_BYTES + payload <= path.limit
    requires Pending(ps, 1, m, dataBuffer[..], payload, payload, offset, true)
    requires |ps| > 0 && path.sent == before + ps[..1]
    modifies path, dataBuffer
    ensures err == if |ps| - 1 <= old(path.credit) then Accepted else OtherError
    ensures packetsSent == Min(old(path.credit) + 1, |ps|) > 0
    ensures path.sent == before + ps[..packetsSent]
    ensures Holds(dataBuffer[..], m, old(dataBuffer[..]), payload, offset, Min(packetsSent, |ps| - 1))
  {
    hide Pending, Header, Holds, Before, Splice;
    ghost var data := dataBuffer[..];
    var dataStart: nat, dataLen: nat := payload, dataBuffer.Length - payload;
    var writeHeaderTo := payload - HEADER_BYTES;
    packetsSent := 1;
    StartBefore(m, data, payload, offset);

    while dataLen > 0
      invariant dataStart + dataLen == |data| && writeHeaderTo == dataStart - HEADER_BYTES
      invariant packetsSent > 0
      invariant if dataLen > 0 then Before(dataBuffer[..], m, data, payload, offset, packetsSent, dataStart)
                else Holds(dataBuffer[..], m, data, payload, offset, packetsSent - 1)
      invariant path.credit == old(path.credit) + 1 - packetsSent
      invariant packetsSent <= |ps| && path.sent == before + ps[..packetsSent]
      invariant Pending(ps, packetsSent, m, data, dataStart, payload, offset, dataLen > 0)
    {
      var bytesToWrite := Min(dataLen, payload);
      NextPacket(ps, packetsSent, m, data, dataStart, payload, offset);
      WriteMovesOn(dataBuffer[..], m, data, payload, offset, packetsSent, dataStart);
      SameSlice(dataBuffer[..], data, dataStart, bytesToWrite);
      var datagram := WriteHeaderInPlace(dataBuffer, writeHeaderTo, m, offset + dataStart, bytesToWrite);
      assert datagram == ps[packetsSent];
      err := path.Send(datagram);
      if err != Accepted {
        return;
      }
      packetsSent := packetsSent + 1;
      dataLen := dataLen - bytesToWrite;
      writeHeaderTo := writeHeaderTo + bytesToWrite;
      dataStart := dataStart + bytesToWrite;
    }
    PendingNone(ps, packetsSent, m, data, dataStart, payload, offset);
    err := Accepted;
  }

  /** `sendPacketizedBufferFastNew`. The payload finally used must hold a header
      unless one packet is enough: otherwise the second packet's header starts
      before the buffer does, which ends as `OutOfBounds`. */
  method SendPacketizedBufferFastNew(m: Meta, dataBuffer: array<byte>, maxUdpPayload: nat, offset: u32,
                                     firstBuffer: bool, path: UdpPath)
    returns (outcome: Outcome, nextOffset: u32, packetsSent: nat)
    requires !m.direct && m.reserved == 0
    requires 0 < maxUdpPayload && offset + dataBuffer.Length < 0x1_0000_0000
    requires firstBuffer ==> path.limit > HEADER_BYTES
    modifies path, dataBuffer
    ensures var data := old(dataBuffer[..]);
            var payload := FinalPayload(maxUdpPayload, |data|, path.limit - HEADER_BYTES, firstBuffer);
            var ps := Packets(m, data, payload, offset);
            if Min(maxUdpPayload, |data|) > 65536 then
              outcome == OutOfBounds && packetsSent == 0 && path.sent == old(path.sent) && dataBuffer[..] == data
            else if HEADER_BYTES + Min(payload, |data|) > path.limit then
              && !firstBuffer && outcome == SendError && packetsSent == 0
              && path.sent == old(path.sent) && dataBuffer[..] == data
            else if HEADER_BYTES > payload && |data| > payload && old(path.credit) > 0 then
              && outcome == OutOfBounds && packetsSent == 1
              && path.sent == old(path.sent) + ps[..1] && dataBuffer[..] == data
            else
              && packetsSent == Min(old(path.credit), |ps|)
              && path.sent == old(path.sent) + ps[..packetsSent]
              && outcome == (if |ps| <= old(path.credit) then Sent else SendError)
              && (packetsSent == 0 || |data| <= payload ==> dataBuffer[..] == data)
              && (packetsSent > 0 && |data| > payload ==>
                   Holds(dataBuffer[..], m, data, payload, offset, Min(packetsSent, |ps| - 1)))
    ensures nextOffset == if outcome == Sent then offset + dataBuffer.Length else offset
  {
    hide Packets, Shrunk, Header, Pending, Holds;
    ghost var data := dataBuffer[..];
    ghost var before := path.sent;
    packetsSent, nextOffset := 0, offset;
    if Min(maxUdpPayload, dataBuffer.Length) > PACKET_STORAGE {
      outcome := OutOfBounds;
      return;
    }
    var err, payload := SendFirst(m, dataBuffer, maxUdpPayload, offset, firstBuffer, path);
    ghost var ps := Packets(m, data, payload, offset);
    PendingAll(m, data, payload, offset);
    NextPacket(ps, 0, m, data, 0, payload, offset);
    if err != Accepted {
      outcome := SendError;
      return;
    }
    assert path.sent == before + ps[..1];
    packetsSent := 1;
    if dataBuffer.Length > payload {
      if payload < HEADER_BYTES {
        outcome := OutOfBounds;
        return;
      }
      err, packetsSent := SendRest(m, dataBuffer, payload, offset, path, ps, before);
    } else {
      PendingNone(ps, 1, m, data, Min(|data|, payload), payload, offset);
    }
    outcome := if err == Accepted then Sent else SendError;
    nextOffset := if outcome == Sent then offset + dataBuffer.Length else offset;
  }
}
