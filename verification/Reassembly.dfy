/** The reassembly state machine shared by `getCompletePacketizedBufferTime`
    and `getCompleteAllocatedBuffer`: one step per `recvfrom`, and the runs built
    from those steps.

    The machine's control never looks at the bytes already stored, so a state
    lists the packets stored so far (`writes`); the buffer is what those
    writes leave behind (`WriteAll`). */
module Reassembly {
  import opened Headers

  /** One `recvfrom`: an error, or the bytes of a datagram. */
  datatype Recv = RecvError | Datagram(bytes: seq<byte>)

  /** A datagram after its reassembly header has been parsed. */
  datatype Packet = Packet(dataId: nat, tick: nat, offset: nat, length: nat, payload: seq<byte>) {
    function End(): nat {
      offset + |payload|
    }

    predicate Covers(i: int) {
      offset <= i < End()
    }

    predicate SameEvent(that: Packet) {
      dataId == that.dataId && tick == that.tick
    }
  }

  predicate IsPacket(r: Recv) {
    r.Datagram? && |r.bytes| >= RE_HEADER_BYTES
  }

  function Parse(r: Recv): Packet
    requires IsPacket(r)
  {
    var h := ParseRe(r.bytes);
    Packet(h.dataId, h.tick, h.offset, h.length, r.bytes[RE_HEADER_BYTES..])
  }

  /** Why a call fails. `DIVIDE_BY_ZERO` is the fault of guessing the number of
      packets from an empty first payload; `OVERRUN` is a store beyond the end
      of the allocating routine's buffer. Neither is a return code. */
  datatype Code = RECV_MSG | BUF_TOO_SMALL | INTERNAL_ERROR | DIVIDE_BY_ZERO | OVERRUN

  /** `Waiting` means the input ran out while the call was still reading. */
  datatype Result = Built(bytes: nat, tick: nat, dataId: nat) | Failed(code: Code) | Waiting

  /** The local variables of a call, at the top of its loop. */
  datatype Rx = Rx(
    prevTick: nat, srcId: nat, dumpTick: bool, veryFirstRead: bool,
    totalBytesRead: nat, pktCount: nat, badSrcIdPackets: nat, writes: seq<Packet>)

  const UINT_MAX: nat := 0xFFFF_FFFF

  const RX_START := Rx(UINT_MAX, 0, false, true, 0, 0, 0, [])

  datatype Step = More(rx: Rx) | Done(result: Result, rx: Rx)

  /** What the tests on source and tick decide about a packet: fault, skip it,
      or go on to store it with the given variables. */
  datatype Verdict = Fault | Skip(rx: Rx) | Store(rx: Rx)

  function Classify(s: Rx, p: Packet): Verdict {
    if s.veryFirstRead && p.payload == [] then Fault
    else if !s.veryFirstRead && p.dataId != s.srcId then
      Skip(s.(badSrcIdPackets := s.badSrcIdPackets + 1))
    else
      var s1 := if s.veryFirstRead then s.(srcId := p.dataId) else s;
      if p.tick != s1.prevTick then
        if p.offset != 0 then
          Skip(s1.(veryFirstRead := true, dumpTick := true, prevTick := p.tick))
        else if !s1.veryFirstRead then
          Store(s1.(pktCount := 0, totalBytesRead := 0, srcId := p.dataId, dumpTick := false))
        else
          Store(s1.(dumpTick := false))
      else if s1.dumpTick then
        Skip(s1.(veryFirstRead := true))
      else
        Store(s1)
  }

  /** Storing a packet that has room, and the test for completeness. */
  function Commit(s: Rx, p: Packet): Step {
    var s1 := s.(totalBytesRead := s.totalBytesRead + |p.payload|, veryFirstRead := false,
                 prevTick := p.tick, pktCount := s.pktCount + 1, writes := s.writes + [p]);
    if s1.totalBytesRead >= p.length
    then Done(Built(s1.totalBytesRead, p.tick, p.dataId), s1)
    else More(s1)
  }

  function TopOfLoop(rx: Rx): Rx {
    if rx.veryFirstRead then rx.(totalBytesRead := 0, pktCount := 0) else rx
  }

  function OnPacket(s: Rx, p: Packet, bufLen: nat): Step {
    match Classify(s, p)
    case Fault => Done(Failed(DIVIDE_BY_ZERO), s)
    case Skip(s1) => More(s1)
    case Store(s1) => if p.End() > bufLen then Done(Failed(BUF_TOO_SMALL), s1) else Commit(s1, p)
  }

  /** One turn of the fixed-buffer loop. */
  function Next(rx: Rx, r: Recv, bufLen: nat): Step {
    var s := TopOfLoop(rx);
    if r.RecvError? then Done(Failed(RECV_MSG), s)
    else if |r.bytes| < RE_HEADER_BYTES then Done(Failed(INTERNAL_ERROR), s)
    else OnPacket(s, Parse(r), bufLen)
  }

  lemma NextFromTop(rx: Rx, r: Recv, bufLen: nat)
    ensures Next(TopOfLoop(rx), r, bufLen) == Next(rx, r, bufLen)
    ensures TopOfLoop(TopOfLoop(rx)) == TopOfLoop(rx) && TopOfLoop(rx).writes == rx.writes
  {
  }

  lemma NextOnPacket(rx: Rx, r: Recv, p: Packet, v: Verdict, bufLen: nat)
    requires IsPacket(r) && p == Parse(r) && v == Classify(TopOfLoop(rx), p)
    ensures Next(rx, r, bufLen) ==
            match v
            case Fault => Done(Failed(DIVIDE_BY_ZERO), TopOfLoop(rx))
            case Skip(s) => More(s)
            case Store(s) => if p.End() > bufLen then Done(Failed(BUF_TOO_SMALL), s) else Commit(s, p)
  {
  }

  lemma ClassifyKeepsWrites(rx: Rx, p: Packet)
    ensures var v := Classify(TopOfLoop(rx), p);
            TopOfLoop(rx).writes == rx.writes && (!v.Fault? ==> v.rx.writes == rx.writes)
  {
  }

  lemma NextOnError(rx: Rx, r: Recv, bufLen: nat)
    requires !IsPacket(r)
    ensures Next(rx, r, bufLen) ==
            Done(Failed(if r.RecvError? then RECV_MSG else INTERNAL_ERROR), TopOfLoop(rx))
  {
  }

  datatype RunResult = RunResult(result: Result, rx: Rx, rest: seq<Recv>)

  /** The loop on the given input: its result, last state and unread input. */
  function Run(rx: Rx, stream: seq<Recv>, bufLen: nat): (r: RunResult)
    ensures |r.rest| <= |stream| && r.rest == stream[|stream| - |r.rest|..]
    ensures stream != [] && !r.result.Waiting? ==> |r.rest| < |stream|
    ensures stream == [] ==> r.result.Waiting?
    decreases |stream|
  {
    if stream == [] then RunResult(Waiting, rx, [])
    else match Next(rx, stream[0], bufLen)
      case More(s) => Run(s, stream[1..], bufLen)
      case Done(result, s) => RunResult(result, s, stream[1..])
  }

  lemma RunEnd(rx: Rx, bufLen: nat)
    ensures Run(rx, [], bufLen) == RunResult(Waiting, rx, [])
  {
  }

  lemma RunStep(rx: Rx, stream: seq<Recv>, bufLen: nat)
    requires stream != []
    ensures match Next(rx, stream[0], bufLen)
            case More(s) => Run(rx, stream, bufLen) == Run(s, stream[1..], bufLen)
            case Done(result, s) => Run(rx, stream, bufLen) == RunResult(result, s, stream[1..])
  {
  }

  // ----- The output buffer -----

  function Write(buf: seq<byte>, p: Packet): (r: seq<byte>)
    ensures |r| == |buf|
  {
    if p.End() <= |buf| then Splice(buf, p.offset, p.payload) else buf
  }

  function WriteAll(buf: seq<byte>, ws: seq<Packet>): (r: seq<byte>)
    ensures |r| == |buf|
  {
    if ws == [] then buf else Write(WriteAll(buf, ws[..|ws| - 1]), ws[|ws| - 1])
  }

  lemma WriteNone(buf: seq<byte>)
    ensures WriteAll(buf, []) == buf
  {
  }

  lemma WriteNext(buf: seq<byte>, ws: seq<Packet>, p: Packet)
    ensures WriteAll(buf, ws + [p]) == Write(WriteAll(buf, ws), p)
  {
    assert (ws + [p])[..|ws|] == ws;
  }

  // ----- Repeated calls -----

  /** What a call that succeeded hands to its caller. */
  datatype Delivery = Delivery(dataId: nat, tick: nat, bytes: nat, buffer: seq<byte>)

  /** A caller that keeps calling with the same buffer, whatever error a call
      returns, until the input runs out; `rx` is the state of the call in
      progress. A division fault ends the process. */
  function Session(rx: Rx, buf: seq<byte>, stream: seq<Recv>): seq<Delivery>
    decreases |stream|, 1
  {
    SessionFrom(Run(rx, stream, |buf|), buf, |stream|)
  }

  function Delivered(r: RunResult, buf: seq<byte>): seq<Delivery> {
    if r.result.Built?
    then [Delivery(r.result.dataId, r.result.tick, r.result.bytes, WriteAll(buf, r.rx.writes))]
    else []
  }

  /** The session from the return of the call in progress. */
  function SessionFrom(r: RunResult, buf: seq<byte>, size: nat): seq<Delivery>
    requires r.result.Waiting? || |r.rest| < size
    decreases size, 0
  {
    if r.result.Waiting? || r.result == Failed(DIVIDE_BY_ZERO) then []
    else Delivered(r, buf) + Session(RX_START, WriteAll(buf, r.rx.writes), r.rest)
  }

  lemma SessionMore(rx: Rx, s: Rx, buf: seq<byte>, stream: seq<Recv>)
    requires stream != [] && Next(rx, stream[0], |buf|) == More(s)
    ensures Session(rx, buf, stream) == Session(s, buf, stream[1..])
  {
    var r := Run(s, stream[1..], |buf|);
    assert r == Run(rx, stream, |buf|);
  }

  lemma SessionDone(rx: Rx, result: Result, s: Rx, buf: seq<byte>, stream: seq<Recv>)
    requires stream != [] && Next(rx, stream[0], |buf|) == Done(result, s)
    requires !result.Waiting? && result != Failed(DIVIDE_BY_ZERO)
    ensures Session(rx, buf, stream) ==
            Delivered(RunResult(result, s, stream[1..]), buf) + Session(RX_START, WriteAll(buf, s.writes), stream[1..])
  {
    assert Run(rx, stream, |buf|) == RunResult(result, s, stream[1..]);
  }
}
