/** Sending a large event in consecutive pieces, the returned offset fed back to
    the next call, and reading it back in stages. */
module StagedSending {
  import opened Headers
  import opened Packetizer
  import opened Reassembly
  import opened ReassemblySafety
  import opened StagedReader
  import opened EndToEnd

  function Joined(pieces: seq<Piece>): seq<byte> {
    if pieces == [] then [] else pieces[0].data + Joined(pieces[1..])
  }

  ghost predicate Pieces(pieces: seq<Piece>) {
    forall p <- pieces :: p.data != [] && p.payload > 0
  }

  /** All packets of a sequence of calls, each starting at the offset the one
      before returned. */
  function SentInStages(m: Meta, pieces: seq<Piece>, offset: nat): seq<seq<byte>>
    requires Pieces(pieces) && offset + |Joined(pieces)| < 0x1_0000_0000
  {
    if pieces == [] then []
    else
      assert forall p <- pieces[1..] :: p in pieces;
      Packets(m, pieces[0].data, pieces[0].payload, offset)
      + SentInStages(m, pieces[1..], offset + |pieces[0].data|)
  }

  ghost predicate Belong(m: Meta, limit: nat, ps: seq<Packet>) {
    forall p <- ps :: KeyOf(p) == (m.dataId as nat, m.tick as nat) && |p.payload| <= limit
  }

  lemma {:induction false} PartsBelong(m: Meta, event: seq<byte>, payload: nat, offset: nat, end: nat)
    requires payload > 0 && offset <= end <= |event| && m.fullLen == |event|
    ensures Belong(m, payload, Parts(m, event, payload, offset, end))
    decreases end - offset
  {
    hide Belong;
    var n := Min(end - offset, payload);
    var p := Packet(m.dataId, m.tick, offset, |event|, event[offset..offset + n]);
    BelongOne(m, payload, p);
    if offset + n < end {
      PartsBelong(m, event, payload, offset + n, end);
      BelongJoin(m, payload, [p], Parts(m, event, payload, offset + n, end));
    } else {
      assert Parts(m, event, payload, offset, end) == [p];
    }
  }

  lemma BelongOne(m: Meta, limit: nat, p: Packet)
    requires KeyOf(p) == (m.dataId as nat, m.tick as nat) && |p.payload| <= limit
    ensures Belong(m, limit, [p])
  {
  }

  lemma BelongJoin(m: Meta, limit: nat, ps: seq<Packet>, qs: seq<Packet>)
    requires Belong(m, limit, ps) && Belong(m, limit, qs)
    ensures Belong(m, limit, ps + qs)
  {
  }

  lemma BelongMore(m: Meta, limit: nat, more: nat, ps: seq<Packet>)
    requires Belong(m, limit, ps) && limit <= more
    ensures Belong(m, more, ps)
  {
  }

  /** The packets of all pieces together tile the rest of the event without gap
      or overlap, wherever the pieces are cut and whatever their payload limits. */
  lemma {:induction false} StagesTile(m: Meta, event: seq<byte>, pieces: seq<Piece>, offset: nat,
        limit: nat) returns (ps: seq<Packet>)
    requires m.direct && m.fullLen == |event| && offset <= |event|
    requires pieces != [] && Pieces(pieces) && event[offset..] == Joined(pieces)
    requires forall p <- pieces :: p.payload <= limit
    ensures ParsesTo(SentInStages(m, pieces, offset), ps)
    ensures Tiles(ps, event, offset, |event|) && Belong(m, limit, ps)
    decreases |pieces|
  {
    hide Packets, Parse, Parts, Tiles, Belong, ParsesTo;
    var piece := pieces[0];
    var rest := pieces[1..];
    assert piece in pieces && forall p <- rest :: p in pieces;
    var mid := offset + |piece.data|;
    assert event[offset..][..|piece.data|] == piece.data && event[offset..][|piece.data|..] == Joined(rest);
    assert event[offset..mid] == piece.data && event[mid..] == Joined(rest);
    PacketsParse(m, event, piece.payload, offset, mid);
    PartsTile(m, event, piece.payload, offset, mid);
    PartsBelong(m, event, piece.payload, offset, mid);
    var first := Parts(m, event, piece.payload, offset, mid);
    BelongMore(m, piece.payload, limit, first);
    var ds := Packets(m, piece.data, piece.payload, offset);
    if rest == [] {
      ps := first;
      assert SentInStages(m, pieces, offset) == ds + [] == ds;
    } else {
      var more := StagesTile(m, event, rest, mid, limit);
      ps := first + more;
      BelongJoin(m, limit, first, more);
      ParsesToJoin(ds, SentInStages(m, rest, mid), first, more);
      TilesJoin(first, more, event, offset, mid, |event|);
    }
  }

  lemma {:induction false} TilesAreInSequence(m: Meta, event: seq<byte>, ds: seq<seq<byte>>, ps: seq<Packet>,
        offset: nat)
    requires ParsesTo(ds, ps) && Tiles(ps, event, offset, |event|) && Belong(m, 9000, ps)
    ensures InSequence(event, m.dataId, m.tick, offset, AsRecv(ds))
    decreases |ps|
  {
    hide Parse;
    assert AsRecv(ds)[0] == Datagram(ds[0]) && AsRecv(ds)[1..] == AsRecv(ds[1..]);
    assert ps[0] in ps;
    if |ps| > 1 {
      assert ps[1].offset == ps[0].End() && ps[1] in ps;
      TilesTail(ps, event, offset, |event|);
      assert forall p <- ps[1..] :: p in ps;
      TilesAreInSequence(m, event, ds[1..], ps[1..], ps[0].End());
    }
  }

  lemma TilesTail(ps: seq<Packet>, event: seq<byte>, offset: nat, end: nat)
    requires Tiles(ps, event, offset, end) && |ps| > 1
    ensures Tiles(ps[1..], event, ps[0].End(), end)
  {
    assert forall i :: 0 <= i < |ps[1..]| ==> ps[1..][i] == ps[i + 1];
  }

  /** Staged sending and staged reading are inverse: however the sender cuts the
      event into pieces and the pieces into packets of at most 9000 data bytes,
      and whatever buffers of at least 9000 bytes the reader supplies, the chunks
      read call by call make up the event. */
  lemma StagedRoundTrip(m: Meta, pieces: seq<Piece>, caps: seq<nat>, srcIn: nat, tickIn: nat)
    requires m.direct && pieces != [] && Pieces(pieces) && |Joined(pieces)| == m.fullLen
    requires forall p <- pieces :: p.payload <= 9000
    requires |caps| >= |SentInStages(m, pieces, 0)| && forall c <- caps :: c >= 9000
    ensures var all := ReadAll(Start(true, srcIn, tickIn, 0), AsRecv(SentInStages(m, pieces, 0)), caps);
            all.complete && Flatten(all.chunks) == Joined(pieces)
  {
    hide Tiles, ParsesTo, Belong, InSequence, SentInStages, ReadAll;
    var event := Joined(pieces);
    assert pieces[0] in pieces && event != [];
    assert event[0..] == event;
    var ps := StagesTile(m, event, pieces, 0, 9000);
    var ds := SentInStages(m, pieces, 0);
    TilesAreInSequence(m, event, ds, ps, 0);
    StagesMakeUpEvent(event, m.dataId, m.tick, AsRecv(ds), caps, srcIn, tickIn);
  }
}
