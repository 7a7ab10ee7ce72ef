/** The wire format: network byte order, and the load balancer (LB) and
    reassembly (RE) headers written by the packetizers and parsed by the
    receivers. Bytes are in network order (Appendix B of RFC 791). */
module Headers {

  type byte = b: int | 0 <= b < 0x100
  type u16 = x: int | 0 <= x < 0x1_0000
  type u32 = x: int | 0 <= x < 0x1_0000_0000
  type u64 = x: int | 0 <= x < 0x1_0000_0000_0000_0000

  const LB_HEADER_BYTES: nat := 16
  const RE_HEADER_BYTES: nat := 20
  const HEADER_BYTES: nat := 36
  const RE_HEADER_BYTES_OLD: nat := 18
  const HEADER_BYTES_OLD: nat := 34

  // ----- Integers as bytes -----

  function Be16(x: u16): seq<byte> {
    [x / 0x100, x % 0x100]
  }

  function Be32(x: u32): seq<byte> {
    Be16(x / 0x1_0000) + Be16(x % 0x1_0000)
  }

  function Be64(x: u64): seq<byte> {
    Be32(x / 0x1_0000_0000) + Be32(x % 0x1_0000_0000)
  }

  function FromBe16(s: seq<byte>): u16
    requires |s| == 2
  {
    (s[0] as int) * 0x100 + s[1]
  }

  function FromBe32(s: seq<byte>): u32
    requires |s| == 4
  {
    (FromBe16(s[..2]) as int) * 0x1_0000 + FromBe16(s[2..])
  }

  function FromBe64(s: seq<byte>): u64
    requires |s| == 8
  {
    (FromBe32(s[..4]) as int) * 0x1_0000_0000 + FromBe32(s[4..])
  }

  lemma Be16RoundTrip(x: u16)
    ensures FromBe16(Be16(x)) == x
  {
  }

  lemma Be32RoundTrip(x: u32)
    ensures FromBe32(Be32(x)) == x
  {
    assert Be32(x)[..2] == Be16(x / 0x1_0000);
    assert Be32(x)[2..] == Be16(x % 0x1_0000);
  }

  lemma Be64RoundTrip(x: u64)
    ensures FromBe64(Be64(x)) == x
  {
    assert Be64(x)[..4] == Be32(x / 0x1_0000_0000);
    assert Be64(x)[4..] == Be32(x % 0x1_0000_0000);
    Be32RoundTrip(x / 0x1_0000_0000);
    Be32RoundTrip(x % 0x1_0000_0000);
  }

  lemma FromBe32RoundTrip(s: seq<byte>)
    requires |s| == 4
    ensures Be32(FromBe32(s)) == s
  {
    var hi, lo := FromBe16(s[..2]), FromBe16(s[2..]);
    assert FromBe32(s) / 0x1_0000 == hi && FromBe32(s) % 0x1_0000 == lo;
    assert Be16(hi) == s[..2] && Be16(lo) == s[2..];
  }

  lemma FromBe64RoundTrip(s: seq<byte>)
    requires |s| == 8
    ensures Be64(FromBe64(s)) == s
  {
    var hi, lo := FromBe32(s[..4]), FromBe32(s[4..]);
    assert FromBe64(s) / 0x1_0000_0000 == hi && FromBe64(s) % 0x1_0000_0000 == lo;
    FromBe32RoundTrip(s[..4]);
    FromBe32RoundTrip(s[4..]);
  }

  // ----- Byte swapping on a little-endian host -----

  /** What a little-endian store of an integer leaves in memory. */
  function Le16(x: u16): seq<byte> {
    [x % 0x100, x / 0x100]
  }

  function Le32(x: u32): seq<byte> {
    Le16(x % 0x1_0000) + Le16(x / 0x1_0000)
  }

  function Le64(x: u64): seq<byte> {
    Le32(x % 0x1_0000_0000) + Le32(x / 0x1_0000_0000)
  }

  function Bswap16(x: u16): u16 {
    assert x * 0x100 % 0x1_0000 == x % 0x100 * 0x100;
    x / 0x100 + x * 0x100 % 0x1_0000
  }

  function Bswap32(x: u32): u32 {
    (Bswap16(x % 0x1_0000) as int) * 0x1_0000 + Bswap16(x / 0x1_0000)
  }

  /** The `htonll` macro and `bswap_64` (the two definitions agree). */
  function Bswap64(x: u64): u64 {
    (Bswap32(x % 0x1_0000_0000) as int) * 0x1_0000_0000 + Bswap32(x / 0x1_0000_0000)
  }

  lemma Bswap16Store(x: u16)
    ensures Le16(Bswap16(x)) == Be16(x)
  {
    assert x * 0x100 % 0x1_0000 == x % 0x100 * 0x100;
  }

  lemma Le32Halves(hi: u16, lo: u16, x: u32)
    requires x == (hi as int) * 0x1_0000 + lo
    ensures Le32(x) == Le16(lo) + Le16(hi)
  {
    assert x / 0x1_0000 == hi && x % 0x1_0000 == lo;
  }

  lemma Bswap32Store(x: u32)
    ensures Le32(Bswap32(x)) == Be32(x)
  {
    hide Le32, Le16, Be16, Bswap16;
    var high, low := x / 0x1_0000, x % 0x1_0000;
    Le32Halves(Bswap16(low), Bswap16(high), Bswap32(x));
    Bswap16Store(low);
    Bswap16Store(high);
  }

  lemma Le64Halves(hi: u32, lo: u32, x: u64)
    requires x == (hi as int) * 0x1_0000_0000 + lo
    ensures Le64(x) == Le32(lo) + Le32(hi)
  {
    assert x / 0x1_0000_0000 == hi && x % 0x1_0000_0000 == lo;
  }

  /** Storing the swapped integer on a little-endian host leaves the bytes in
      network order, which is what every header setter relies on. */
  lemma Bswap64Store(x: u64)
    ensures Le64(Bswap64(x)) == Be64(x)
  {
    hide Le64, Le32, Be32, Bswap32;
    var high, low := x / 0x1_0000_0000, x % 0x1_0000_0000;
    Le64Halves(Bswap32(low), Bswap32(high), Bswap64(x));
    Bswap32Store(low);
    Bswap32Store(high);
  }

  // ----- Reassembly header, version 2 (20 bytes) -----

  datatype ReHeader = ReHeader(version: int, reserved: int, dataId: u16, offset: u32, length: u32, tick: u64)

  function ReBytes(h: ReHeader): seq<byte> {
    [h.version * 16 % 0x100, h.reserved % 0x100]
    + Be16(h.dataId) + Be32(h.offset) + Be32(h.length) + Be64(h.tick)
  }

  function ParseRe(b: seq<byte>): ReHeader
    requires |b| >= RE_HEADER_BYTES
  {
    ReHeader(b[0] / 16 % 16, b[1],
             FromBe16(b[2..4]), FromBe32(b[4..8]), FromBe32(b[8..12]), FromBe64(b[12..20]))
  }

  lemma ReBytesFields(h: ReHeader)
    ensures var b := ReBytes(h);
            && |b| == RE_HEADER_BYTES
            && b[2..4] == Be16(h.dataId) && b[4..8] == Be32(h.offset)
            && b[8..12] == Be32(h.length) && b[12..20] == Be64(h.tick)
  {
  }

  lemma SliceOfFront(a: seq<byte>, b: seq<byte>, i: nat, j: nat)
    requires i <= j <= |a|
    ensures (a + b)[i..j] == a[i..j]
  {
  }

  lemma ReBytesStart(h: ReHeader)
    ensures ReBytes(h)[0] == h.version * 16 % 0x100 && ReBytes(h)[1] == h.reserved % 0x100
  {
  }

  lemma LowByte(q: int, r: nat)
    requires r < 0x100
    ensures (0x100 * q + r) % 0x100 == r
  {
  }

  lemma VersionNibble(version: int)
    ensures version * 16 % 0x100 == version % 16 * 16
    ensures version * 16 % 0x100 / 16 % 16 == version % 16
  {
    var q, r := version / 16, version % 16;
    assert version * 16 == 0x100 * q + 16 * r;
    LowByte(q, 16 * r);
  }

  /** Parsing what the setter wrote gives the header back; only the low four
      bits of the version and the low eight of the reserved field survive. */
  lemma ParseReOfReBytes(h: ReHeader, payload: seq<byte>)
    ensures ParseRe(ReBytes(h) + payload) == h.(version := h.version % 16, reserved := h.reserved % 0x100)
  {
    hide Be16, Be32, Be64, FromBe16, FromBe32, FromBe64, ReBytes;
    var front := ReBytes(h);
    ReBytesFields(h);
    ReBytesStart(h);
    SliceOfFront(front, payload, 2, 4);
    SliceOfFront(front, payload, 4, 8);
    SliceOfFront(front, payload, 8, 12);
    SliceOfFront(front, payload, 12, 20);
    Be16RoundTrip(h.dataId);
    Be32RoundTrip(h.offset);
    Be32RoundTrip(h.length);
    Be64RoundTrip(h.tick);
    VersionNibble(h.version);
  }

  /** Conversely the header bytes are determined by the parsed fields exactly
      when the four unused bits of the first byte are zero. */
  lemma ReBytesOfParseRe(b: seq<byte>)
    requires |b| >= RE_HEADER_BYTES
    ensures ReBytes(ParseRe(b)) == b[..RE_HEADER_BYTES] <==> b[0] % 16 == 0
  {
    hide Be32, Be64, FromBe32, FromBe64;
    var h := ParseRe(b);
    ReBytesFields(h);
    FromBe32RoundTrip(b[4..8]);
    FromBe32RoundTrip(b[8..12]);
    FromBe64RoundTrip(b[12..20]);
    assert Be16(h.dataId) == b[2..4];
    assert b[..20] == [b[0], b[1]] + b[2..4] + b[4..8] + b[8..12] + b[12..20];
    VersionNibble(h.version);
    if ReBytes(h) == b[..20] {
      assert ReBytes(h)[0] == b[0];
    }
  }

  // ----- Reassembly header, version 1 (18 bytes) -----

  datatype ReHeaderOld = ReHeaderOld(version: int, first: bool, last: bool, dataId: u16, sequence: u32, tick: u64)

  function Bit(b: bool): byte {
    if b then 1 else 0
  }

  function ReBytesOld(h: ReHeaderOld): seq<byte> {
    [h.version * 16 % 0x100, Bit(h.first) * 2 + Bit(h.last)]
    + Be16(h.dataId) + Be32(h.sequence) + (Be64(h.tick) + [0, 0])
  }

  function ParseReOld(b: seq<byte>): ReHeaderOld
    requires |b| >= RE_HEADER_BYTES_OLD
  {
    ReHeaderOld(b[0] / 16 % 16, b[1] / 2 % 2 == 1, b[1] % 2 == 1,
                FromBe16(b[2..4]), FromBe32(b[4..8]), FromBe64(b[8..16]))
  }

  lemma ReBytesOldFields(h: ReHeaderOld)
    ensures var b := ReBytesOld(h);
            && |b| == RE_HEADER_BYTES_OLD
            && b[2..4] == Be16(h.dataId) && b[4..8] == Be32(h.sequence) && b[8..16] == Be64(h.tick)
  {
  }

  lemma ReBytesOldStart(h: ReHeaderOld)
    ensures ReBytesOld(h)[0] == h.version * 16 % 0x100
    ensures ReBytesOld(h)[1] / 2 % 2 == Bit(h.first) && ReBytesOld(h)[1] % 2 == Bit(h.last)
  {
  }

  lemma ParseReOfReBytesOld(h: ReHeaderOld, payload: seq<byte>)
    ensures ParseReOld(ReBytesOld(h) + payload) == h.(version := h.version % 16)
  {
    hide Be16, Be32, Be64, FromBe16, FromBe32, FromBe64, ReBytesOld;
    var front := ReBytesOld(h);
    ReBytesOldFields(h);
    ReBytesOldStart(h);
    SliceOfFront(front, payload, 2, 4);
    SliceOfFront(front, payload, 4, 8);
    SliceOfFront(front, payload, 8, 16);
    Be16RoundTrip(h.dataId);
    Be32RoundTrip(h.sequence);
    Be64RoundTrip(h.tick);
    VersionNibble(h.version);
  }

  // ----- Load balancer header (16 bytes) -----

  datatype LbHeader = LbHeader(version: int, protocol: int, entropy: int, tick: u64)

  function LbBytes(h: LbHeader): seq<byte> {
    [76, 66, h.version % 0x100, h.protocol % 0x100, 0, 0]
    + Be16(h.entropy % 0x1_0000) + Be64(h.tick)
  }

  lemma LbBytesSize(h: LbHeader)
    ensures |LbBytes(h)| == LB_HEADER_BYTES && LbBytes(h)[6..8] == Be16(h.entropy % 0x1_0000)
  {
  }

  /** Where each field lies: "LB", version, protocol, two zero bytes, entropy, tick. */
  lemma LbBytesFields(h: LbHeader)
    ensures var b := LbBytes(h);
            && b[..2] == [76, 66] && b[2] == h.version % 0x100 && b[3] == h.protocol % 0x100
            && b[4..6] == [0, 0] && b[6..8] == Be16(h.entropy % 0x1_0000) && b[8..16] == Be64(h.tick)
  {
  }

  datatype LbParse = Parsed(header: LbHeader) | NotLb

  /** The parser throws unless the packet starts with "LB". */
  function ParseLb(b: seq<byte>): LbParse
    requires |b| >= LB_HEADER_BYTES
  {
    if b[0] != 76 || b[1] != 66 then NotLb
    else Parsed(LbHeader(b[2], b[3], FromBe16(b[6..8]), FromBe64(b[8..16])))
  }

  lemma ParseLbOfLbBytes(h: LbHeader, rest: seq<byte>)
    ensures ParseLb(LbBytes(h) + rest) ==
            Parsed(LbHeader(h.version % 0x100, h.protocol % 0x100, h.entropy % 0x1_0000, h.tick))
  {
    var b := LbBytes(h) + rest;
    assert b[6..8] == Be16(h.entropy % 0x1_0000) && b[8..16] == Be64(h.tick);
    Be64RoundTrip(h.tick);
  }

  ghost predicate IsLbHeader(b: seq<byte>) {
    exists h: LbHeader :: LbBytes(h) == b
  }

  /** What the parser lets through is what a setter can have written, but for the
      two bytes it does not look at. */
  lemma ParsedIffLbHeader(b: seq<byte>)
    requires |b| >= LB_HEADER_BYTES
    ensures IsLbHeader(b[..LB_HEADER_BYTES]) <==> ParseLb(b).Parsed? && b[4] == 0 && b[5] == 0
  {
    hide FromBe64, Be64;
    var front := b[..LB_HEADER_BYTES];
    if ParseLb(b).Parsed? && b[4] == 0 && b[5] == 0 {
      var h := ParseLb(b).header;
      FromBe64RoundTrip(b[8..16]);
      assert Be16(FromBe16(b[6..8])) == b[6..8];
      assert LbBytes(h) == [76, 66, b[2], b[3], 0, 0] + b[6..8] + b[8..16] == front;
    }
    if IsLbHeader(front) {
      var h :| LbBytes(h) == front;
      LbBytesFields(h);
      assert front[..2] == [b[0], b[1]] && front[4..6] == [b[4], b[5]];
    }
  }

  // ----- In-place header setters -----

  /** `b` with the bytes of `s` written at position `at`. */
  function Splice(b: seq<byte>, at: nat, s: seq<byte>): (r: seq<byte>)
    requires at + |s| <= |b|
    ensures |r| == |b|
    ensures forall i :: 0 <= i < |b| ==> r[i] == if at <= i < at + |s| then s[i - at] else b[i]
  {
    b[..at] + s + b[at + |s|..]
  }

  lemma SpliceParts(b: seq<byte>, at: nat, s: seq<byte>)
    requires at + |s| <= |b|
    ensures var r := Splice(b, at, s);
            r[..at] == b[..at] && r[at..at + |s|] == s && r[at + |s|..] == b[at + |s|..]
  {
  }

  lemma SpliceTwice(b: seq<byte>, at: nat, s: seq<byte>, t: seq<byte>)
    requires at + |s| + |t| <= |b|
    ensures Splice(Splice(b, at, s), at + |s|, t) == Splice(b, at, s + t)
  {
  }

  /** `memcpy` into a byte buffer. */
  method CopyInto(buffer: array<byte>, at: nat, s: seq<byte>)
    requires at + |s| <= buffer.Length
    modifies buffer
    ensures buffer[..] == Splice(old(buffer[..]), at, s)
  {
    forall i | 0 <= i < |s| {
      buffer[at + i] := s[i];
    }
  }

  /** The next field of a header whose fields so far are `done`, written from `at`. */
  method PutField(buffer: array<byte>, pos: nat, s: seq<byte>, ghost before: seq<byte>, ghost at: nat,
        ghost done: seq<byte>)
    requires pos == at + |done| && pos + |s| <= buffer.Length == |before|
    requires buffer[..] == Splice(before, at, done)
    modifies buffer
    ensures buffer[..] == Splice(before, at, done + s)
  {
    SpliceTwice(before, at, done, s);
    CopyInto(buffer, pos, s);
  }

  method SetLbMetadata(buffer: array<byte>, at: nat, h: LbHeader)
    requires at + LB_HEADER_BYTES <= buffer.Length
    modifies buffer
    ensures buffer[..] == Splice(old(buffer[..]), at, LbBytes(h))
  {
    ghost var before := buffer[..];
    var start := [76, 66, h.version % 0x100, h.protocol % 0x100, 0, 0];
    var entropy, tick := Be16(h.entropy % 0x1_0000), Be64(h.tick);
    CopyInto(buffer, at, start);
    PutField(buffer, at + 6, entropy, before, at, start);
    PutField(buffer, at + 8, tick, before, at, start + entropy);
  }

  method SetReMetadata(buffer: array<byte>, at: nat, h: ReHeader)
    requires at + RE_HEADER_BYTES <= buffer.Length
    modifies buffer
    ensures buffer[..] == Splice(old(buffer[..]), at, ReBytes(h))
  {
    ghost var before := buffer[..];
    var start := [h.version * 16 % 0x100, h.reserved % 0x100];
    var id, offset, length, tick := Be16(h.dataId), Be32(h.offset), Be32(h.length), Be64(h.tick);
    CopyInto(buffer, at, start);
    PutField(buffer, at + 2, id, before, at, start);
    PutField(buffer, at + 4, offset, before, at, start + id);
    PutField(buffer, at + 8, length, before, at, start + id + offset);
    PutField(buffer, at + 12, tick, before, at, start + id + offset + length);
  }

  method SetReMetadataOld(buffer: array<byte>, at: nat, h: ReHeaderOld)
    requires at + RE_HEADER_BYTES_OLD <= buffer.Length
    modifies buffer
    ensures buffer[..] == Splice(old(buffer[..]), at, ReBytesOld(h))
  {
    ghost var before := buffer[..];
    var start := [h.version * 16 % 0x100, Bit(h.first) * 2 + Bit(h.last)];
    var id, sequence, tick: seq<byte> := Be16(h.dataId), Be32(h.sequence), Be64(h.tick) + [0, 0];
    CopyInto(buffer, at, start);
    PutField(buffer, at + 2, id, before, at, start);
    PutField(buffer, at + 4, sequence, before, at, start + id);
    var front := start + id + sequence;
    PutField(buffer, at + 8, tick, before, at, front);
    assert front + tick == ReBytesOld(h);
  }
}
