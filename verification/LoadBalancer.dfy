/** The load balancer: strips its header and spreads packets over the
    receiver's ports by entropy; and the receiver's matching port range. */
module LoadBalancer {
  import opened Headers
  import opened Packetizer

  datatype Forwarded = Forwarded(port: nat, datagram: seq<byte>)

  function Pow2(n: nat): nat {
    if n == 0 then 1 else 2 * Pow2(n - 1)
  }

  /** One turn of the forwarding loop of the emulated load balancer, for a base
      port and a number of entropy bits. The port number is 16 bits wide. */
  function Forward(datagram: seq<byte>, basePort: nat, entropyBits: nat): Forwarded
    requires |datagram| >= LB_HEADER_BYTES && entropyBits < 16
  {
    var entropy := FromBe16(datagram[6..8]);
    PowPositive(entropyBits);
    Forwarded((basePort + entropy % Pow2(entropyBits)) % 0x1_0000, datagram[LB_HEADER_BYTES..])
  }

  lemma PowPositive(n: nat)
    ensures Pow2(n) > 0
  {
  }

  function ForwardAll(ds: seq<seq<byte>>, basePort: nat, entropyBits: nat): seq<Forwarded>
    requires entropyBits < 16 && forall d <- ds :: |d| >= LB_HEADER_BYTES
  {
    if ds == [] then []
    else [Forward(ds[0], basePort, entropyBits)] + ForwardAll(ds[1..], basePort, entropyBits)
  }

  function Datagrams(fs: seq<Forwarded>): seq<seq<byte>> {
    if fs == [] then [] else [fs[0].datagram] + Datagrams(fs[1..])
  }

  ghost predicate AllTo(port: nat, fs: seq<Forwarded>) {
    forall f <- fs :: f.port == port
  }

  /** The port all packets of a call go to. */
  function EntropyPort(m: Meta, basePort: nat, entropyBits: nat): nat {
    PowPositive(entropyBits);
    (basePort + m.entropy % 0x1_0000 % Pow2(entropyBits)) % 0x1_0000
  }

  lemma ForwardPacket(m: Meta, offset: u32, data: seq<byte>, basePort: nat, entropyBits: nat)
    requires !m.direct && entropyBits < 16
    ensures var f := Forward(Header(m, offset) + data, basePort, entropyBits);
            && f.datagram == Header(m.(direct := true), offset) + data
            && f.port == EntropyPort(m, basePort, entropyBits)
  {
    hide LbBytes, ReBytes, Be16;
    PowPositive(entropyBits);
    var lb := LbBytes(LbHeader(m.version, m.protocol, m.entropy, m.tick));
    LbBytesSize(LbHeader(m.version, m.protocol, m.entropy, m.tick));
    var d := Header(m, offset) + data;
    assert d[6..8] == lb[6..8];
    assert d[LB_HEADER_BYTES..] == RePart(m, offset) + data;
    Be16RoundTrip(m.entropy % 0x1_0000);
  }

  /** Stripping the packets sent through a load balancer gives exactly the
      packets of a direct sender, all of them on the port of the entropy. */
  lemma {:induction false} StrippedIsDirect(m: Meta, data: seq<byte>, payload: nat, offset: nat, basePort: nat,
        entropyBits: nat)
    requires !m.direct && payload > 0 && offset + |data| < 0x1_0000_0000 && entropyBits < 16
    ensures var ds := Packets(m, data, payload, offset);
            && (forall d <- ds :: |d| >= LB_HEADER_BYTES)
            && var fs := ForwardAll(ds, basePort, entropyBits);
            && Datagrams(fs) == Packets(m.(direct := true), data, payload, offset)
            && AllTo(EntropyPort(m, basePort, entropyBits), fs)
    decreases |data|
  {
    hide Header, Forward, EntropyPort, ForwardAll, Datagrams, Packets;
    var direct := m.(direct := true);
    var n := Min(|data|, payload);
    var first, more := Header(m, offset) + data[..n], n < |data|;
    ForwardPacket(m, offset, data[..n], basePort, entropyBits);
    PacketsStep(m, data, payload, offset);
    PacketsStep(direct, data, payload, offset);
    var rest: seq<seq<byte>> := [];
    if more {
      rest := Packets(m, data[n..], payload, offset + n);
      StrippedIsDirect(m, data[n..], payload, offset + n, basePort, entropyBits);
    } else {
      ForwardCons([], [], basePort, entropyBits);
    }
    ForwardCons(first, rest, basePort, entropyBits);
  }

  lemma ForwardCons(d: seq<byte>, ds: seq<seq<byte>>, basePort: nat, entropyBits: nat)
    requires entropyBits < 16 && forall e <- ds :: |e| >= LB_HEADER_BYTES
    ensures ForwardAll([], basePort, entropyBits) == [] && Datagrams([]) == []
    ensures |d| >= LB_HEADER_BYTES ==>
              var f := Forward(d, basePort, entropyBits);
              var fs := ForwardAll(ds, basePort, entropyBits);
              && ForwardAll([d] + ds, basePort, entropyBits) == [f] + fs
              && Datagrams([f] + fs) == [f.datagram] + Datagrams(fs)
  {
    hide Forward;
    assert ([d] + ds)[1..] == ds;
    if |d| >= LB_HEADER_BYTES {
      var f, fs := Forward(d, basePort, entropyBits), ForwardAll(ds, basePort, entropyBits);
      assert ([f] + fs)[1..] == fs;
    }
  }

  // ----- getPortRange -----

  /** `getPortRange`: the least exponent whose power of two is at least the
      number of sources, between 0 and 14. */
  method GetPortRange(sourceCount: int) returns (range: nat)
    ensures range <= 14
    ensures if sourceCount <= 16384 then Pow2(range) >= sourceCount else range == 14
    ensures range > 0 ==> Pow2(range - 1) < sourceCount
  {
    assert Pow2(14) == 16384 by {
      assert Pow2(4) == 16 && Pow2(8) == 256 && Pow2(12) == 4096;
    }
    if sourceCount < 2 {
      return 0;
    } else if sourceCount > 16384 {
      assert Pow2(13) == 8192;
      return 14;
    }
    var maxCount, iteration: nat := 2, 1;
    while sourceCount > maxCount
      invariant iteration >= 1 && maxCount == Pow2(iteration) && Pow2(iteration - 1) < sourceCount
      invariant iteration <= 14
      decreases sourceCount - maxCount
    {
      iteration := iteration + 1;
      maxCount := maxCount * 2;
    }
    return iteration;
  }

  lemma {:induction false} PowMonotone(a: nat, b: nat)
    requires a <= b
    ensures Pow2(a) <= Pow2(b)
    decreases b
  {
    if a < b {
      PowMonotone(a, b - 1);
    }
  }

  /** The port of a source whose entropy is its id, among `m` ports. */
  function PortOf(id: nat, basePort: nat, m: nat): nat
    requires m > 0
  {
    (basePort + id % m) % 0x1_0000
  }

  lemma PortWithin(id: nat, basePort: nat, m: nat)
    requires id < m && basePort + id < 0x1_0000
    ensures PortOf(id, basePort, m) == basePort + id
  {
  }

  lemma PortWraps(basePort: nat, m: nat)
    requires m > 0 && basePort < 0x1_0000
    ensures PortOf(m, basePort, m) == basePort
  {
    assert m % m == 0;
  }

  ghost predicate SeparatePorts(n: nat, basePort: nat, m: nat)
    requires m > 0
  {
    forall id: nat :: id < n ==> PortOf(id, basePort, m) == basePort + id
  }

  lemma SeparateIffEnough(n: nat, basePort: nat, m: nat)
    requires n > 0 && basePort + n <= 0x1_0000 && m > 0
    ensures SeparatePorts(n, basePort, m) <==> m >= n
  {
    hide PortOf;
    if m >= n {
      forall id: nat | id < n
        ensures PortOf(id, basePort, m) == basePort + id
      {
        PortWithin(id, basePort, m);
      }
    } else {
      PortWraps(basePort, m);
    }
  }

  /** The port the balancer picks by a packet's entropy is the port of that id. */
  lemma EntropyIsPort(m: Meta, basePort: nat, entropyBits: nat)
    requires 0 <= m.entropy < 0x1_0000
    ensures Pow2(entropyBits) > 0
    ensures EntropyPort(m, basePort, entropyBits) == PortOf(m.entropy, basePort, Pow2(entropyBits))
  {
    PowPositive(entropyBits);
  }

  /** Every packet of a source with entropy `id`, as the balancer forwards it, is
      the direct packet, on port base + id, when the entropy bits cover `id`. */
  lemma ReachesOwnPort(m: Meta, data: seq<byte>, payload: nat, offset: nat, basePort: nat, entropyBits: nat, id: nat)
    requires !m.direct && payload > 0 && offset + |data| < 0x1_0000_0000 && entropyBits < 16
    requires m.entropy == id < Pow2(entropyBits) && basePort + id < 0x1_0000
    ensures var ds := Packets(m, data, payload, offset);
            && (forall d <- ds :: |d| >= LB_HEADER_BYTES)
            && var fs := ForwardAll(ds, basePort, entropyBits);
            && Datagrams(fs) == Packets(m.(direct := true), data, payload, offset)
            && forall f <- fs :: f.port == basePort + id
  {
    hide Packets, ForwardAll, Datagrams, EntropyPort, PortOf;
    StrippedIsDirect(m, data, payload, offset, basePort, entropyBits);
    EntropyIsPort(m, basePort, entropyBits);
    PortWithin(id, basePort, Pow2(entropyBits));
  }

  /** The port range is wide enough and not wider than needed: sources 0 to
      n-1, each using its id as entropy, all arrive on the port base + id that
      the receiver opened for it, if and only if the entropy bits are at least
      those of the port range for n. */
  lemma PortsAreSeparate(n: nat, range: nat, bits: nat, basePort: nat)
    requires 1 <= n <= 16384 && basePort + n <= 0x1_0000 && bits < 16
    requires range <= 14 && Pow2(range) >= n && (range > 0 ==> Pow2(range - 1) < n)
    ensures Pow2(bits) > 0 && (SeparatePorts(n, basePort, Pow2(bits)) <==> bits >= range)
  {
    PowPositive(bits);
    SeparateIffEnough(n, basePort, Pow2(bits));
    if bits >= range {
      PowMonotone(range, bits);
    } else {
      PowMonotone(bits, range - 1);
    }
  }
}
