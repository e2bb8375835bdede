/** UDP over IPv4 over Ethernet: the frame that is built, and the dispatcher that reads one. */
module Udp {
  import opened Wrappers
  import opened Bytes
  import opened Checksum

  const ETH_HDR := 14
  const IP4_HDR := 20
  const UDP_HDR := 8
  const ARP_BYTES := 28
  const ETHERTYPE_IP := 0x0800
  const ETHERTYPE_ARP := 0x0806
  const IP4_PROTO_UDP := 17
  /** The longest payload an IPv4 datagram of 65535 bytes has room for. */
  const LONGEST: nat := 65507

  function Rd16(s: seq<byte>, i: nat): (v: nat)
    requires i + 2 <= |s|
    ensures v <= 0xFFFF
  {
    Word(s, i)
  }

  function Rd32(s: seq<byte>, i: nat): (v: nat)
    requires i + 4 <= |s|
    ensures v < U32
  {
    0x1_0000 * Rd16(s, i) + Rd16(s, i + 2)
  }

  function Be32(v: nat): (s: seq<byte>)
    ensures |s| == 4
  {
    Be16(v / 0x1_0000 % 0x1_0000) + Be16(v % 0x1_0000)
  }

  lemma Be32Bytes(v: nat)
    requires v < U32
    ensures Be32(v) == [v / 0x100_0000, v / 0x1_0000 % 256, v / 256 % 256, v % 256]
  {
    var high, low := v / 0x1_0000, v % 0x1_0000;
    assert high < 0x1_0000;
    assert v / 0x100_0000 == high / 256 by { DivDiv(v, 0x1_0000); }
    assert v / 256 % 256 == low / 256 && v % 256 == low % 256 by { SplitLow(v); }
  }

  lemma DivDiv(v: nat, k: nat)
    requires k == 0x1_0000
    ensures v / 0x100_0000 == v / k / 256
  {}

  lemma SplitLow(v: nat)
    ensures v / 256 % 256 == v % 0x1_0000 / 256 && v % 256 == v % 0x1_0000 % 256
  {
    var q, low := v / 0x1_0000, v % 0x1_0000;
    var a, b := low / 256, low % 256;
    assert v == 256 * (256 * q + a) + b;
    assert v / 256 == 256 * q + a && v % 256 == b;
  }

  // ---- the frame ----

  /** A sender and a receiver, by address and port. */
  datatype Route = Route(src: nat, dst: nat, srcPort: nat, dstPort: nat) {
    predicate Valid() { src < U32 && dst < U32 && srcPort <= 0xFFFF && dstPort <= 0xFFFF }
  }

  function EthHeader(to: nat, from: nat): (s: seq<byte>)
    ensures |s| == ETH_HDR
  {
    Le(to, 6) + Le(from, 6) + Be16(ETHERTYPE_IP)
  }

  /** The IPv4 header of section 3.1 of RFC 791, checksum still zero. */
  function IpBare(r: Route, plen: nat): (s: seq<byte>)
    ensures |s| == IP4_HDR
  {
    [0x45, 0] + Be16(IP4_HDR + UDP_HDR + plen) + [0, 0, 0, 0, 64, IP4_PROTO_UDP, 0, 0] + Be32(r.src) + Be32(r.dst)
  }

  function IpHeader(r: Route, plen: nat): (s: seq<byte>)
    ensures |s| == IP4_HDR
  {
    Patch16(IpBare(r, plen), 10, Complement(WordSum(IpBare(r, plen))))
  }

  /** The datagram of RFC 768, checksum still zero. */
  function UdpBare(r: Route, payload: seq<byte>): (s: seq<byte>)
    ensures |s| == UDP_HDR + |payload|
  {
    Be16(r.srcPort) + Be16(r.dstPort) + Be16(UDP_HDR + |payload|) + [0, 0] + payload
  }

  /** The pseudo-header's words. */
  function Seed(r: Route, plen: nat): nat {
    r.src / 0x1_0000 + r.src % 0x1_0000 + r.dst / 0x1_0000 + r.dst % 0x1_0000 + IP4_PROTO_UDP + UDP_HDR + plen
  }

  function Datagram(r: Route, payload: seq<byte>): (s: seq<byte>)
    ensures |s| == UDP_HDR + |payload|
  {
    var bare := UdpBare(r, payload);
    Patch16(bare, 6, Stored(Complement(Seed(r, |payload|) + WordSum(bare))))
  }

  function Frame(to: nat, from: nat, r: Route, payload: seq<byte>): (s: seq<byte>)
    ensures |s| == ETH_HDR + IP4_HDR + UDP_HDR + |payload|
  {
    EthHeader(to, from) + IpHeader(r, |payload|) + Datagram(r, payload)
  }

  /** The pseudo-header of RFC 768: the two addresses, a zero, the protocol, and the datagram's length. */
  function PseudoHeader(src: nat, dst: nat, length: nat): (s: seq<byte>)
    requires src < U32 && dst < U32
    ensures |s| == 12
  {
    AddressBytes(src) + AddressBytes(dst) + [0, 17, length / 256 % 256, length % 256]
  }

  /** An address, high byte first. */
  function AddressBytes(v: nat): (s: seq<byte>)
    requires v < U32
    ensures |s| == 4
  {
    [v / 0x100_0000, v / 0x1_0000 % 256, v / 256 % 256, v % 256]
  }

  /** Both checksums of every frame verify: the header's over its twenty bytes, the datagram's over the
      pseudo-header and itself. */
  lemma FrameVerifies(to: nat, from: nat, r: Route, payload: seq<byte>)
    requires r.Valid() && |payload| <= LONGEST
    ensures var f := Frame(to, from, r, payload);
            Verifies(f[14..34], 0) && Verifies(PseudoHeader(r.src, r.dst, 8 + |payload|) + f[34..], 0)
  {
    hide WordSum, Complement, Seed, Le, Be16, Be32, Stored, PseudoHeader, Patch16, Verifies;
    var f, ph := Frame(to, from, r, payload), PseudoHeader(r.src, r.dst, 8 + |payload|);
    assert f[14..34] == IpHeader(r, |payload|);
    assert f[34..] == Datagram(r, payload);
    BareFieldsZero(r, payload);
    ComputedVerifies(IpBare(r, |payload|), 0, 10);
    ComputedVerifies(UdpBare(r, payload), Seed(r, |payload|), 6);
    SeedIsPseudoHeader(r, |payload|);
    VerifiesAfter(ph, f[34..], Seed(r, |payload|));
  }

  lemma BareFieldsZero(r: Route, payload: seq<byte>)
    ensures Word(IpBare(r, |payload|), 10) == 0 && Word(UdpBare(r, payload), 6) == 0
  {
    hide Be16, Be32;
  }

  /** A prefix of even length can be summed into the seed. */
  lemma VerifiesAfter(ph: seq<byte>, d: seq<byte>, seed: nat)
    requires |ph| % 2 == 0 && WordSum(ph) == seed && Verifies(d, seed)
    ensures Verifies(ph + d, 0)
  {
    hide WordSum, Complement;
    SumSplit(ph + d, |ph|);
    assert (ph + d)[..|ph|] == ph && (ph + d)[|ph|..] == d;
  }

  /** The seed is the sum of the pseudo-header's words. */
  lemma SeedIsPseudoHeader(r: Route, plen: nat)
    requires r.Valid() && plen <= LONGEST
    ensures WordSum(PseudoHeader(r.src, r.dst, 8 + plen)) == Seed(r, plen)
  {
    hide WordSum, AddressBytes;
    var p, a, b := PseudoHeader(r.src, r.dst, 8 + plen), AddressBytes(r.src), AddressBytes(r.dst);
    var n := 8 + plen;
    var c: seq<byte> := [0, 17, n / 256 % 256, n % 256];
    SumSplit(p, 4);
    SumSplit(p[4..], 4);
    assert p[..4] == a && p[4..][..4] == b && p[4..][4..] == c;
    AddressSum(r.src);
    AddressSum(r.dst);
    FourSum(0, 17, n / 256 % 256, n % 256);
  }

  lemma AddressSum(v: nat)
    requires v < U32
    ensures WordSum(AddressBytes(v)) == v / 0x1_0000 + v % 0x1_0000
  {
    hide WordSum;
    AddressWords(v);
    FourSum(v / 0x100_0000, v / 0x1_0000 % 256, v / 256 % 256, v % 256);
  }

  lemma FourSum(a: byte, b: byte, c: byte, d: byte)
    ensures WordSum([a, b, c, d]) == 256 * (a as int) + b + 256 * (c as int) + d
  {
    hide WordSum;
    SumLaws([], a, b);
    SumLaws([a, b], c, d);
    assert [] + [a, b] == [a, b] && [a, b] + [c, d] == [a, b, c, d];
  }

  lemma AddressWords(v: nat)
    requires v < U32
    ensures 256 * (v / 0x100_0000) + v / 0x1_0000 % 256 == v / 0x1_0000
    ensures 256 * (v / 256 % 256) + v % 256 == v % 0x1_0000
  {
    SplitLow(v);
    DivDiv(v, 0x1_0000);
  }

  /** The frame, byte by byte: addresses low byte first on the wire's Ethernet, everything else high byte
      first; no options, no fragments, sixty-four hops. */
  lemma FrameBytes(to: nat, from: nat, r: Route, payload: seq<byte>, i: nat)
    requires r.Valid() && |payload| <= LONGEST
    ensures var f := Frame(to, from, r, payload);
            && (i < 6 ==> f[i] == to / Pow256(i) % 256 && f[6 + i] == from / Pow256(i) % 256)
            && f[12..16] == [0x08, 0x00, 0x45, 0x00]
            && f[16] == (28 + |payload|) / 256 && f[17] == (28 + |payload|) % 256
            && f[18..24] == [0, 0, 0, 0, 64, 17]
            && f[26..34] == [r.src / 0x100_0000, r.src / 0x1_0000 % 256, r.src / 256 % 256, r.src % 256,
                             r.dst / 0x100_0000, r.dst / 0x1_0000 % 256, r.dst / 256 % 256, r.dst % 256]
            && f[34..40] == [r.srcPort / 256, r.srcPort % 256, r.dstPort / 256, r.dstPort % 256,
                             (8 + |payload|) / 256, (8 + |payload|) % 256]
            && f[42..] == payload
  {
    EthBytes(to, from, i);
    IpBytes(r, |payload|);
    UdpBytes(r, payload);
    hide EthHeader, IpHeader, Datagram, Pow256;
    var f, e, h, d := Frame(to, from, r, payload), EthHeader(to, from), IpHeader(r, |payload|), Datagram(r, payload);
    assert f[..14] == e && f[14..34] == h && f[34..] == d;
    assert f[12..14] == e[12..14] && f[14..16] == h[0..2] && f[12..16] == f[12..14] + f[14..16];
    assert f[16] == h[2] && f[17] == h[3] && f[18..24] == h[4..10] && f[26..34] == h[12..20];
    assert f[34..40] == d[0..6] && f[42..] == d[8..];
    if i < 6 { assert f[i] == e[i] && f[6 + i] == e[6 + i]; }
  }

  lemma EthBytes(to: nat, from: nat, i: nat)
    ensures var e := EthHeader(to, from);
            (i < 6 ==> e[i] == to / Pow256(i) % 256 && e[6 + i] == from / Pow256(i) % 256) && e[12..14] == [0x08, 0x00]
  {
    hide Le, Pow256;
    if i < 6 {
      LeAt(to, 6, i);
      LeAt(from, 6, i);
    }
  }

  lemma IpBytes(r: Route, plen: nat)
    requires r.Valid() && plen <= LONGEST
    ensures var h := IpHeader(r, plen);
            && h[0..2] == [0x45, 0x00] && h[2] == (28 + plen) / 256 && h[3] == (28 + plen) % 256
            && h[4..10] == [0, 0, 0, 0, 64, 17]
            && h[12..20] == [r.src / 0x100_0000, r.src / 0x1_0000 % 256, r.src / 256 % 256, r.src % 256,
                             r.dst / 0x100_0000, r.dst / 0x1_0000 % 256, r.dst / 256 % 256, r.dst % 256]
  {
    hide WordSum, Complement, Be32;
    var bare, h := IpBare(r, plen), IpHeader(r, plen);
    Be32Bytes(r.src);
    Be32Bytes(r.dst);
    assert h[..10] == bare[..10] && h[12..] == bare[12..];
    assert bare[12..] == Be32(r.src) + Be32(r.dst);
  }

  lemma UdpBytes(r: Route, payload: seq<byte>)
    requires r.Valid() && |payload| <= LONGEST
    ensures var d := Datagram(r, payload);
            && d[0..6] == [r.srcPort / 256, r.srcPort % 256, r.dstPort / 256, r.dstPort % 256,
                           (8 + |payload|) / 256, (8 + |payload|) % 256]
            && d[8..] == payload
  {
    hide WordSum, Complement, Seed, Stored;
    var bare, d := UdpBare(r, payload), Datagram(r, payload);
    assert d[..6] == bare[..6] && d[8..] == bare[8..];
  }

  // ---- the dispatcher ----

  datatype Wait = WaitArp | WaitUdp

  datatype Received = Received(addr: nat, port: nat, payload: seq<byte>)

  /** What a host at `addr`, waiting on `port`, takes from a frame. */
  function Parse(f: seq<byte>, addr: nat, wait: Wait, port: nat, max: nat): (r: Option<Received>) {
    if |f| < ETH_HDR + IP4_HDR || Rd16(f, 12) != ETHERTYPE_IP then None
    else if f[ETH_HDR] / 16 != 4 then None
    else
      var ihl := f[ETH_HDR] % 16 * 4;
      if ihl < IP4_HDR || |f| < ETH_HDR + ihl then None
      else if Rd32(f, ETH_HDR + 16) != addr || f[ETH_HDR + 9] != IP4_PROTO_UDP then None
      else if Rd16(f, ETH_HDR + 6) % 0x4000 != 0 then None
      else if |f| < ETH_HDR + ihl + UDP_HDR then None
      else
        var udp: nat := ETH_HDR + ihl;
        var ulen := Rd16(f, udp + 4);
        if ulen < UDP_HDR || udp + ulen > |f| || ulen - UDP_HDR > max then None
        else if wait != WaitUdp || Rd16(f, udp + 2) != port % 0x1_0000 then None
        else Some(Received(Rd32(f, ETH_HDR + 12), Rd16(f, udp), f[udp + UDP_HDR..udp + ulen]))
  }

  lemma Be16Reads(v: nat)
    requires v <= 0xFFFF
    ensures Rd16(Be16(v), 0) == v
  {}

  lemma Be32Reads(v: nat)
    requires v < U32
    ensures Rd32(Be32(v), 0) == v
  {
    hide Word, Be16;
    Rd16Inside(Be32(v), Be16(v / 0x1_0000 % 0x1_0000), 0, 0);
    Rd16Inside(Be32(v), Be16(v % 0x1_0000), 2, 0);
    Be16Reads(v / 0x1_0000);
    Be16Reads(v % 0x1_0000);
  }

  /** A word read through a part is the word read from the whole. */
  lemma Rd16Inside(whole: seq<byte>, part: seq<byte>, at: nat, i: nat)
    requires at + |part| <= |whole| && whole[at..at + |part|] == part && i + 2 <= |part|
    ensures Rd16(whole, at + i) == Rd16(part, i)
  {
    assert part[i] == whole[at + i] && part[i + 1] == whole[at + i + 1];
  }

  lemma Rd32Inside(whole: seq<byte>, part: seq<byte>, at: nat, i: nat)
    requires at + |part| <= |whole| && whole[at..at + |part|] == part && i + 4 <= |part|
    ensures Rd32(whole, at + i) == Rd32(part, i)
  {
    hide Word;
    Rd16Inside(whole, part, at, i);
    Rd16Inside(whole, part, at, i + 2);
  }

  lemma IpReads(r: Route, plen: nat)
    requires r.Valid()
    ensures var h := IpHeader(r, plen);
            h[0] == 0x45 && Rd16(h, 6) == 0 && h[9] == IP4_PROTO_UDP && Rd32(h, 12) == r.src && Rd32(h, 16) == r.dst
  {
    hide WordSum, Complement, Be16, Be32, Rd32;
    var bare, h := IpBare(r, plen), IpHeader(r, plen);
    assert h[12..16] == bare[12..16] == Be32(r.src);
    assert h[16..20] == bare[16..20] == Be32(r.dst);
    Rd32Inside(h, Be32(r.src), 12, 0);
    Rd32Inside(h, Be32(r.dst), 16, 0);
    Be32Reads(r.src);
    Be32Reads(r.dst);
  }

  lemma UdpReads(r: Route, payload: seq<byte>)
    requires r.Valid() && |payload| <= LONGEST
    ensures var d := Datagram(r, payload);
            Rd16(d, 0) == r.srcPort && Rd16(d, 2) == r.dstPort && Rd16(d, 4) == UDP_HDR + |payload| && d[UDP_HDR..] == payload
  {
    hide WordSum, Complement, Be16, Word, Seed, Stored;
    var bare, d := UdpBare(r, payload), Datagram(r, payload);
    assert d[0..2] == bare[0..2] == Be16(r.srcPort);
    assert d[2..4] == bare[2..4] == Be16(r.dstPort);
    assert d[4..6] == bare[4..6] == Be16(UDP_HDR + |payload|);
    Rd16Inside(d, Be16(r.srcPort), 0, 0);
    Rd16Inside(d, Be16(r.dstPort), 2, 0);
    Rd16Inside(d, Be16(UDP_HDR + |payload|), 4, 0);
    Be16Reads(r.srcPort);
    Be16Reads(r.dstPort);
    Be16Reads(UDP_HDR + |payload|);
  }

  /** The fields the dispatcher looks at, in a frame that was built. */
  lemma FrameReads(to: nat, from: nat, r: Route, payload: seq<byte>)
    requires r.Valid() && |payload| <= LONGEST
    ensures var f := Frame(to, from, r, payload);
            Rd16(f, 12) == ETHERTYPE_IP && f[ETH_HDR] == 0x45 && Rd16(f, ETH_HDR + 6) == 0 && f[ETH_HDR + 9] == IP4_PROTO_UDP
            && Rd32(f, ETH_HDR + 12) == r.src && Rd32(f, ETH_HDR + 16) == r.dst
            && Rd16(f, 34) == r.srcPort && Rd16(f, 36) == r.dstPort && Rd16(f, 38) == UDP_HDR + |payload|
            && f[42..] == payload
  {
    hide EthHeader, IpHeader, Datagram, Word, Rd32;
    var f, h, d := Frame(to, from, r, payload), IpHeader(r, |payload|), Datagram(r, payload);
    assert f[0..ETH_HDR] == EthHeader(to, from) && f[ETH_HDR..ETH_HDR + |h|] == h && f[34..34 + |d|] == d;
    EthReads(to, from);
    Rd16Inside(f, EthHeader(to, from), 0, 12);
    IpReads(r, |payload|);
    assert f[ETH_HDR] == h[0] && f[ETH_HDR + 9] == h[9];
    Rd16Inside(f, h, ETH_HDR, 6);
    Rd32Inside(f, h, ETH_HDR, 12);
    Rd32Inside(f, h, ETH_HDR, 16);
    UdpReads(r, payload);
    Rd16Inside(f, d, 34, 0);
    Rd16Inside(f, d, 34, 2);
    Rd16Inside(f, d, 34, 4);
    assert f[42..] == d[UDP_HDR..];
  }

  lemma EthReads(to: nat, from: nat)
    ensures Rd16(EthHeader(to, from), 12) == ETHERTYPE_IP
  {
    hide Le;
    Rd16Inside(EthHeader(to, from), Be16(ETHERTYPE_IP), 12, 0);
  }

  /** The round trip, for every host and every frame: a host takes a frame exactly when it has the
      destination address, waits for a datagram on the destination port and allows one so long, and
      then it learns the sender's address and port and the payload, byte for byte. */
  lemma RoundTrip(to: nat, from: nat, r: Route, payload: seq<byte>, addr: nat, wait: Wait, port: nat, max: nat)
    requires r.Valid() && |payload| <= LONGEST
    ensures Parse(Frame(to, from, r, payload), addr, wait, port, max) ==
            if addr == r.dst && wait == WaitUdp && port % 0x1_0000 == r.dstPort && |payload| <= max
            then Some(Received(r.src, r.srcPort, payload)) else None
  {
    hide Frame, Word, Rd32;
    FrameReads(to, from, r, payload);
    var f := Frame(to, from, r, payload);
    assert f[42..42 + |payload|] == f[42..];
  }

  /** Exactly which frames a host takes, byte by byte, and what it takes from one: IPv4 with a header of at
      least twenty bytes that is all there, to its address, UDP and no fragment, a datagram that fits in
      the frame and is not too long, to the port it waits on. */
  lemma ParseExact(f: seq<byte>, addr: nat, wait: Wait, port: nat, max: nat)
    ensures Parse(f, addr, wait, port, max).Some? <==>
            && |f| >= 34 && f[12] == 0x08 && f[13] == 0x00 && 0x45 <= f[14] <= 0x4F
            && 0x100_0000 * (f[30] as int) + 0x1_0000 * (f[31] as int) + 256 * (f[32] as int) + f[33] == addr
            && f[23] == 17 && f[20] % 64 == 0 && f[21] == 0 && wait == WaitUdp
            && var u: nat := 14 + 4 * (f[14] % 16);
               && u + 8 <= |f| && 256 * (f[u + 2] as int) + f[u + 3] == port % 0x1_0000
               && var n := 256 * (f[u + 4] as int) + f[u + 5];
                  8 <= n <= 8 + max && u + n <= |f|
    ensures Parse(f, addr, wait, port, max).Some? ==>
              var d, u: nat := Parse(f, addr, wait, port, max).value, 14 + 4 * (f[14] % 16);
              var n := 256 * (f[u + 4] as int) + f[u + 5];
              && d.addr == 0x100_0000 * (f[26] as int) + 0x1_0000 * (f[27] as int) + 256 * (f[28] as int) + f[29]
              && d.port == 256 * (f[u] as int) + f[u + 1] && d.payload == f[u + 8..u + n]
  {
    if |f| >= 34 { FragmentBits(f[20], f[21]); }
  }

  lemma FragmentBits(a: byte, b: byte)
    ensures (256 * (a as int) + b) % 0x4000 == 0 <==> a % 64 == 0 && b == 0
  {}
}
