/** The IP service's buffers: building a frame in the driver's, and emptying one into the client's. */
module IpService {
  import opened Wrappers
  import opened Bytes
  import opened Checksum
  import opened Udp

  /** Nothing outside `[from, to)` moved. */
  twostate predicate Only(f: array<byte>, from: nat, to: nat)
    requires from <= to <= f.Length
    reads f
  {
    forall i :: 0 <= i < f.Length && !(from <= i < to) ==> f[i] == old(f[i])
  }

  method Wr16(f: array<byte>, at: nat, v: nat)
    requires at + 2 <= f.Length
    modifies f
    ensures f[at..at + 2] == Be16(v) && Only(f, at, at + 2)
    ensures f[at] == v / 256 % 256 && f[at + 1] == v % 256
  {
    f[at], f[at + 1] := v / 256 % 256, v % 256;
  }

  method Wr32(f: array<byte>, at: nat, v: nat)
    requires at + 4 <= f.Length && v < U32
    modifies f
    ensures f[at..at + 4] == Be32(v) && Only(f, at, at + 4)
    ensures f[at] == v / 0x100_0000 && f[at + 1] == v / 0x1_0000 % 256 && f[at + 2] == v / 256 % 256 && f[at + 3] == v % 256
  {
    hide Be32;
    Be32Bytes(v);
    f[at], f[at + 1], f[at + 2], f[at + 3] := v / 0x100_0000, v / 0x1_0000 % 256, v / 256 % 256, v % 256;
  }

  /** Six address bytes, low byte first. */
  method WriteMac(f: array<byte>, at: nat, mac: nat)
    requires at + 6 <= f.Length
    modifies f
    ensures f[at..at + 6] == Le(mac, 6) && Only(f, at, at + 6)
  {
    hide Le;
    var rest := mac;
    for i := 0 to 6
      invariant Only(f, at, at + 6)
      invariant Le(mac, 6) == f[at..at + i] + Le(rest, 6 - i)
    {
      ghost var before := f[at..at + i];
      LeStep(rest, 6 - i);
      f[at + i] := rest % 256;
      rest := rest / 256;
      assert f[at..at + i + 1] == before + [f[at + i]];
    }
  }

  method Zero(f: array<byte>, at: nat, n: nat)
    requires at + n <= f.Length
    modifies f
    ensures (forall i :: at <= i < at + n ==> f[i] == 0) && Only(f, at, at + n)
  {
    for i := 0 to n
      invariant (forall k :: at <= k < at + i ==> f[k] == 0) && Only(f, at, at + n)
    {
      f[at + i] := 0;
    }
  }

  method Copy(f: array<byte>, at: nat, src: array<byte>, n: nat)
    requires at + n <= f.Length && n <= src.Length && f != src
    modifies f
    ensures f[at..at + n] == src[..n] && Only(f, at, at + n)
  {
    for i := 0 to n
      invariant f[at..at + i] == src[..i] && Only(f, at, at + n)
    {
      f[at + i] := src[i];
      assert f[at..at + i + 1] == f[at..at + i] + [src[i]];
    }
  }

  lemma Parts(s: seq<byte>, a: nat, b: nat, c: nat)
    requires a <= b <= c <= |s|
    ensures s[a..c] == s[a..b] + s[b..c]
  {}

  /** `ip_tx_begin`'s part: the Ethernet header. */
  method WriteEth(f: array<byte>, to: nat, from: nat)
    requires f.Length >= ETH_HDR
    modifies f
    ensures f[..ETH_HDR] == EthHeader(to, from) && Only(f, 0, ETH_HDR)
  {
    hide Le, Be16;
    Zero(f, 0, ETH_HDR);
    WriteMac(f, 0, to);
    WriteMac(f, 6, from);
    Wr16(f, 12, ETHERTYPE_IP);
    ghost var all := f[..];
    Parts(all, 0, 6, 12);
    Parts(all, 0, 12, 14);
  }

  /** The IPv4 header, over bytes already zeroed. */
  method WriteIp(f: array<byte>, r: Route, plen: nat)
    requires f.Length >= ETH_HDR + IP4_HDR && r.Valid()
    requires forall i :: ETH_HDR <= i < ETH_HDR + IP4_HDR ==> f[i] == 0
    modifies f
    ensures f[ETH_HDR..ETH_HDR + IP4_HDR] == IpHeader(r, plen) && Only(f, ETH_HDR, ETH_HDR + IP4_HDR)
  {
    hide Be16, Be32, WordSum, Complement;
    WriteIpFields(f, r, plen);
    ghost var bare := f[ETH_HDR..ETH_HDR + IP4_HDR];
    var c := Csum16(f[ETH_HDR..ETH_HDR + IP4_HDR], 0);
    Wr16(f, ETH_HDR + 10, c);
    assert f[ETH_HDR..ETH_HDR + IP4_HDR] == bare[..10] + f[24..26] + bare[12..];
  }

  method WriteIpFields(f: array<byte>, r: Route, plen: nat)
    requires f.Length >= ETH_HDR + IP4_HDR && r.Valid()
    requires forall i :: ETH_HDR <= i < ETH_HDR + IP4_HDR ==> f[i] == 0
    modifies f
    ensures f[ETH_HDR..ETH_HDR + IP4_HDR] == IpBare(r, plen) && Only(f, ETH_HDR, ETH_HDR + IP4_HDR)
  {
    hide Be16, Be32;
    f[ETH_HDR] := 0x45;
    Wr16(f, ETH_HDR + 2, IP4_HDR + UDP_HDR + plen);
    f[ETH_HDR + 8] := 64;
    f[ETH_HDR + 9] := IP4_PROTO_UDP;
    Wr32(f, ETH_HDR + 12, r.src);
    Wr32(f, ETH_HDR + 16, r.dst);
    assert f[14..16] == [0x45, 0];
    assert f[18..26] == [0, 0, 0, 0, 64, IP4_PROTO_UDP, 0, 0];
    ghost var all := f[..];
    Parts(all, 14, 16, 18);
    Parts(all, 14, 18, 26);
    Parts(all, 14, 26, 30);
    Parts(all, 14, 30, 34);
  }

  /** The datagram, over a header already zeroed, its payload copied from the client's buffer. */
  method WriteUdp(f: array<byte>, r: Route, src: array<byte>, plen: nat)
    requires plen <= src.Length && plen <= LONGEST && f.Length >= 42 + plen && f != src && r.Valid()
    requires forall i :: 34 <= i < 42 ==> f[i] == 0
    modifies f
    ensures f[34..42 + plen] == Datagram(r, src[..plen]) && Only(f, 34, 42 + plen)
  {
    hide Be16, WordSum, Complement, Word, UdpBare;
    WriteUdpFields(f, r, src, plen);
    ghost var bare := f[34..42 + plen];
    var c := Csum16(f[34..42 + plen], Seed(r, plen));
    Wr16(f, 40, if c != 0 then c else 0xFFFF);
    assert f[34..42 + plen] == bare[..6] + f[40..42] + bare[8..];
  }

  method WriteUdpFields(f: array<byte>, r: Route, src: array<byte>, plen: nat)
    requires plen <= src.Length && f.Length >= 42 + plen && f != src
    requires forall i :: 34 <= i < 42 ==> f[i] == 0
    modifies f
    ensures f[34..42 + plen] == UdpBare(r, src[..plen]) && Only(f, 34, 42 + plen)
  {
    hide Be16;
    Wr16(f, 34, r.srcPort);
    Wr16(f, 36, r.dstPort);
    Wr16(f, 38, UDP_HDR + plen);
    Copy(f, 42, src, plen);
    assert f[40..42] == [0, 0];
    ghost var all := f[..];
    Parts(all, 34, 36, 38);
    Parts(all, 34, 38, 40);
    Parts(all, 34, 40, 42);
    Parts(all, 34, 42, 42 + plen);
  }

  /** The service: its address, the client's payload buffer, what it waits for and what arrived. */
  class Service {
    const addr: nat
    const mac: nat
    /** The longest payload accepted either way. */
    const max: nat
    const payload: array<byte>
    var wait: Wait
    var wantPort: nat
    var gotLen: nat
    var gotAddr: nat
    var gotPort: nat
    var received: nat

    ghost predicate Valid()
    {
      addr < U32 && max <= LONGEST && max <= payload.Length
    }

    constructor (addr: nat, mac: nat, max: nat, payload: array<byte>)
      requires addr < U32 && max <= LONGEST && max <= payload.Length
      ensures Valid() && this.addr == addr && this.mac == mac && this.max == max && this.payload == payload
    {
      this.addr, this.mac, this.max, this.payload := addr, mac, max, payload;
      wait, wantPort, gotLen, gotAddr, gotPort, received := WaitArp, 0, 0, 0, 0, 0;
    }

    /** `udp_send`: what is handed to the driver, given the route and the driver's buffer. Nothing is
        written when the payload is too long or there is no route. */
    method Send(f: array<byte>, route: Option<nat>, dst: nat, dstPort: nat, srcPort: nat, plen: nat) returns (sent: Option<nat>)
      requires Valid() && f != payload && f.Length >= 42 + max
      requires dst < U32 && dstPort <= 0xFFFF && srcPort <= 0xFFFF
      modifies f
      ensures sent.None? <==> plen > max || route.None?
      ensures sent.None? ==> f[..] == old(f[..])
      ensures sent.Some? ==> sent.value == 42 + plen && Only(f, 0, sent.value)
      ensures sent.Some? ==> f[..sent.value] == Frame(route.value, mac, Route(addr, dst, srcPort, dstPort), payload[..plen])
    {
      hide EthHeader, IpHeader, Datagram;
      if plen > max || route.None? { return None; }
      var r := Route(addr, dst, srcPort, dstPort);
      WriteEth(f, route.value, mac);
      Zero(f, ETH_HDR, IP4_HDR + UDP_HDR);
      WriteIp(f, r, plen);
      WriteUdp(f, r, payload, plen);
      assert f[..14] == EthHeader(route.value, mac);
      assert f[14..34] == IpHeader(r, plen);
      assert f[..42 + plen] == f[..14] + f[14..34] + f[34..42 + plen];
      return Some(42 + plen);
    }

    /** The dispatcher on the bytes of one frame. It takes exactly what `Parse` says, and a frame it
        does not take changes nothing; an ARP reply ends a wait only if that is what was awaited. */
    method Poll(frame: seq<byte>) returns (got: bool)
      requires Valid()
      modifies this, payload
      ensures got <==> Parse(frame, addr, old(wait), old(wantPort), max).Some? || ArpReply(frame, old(wait))
      ensures wait == old(wait) && wantPort == old(wantPort)
      ensures Parse(frame, addr, old(wait), old(wantPort), max).None? ==>
                gotLen == old(gotLen) && gotAddr == old(gotAddr) && gotPort == old(gotPort) && received == old(received)
                && payload[..] == old(payload[..])
      ensures Parse(frame, addr, old(wait), old(wantPort), max).Some? ==>
                var d := Parse(frame, addr, old(wait), old(wantPort), max).value;
                var n := |d.payload|;
                n <= payload.Length && payload[..n] == d.payload && payload[n..] == old(payload[n..])
                && gotLen == n && gotAddr == d.addr && gotPort == d.port && received == old(received) + 1
    {
      hide Word, Rd32;
      var len := |frame|;
      if len < ETH_HDR { return false; }
      var kind := Rd16(frame, 12);
      if kind == ETHERTYPE_ARP && len >= ETH_HDR + ARP_BYTES {
        return Rd16(frame, ETH_HDR + 6) == 2 && wait == WaitArp;
      }
      if kind != ETHERTYPE_IP || len < ETH_HDR + IP4_HDR { return false; }
      if frame[ETH_HDR] / 16 != 4 { return false; }
      var ihl := frame[ETH_HDR] % 16 * 4;
      if ihl < IP4_HDR || len < ETH_HDR + ihl { return false; }
      if Rd32(frame, ETH_HDR + 16) != addr { return false; }
      if frame[ETH_HDR + 9] != IP4_PROTO_UDP { return false; }
      if Rd16(frame, ETH_HDR + 6) % 0x4000 != 0 { return false; }
      var udp: nat := ETH_HDR + ihl;
      if len < udp + UDP_HDR { return false; }
      var ulen := Rd16(frame, udp + 4);
      if ulen < UDP_HDR || udp + ulen > len { return false; }
      var plen := ulen - UDP_HDR;
      if plen > max { return false; }
      if wait != WaitUdp { return false; }
      if Rd16(frame, udp + 2) != wantPort % 0x1_0000 { return false; }
      TakePayload(frame[udp + UDP_HDR..udp + ulen]);
      gotLen := plen;
      gotAddr := Rd32(frame, ETH_HDR + 12);
      gotPort := Rd16(frame, udp);
      received := received + 1;
      return true;
    }

    method TakePayload(bytes: seq<byte>)
      requires |bytes| <= payload.Length
      modifies payload
      ensures payload[..|bytes|] == bytes && payload[|bytes|..] == old(payload[|bytes|..])
    {
      for i := 0 to |bytes|
        invariant payload[..i] == bytes[..i] && payload[|bytes|..] == old(payload[|bytes|..])
      {
        payload[i] := bytes[i];
        assert payload[..i + 1] == payload[..i] + [bytes[i]];
      }
    }
  }

  /** A frame that ends a wait for an address. */
  predicate ArpReply(frame: seq<byte>, wait: Wait) {
    |frame| >= ETH_HDR + ARP_BYTES && Rd16(frame, 12) == ETHERTYPE_ARP && Rd16(frame, ETH_HDR + 6) == 2 && wait == WaitArp
  }

  /** One service sends and another, at the destination and waiting there, polls: it has exactly the
      bytes that were sent, and knows who sent them. */
  method Deliver(a: Service, b: Service, f: array<byte>, route: nat, dstPort: nat, srcPort: nat, plen: nat) returns (got: bool)
    requires a.Valid() && b.Valid() && a != b && a.payload != b.payload
    requires f != a.payload && f != b.payload && f.Length >= 42 + a.max
    requires dstPort <= 0xFFFF && srcPort <= 0xFFFF
    requires plen <= a.max && plen <= b.max
    modifies f, b, b.payload
    ensures got <==> old(b.wait) == WaitUdp && old(b.wantPort) % 0x1_0000 == dstPort
    ensures got ==> b.gotLen == plen && b.gotAddr == a.addr && b.gotPort == srcPort && b.payload[..plen] == a.payload[..plen]
  {
    hide Frame, Parse;
    var sent := a.Send(f, Some(route), b.addr, dstPort, srcPort, plen);
    ghost var r := Route(a.addr, b.addr, srcPort, dstPort);
    ghost var bytes := a.payload[..plen];
    RoundTrip(route, a.mac, r, bytes, b.addr, b.wait, b.wantPort, b.max);
    FrameReads(route, a.mac, r, bytes);
    got := b.Poll(f[..sent.value]);
  }
}
