/**
 Sending: every packet is made by overwriting the variable fields of a frame that holds the packet
 template, with checksums computed from two precomputed sums. Each send is proved to leave in the frame
 exactly the packet built from scratch (section 3.1 of RFC 791, section 3.1 of RFC 9293), whatever was
 sent from that frame before. Checksums are those of the branch without offload.
 */
module Sender {
  import opened InternetChecksum
  import opened Modular

  type Octets = s: Bytes | |s| == 4 witness [0, 0, 0, 0]
  type Ethernet = s: Bytes | |s| == 14 witness seq(14, _ => 0)

  /** The header fields that differ from packet to packet. */
  datatype Fields = Fields(
    len: Half,
    ipChecksum: Half,
    dst: Octets,
    sport: Half,
    dport: Half,
    seqNo: Word,
    ackNo: Word,
    flags: Byte,
    tcpChecksum: Half)

  function High(h: Half): Byte { h / 256 }
  function Low(h: Half): Byte { h % 256 }
  function Top(w: Word): Half { w / TWO_16 }
  function Bottom(w: Word): Half { w % TWO_16 }

  // ---------------------------------------------------------------- packets from scratch

  /** Two 16-bit numbers, most significant byte first. */
  function Two(a: Half, b: Half): (h: Octets)
  {
    [High(a), Low(a), High(b), Low(b)]
  }

  function Four(w: Word): (h: Octets)
  {
    Two(Top(w), Bottom(w))
  }

  /** Version 4, 20 bytes, don't fragment, time to live 64, TCP. */
  function IpHeader(src: Octets, f: Fields): (h: Bytes)
    ensures |h| == 20
  {
    Two(0x4500, f.len) + Two(0x0001, 0x4000) + Two(0x4006, f.ipChecksum) + src + f.dst
  }

  /** 28 bytes with the options: maximum segment size 1340, two no-ops, selective acknowledgments permitted. */
  function TcpHeader(f: Fields): (h: Bytes)
    ensures |h| == 28
  {
    Two(f.sport, f.dport) + Four(f.seqNo) + Four(f.ackNo) + Two(U16(0x70, f.flags), 0x8000)
    + Two(f.tcpChecksum, 0) + Two(0x0204, 0x053C) + Two(0x0101, 0x0402)
  }

  function PseudoHeader(src: Octets, dst: Octets, length: Half): (h: Bytes)
    ensures |h| == 12
  {
    src + dst + Two(6, length)
  }

  /** What a packet is to say. */
  datatype Message = Message(dst: Octets, sport: Half, dport: Half, seqNo: Word, ackNo: Word, flags: Byte, body: Bytes)

  predicate Fits(m: Message)
  {
    |m.body| + 48 < TWO_16
  }

  /** Its header fields, with the checksums zero. */
  function Blank(m: Message): Fields
    requires Fits(m)
  {
    Fields(48 + |m.body|, 0, m.dst, m.sport, m.dport, m.seqNo, m.ackNo, m.flags, 0)
  }

  /** What its TCP checksum is taken over. */
  function Covered(src: Octets, m: Message): Bytes
    requires Fits(m)
  {
    PseudoHeader(src, m.dst, 28 + |m.body|) + TcpHeader(Blank(m)) + m.body
  }

  /** Its header fields, with the checksums computed from scratch. */
  function Sealed(src: Octets, m: Message): Fields
    requires Fits(m)
  {
    Blank(m).(ipChecksum := Checksum(IpHeader(src, Blank(m))), tcpChecksum := Checksum(Covered(src, m)))
  }

  function Headers(eth: Ethernet, src: Octets, f: Fields): (h: Bytes)
    ensures |h| == 62
  {
    eth + IpHeader(src, f) + TcpHeader(f)
  }

  /** The whole packet, built from scratch. */
  function Packet(eth: Ethernet, src: Octets, m: Message): (p: Bytes)
    requires Fits(m)
    ensures |p| == 62 + |m.body|
  {
    Headers(eth, src, Sealed(src, m)) + m.body
  }

  // ---------------------------------------------------------------- sums of the headers

  function OctetSum(ip: Octets): nat
  {
    var a: nat, b: nat := U16(ip[0], ip[1]), U16(ip[2], ip[3]);
    a + b
  }

  function WordSum(w: Word): nat
  {
    var a: nat, b: nat := Top(w), Bottom(w);
    a + b
  }

  /** The sum of all words. */
  function Total(s: Bytes): nat
  {
    SumTo(s, Words(s))
  }

  lemma TwoSum(a: Half, b: Half)
    ensures OctetSum(Two(a, b)) == a as nat + b as nat
  {
  }

  lemma OctetsTotal(q: Octets)
    ensures Total(q) == OctetSum(q)
  {
    assert SumTo(q, 1) == WordAt(q, 0);
    assert SumTo(q, 2) == WordAt(q, 0) as nat + WordAt(q, 1) as nat;
  }

  lemma MoreOctets(a: Bytes, q: Octets)
    requires |a| % 2 == 0
    ensures Total(a + q) == Total(a) + OctetSum(q)
  {
    SumSplit(a, q, Words(q));
    OctetsTotal(q);
  }

  lemma IpSum(src: Octets, f: Fields)
    ensures Total(IpHeader(src, f)) == 0xC507 + f.len + f.ipChecksum + OctetSum(src) + OctetSum(f.dst)
  {
    var a: Bytes, b, c := Two(0x4500, f.len), Two(0x0001, 0x4000), Two(0x4006, f.ipChecksum);
    OctetsTotal(a);
    MoreOctets(a, b);
    MoreOctets(a + b, c);
    MoreOctets(a + b + c, src);
    MoreOctets(a + b + c + src, f.dst);
    TwoSum(0x4500, f.len);
    TwoSum(0x0001, 0x4000);
    TwoSum(0x4006, f.ipChecksum);
  }

  lemma SevenOctets(a: Octets, b: Octets, c: Octets, d: Octets, e: Octets, f: Octets, g: Octets)
    ensures Total(a + b + c + d + e + f + g)
         == OctetSum(a) + OctetSum(b) + OctetSum(c) + OctetSum(d) + OctetSum(e) + OctetSum(f) + OctetSum(g)
  {
    var h: Bytes := a;
    OctetsTotal(a);
    MoreOctets(h, b);
    MoreOctets(h + b, c);
    MoreOctets(h + b + c, d);
    MoreOctets(h + b + c + d, e);
    MoreOctets(h + b + c + d + e, f);
    MoreOctets(h + b + c + d + e + f, g);
  }

  lemma TcpSum(f: Fields)
    ensures Total(TcpHeader(f))
         == 0xFC43 + f.sport + f.dport + WordSum(f.seqNo) + WordSum(f.ackNo) + f.flags + f.tcpChecksum
  {
    SevenOctets(Two(f.sport, f.dport), Four(f.seqNo), Four(f.ackNo), Two(U16(0x70, f.flags), 0x8000),
                Two(f.tcpChecksum, 0), Two(0x0204, 0x053C), Two(0x0101, 0x0402));
    TwoSum(f.sport, f.dport);
    TwoSum(Top(f.seqNo), Bottom(f.seqNo));
    TwoSum(Top(f.ackNo), Bottom(f.ackNo));
    TwoSum(U16(0x70, f.flags), 0x8000);
    TwoSum(f.tcpChecksum, 0);
    TwoSum(0x0204, 0x053C);
    TwoSum(0x0101, 0x0402);
  }

  lemma PseudoSum(src: Octets, dst: Octets, length: Half)
    ensures Total(PseudoHeader(src, dst, length)) == OctetSum(src) + OctetSum(dst) + 6 + length
  {
    OctetsTotal(src);
    MoreOctets(src, dst);
    MoreOctets(src + dst, Two(6, length));
    TwoSum(6, length);
  }

  lemma ThreeParts(a: Bytes, b: Bytes, c: Bytes)
    requires |a| % 2 == 0 && |b| % 2 == 0
    ensures Total(a + b + c) == Total(a) + Total(b) + Total(c)
  {
    SumSplit(a, b, Words(b));
    SumSplit(a + b, c, Words(c));
  }

  // ---------------------------------------------------------------- sums kept ready

  /** The part of the IP checksum that is the same for all packets: 0xC537 is the sum of the template's IP header. */
  function IpBase(src: Octets): nat
  {
    0xC537 + OctetSum(src)
  }

  /** The part of the TCP checksum that is the same for all packets: 0xFC43 is the sum of the template's TCP header. */
  function TcpBase(src: Octets): nat
  {
    6 + 28 + 0xFC43 + OctetSum(src)
  }

  function IpVariable(m: Message): nat
  {
    OctetSum(m.dst) + |m.body|
  }

  function TcpVariable(m: Message): nat
  {
    OctetSum(m.dst) + m.sport + m.dport + WordSum(m.seqNo) + WordSum(m.ackNo) + m.flags + |m.body| + Total(m.body)
  }

  /** The fold of the ready sum and the variable fields is the IP checksum computed from scratch. */
  lemma IpSeal(src: Octets, m: Message)
    requires Fits(m)
    ensures IpBase(src) + IpVariable(m) < TWO_32
    ensures 0xFFFF - Fold(IpBase(src) + IpVariable(m)) == Sealed(src, m).ipChecksum
  {
    IpSum(src, Blank(m));
    FoldIsOnesSum(IpHeader(src, Blank(m)), IpBase(src) + IpVariable(m));
  }

  lemma CoveredParts(src: Octets, m: Message)
    requires Fits(m)
    ensures Total(Covered(src, m))
         == Total(PseudoHeader(src, m.dst, 28 + |m.body|)) + Total(TcpHeader(Blank(m))) + Total(m.body)
  {
    ThreeParts(PseudoHeader(src, m.dst, 28 + |m.body|), TcpHeader(Blank(m)), m.body);
  }

  lemma TcpTotal(src: Octets, m: Message)
    requires Fits(m)
    ensures TcpBase(src) + TcpVariable(m) == Total(Covered(src, m))
  {
    CoveredParts(src, m);
    PseudoSum(src, m.dst, 28 + |m.body|);
    TcpSum(Blank(m));
  }

  lemma TcpFits(src: Octets, m: Message)
    requires Fits(m)
    ensures TcpBase(src) + TcpVariable(m) < TWO_32
  {
    SumFits(m.body);
    assert OctetSum(src) < 0x2_0000 && OctetSum(m.dst) < 0x2_0000;
    assert WordSum(m.seqNo) < 0x2_0000 && WordSum(m.ackNo) < 0x2_0000;
  }

  /** The fold of the ready sum and the variable fields is the TCP checksum computed from scratch. */
  lemma TcpSeal(src: Octets, m: Message)
    requires Fits(m)
    ensures TcpBase(src) + TcpVariable(m) < TWO_32
    ensures 0xFFFF - Fold(TcpBase(src) + TcpVariable(m)) == Sealed(src, m).tcpChecksum
  {
    TcpTotal(src, m);
    TcpFits(src, m);
    FoldIsOnesSum(Covered(src, m), TcpBase(src) + TcpVariable(m));
  }

  lemma SealedBySums(src: Octets, m: Message)
    requires Fits(m)
    ensures IpBase(src) + IpVariable(m) < TWO_32 && TcpBase(src) + TcpVariable(m) < TWO_32
    ensures Sealed(src, m) == Blank(m).(ipChecksum := 0xFFFF - Fold(IpBase(src) + IpVariable(m)),
                                        tcpChecksum := 0xFFFF - Fold(TcpBase(src) + TcpVariable(m)))
  {
    IpSeal(src, m);
    TcpSeal(src, m);
  }

  // ---------------------------------------------------------------- headers in a frame

  ghost predicate Quad(s: Bytes, at: nat, q: Octets)
    requires at + 4 <= |s|
  {
    s[at] == q[0] && s[at + 1] == q[1] && s[at + 2] == q[2] && s[at + 3] == q[3]
  }

  ghost predicate IpShaped(s: Bytes, src: Octets, f: Fields)
    requires |s| >= 62
  {
    && Quad(s, 14, Two(0x4500, f.len)) && Quad(s, 18, Two(0x0001, 0x4000)) && Quad(s, 22, Two(0x4006, f.ipChecksum))
    && Quad(s, 26, src) && Quad(s, 30, f.dst)
  }

  ghost predicate TcpShaped(s: Bytes, f: Fields)
    requires |s| >= 62
  {
    && Quad(s, 34, Two(f.sport, f.dport)) && Quad(s, 38, Four(f.seqNo)) && Quad(s, 42, Four(f.ackNo))
    && Quad(s, 46, Two(U16(0x70, f.flags), 0x8000)) && Quad(s, 50, Two(f.tcpChecksum, 0))
    && Quad(s, 54, Two(0x0204, 0x053C)) && Quad(s, 58, Two(0x0101, 0x0402))
  }

  /** The first 62 bytes are the headers with the fields `f`. */
  ghost predicate Shaped(s: Bytes, eth: Ethernet, src: Octets, f: Fields)
  {
    |s| >= 62 && s[..14] == eth && IpShaped(s, src, f) && TcpShaped(s, f)
  }

  /** The frame holds the headers of some packet: all that a send relies on. */
  ghost predicate Templated(s: Bytes, eth: Ethernet, src: Octets)
  {
    exists f :: Shaped(s, eth, src, f)
  }

  lemma QuadExtends(s: Bytes, from: nat, at: nat, p: Bytes, q: Octets)
    requires from <= at && at + 4 <= |s| && s[from..at] == p && Quad(s, at, q)
    ensures s[from..at + 4] == p + q
  {
    assert s[from..at + 4] == s[from..at] + s[at..at + 4];
    assert s[at..at + 4] == q;
  }

  lemma IpShapedIs(s: Bytes, src: Octets, f: Fields)
    requires |s| >= 62 && IpShaped(s, src, f)
    ensures s[14..34] == IpHeader(src, f)
  {
    var a: Bytes, b, c := Two(0x4500, f.len), Two(0x0001, 0x4000), Two(0x4006, f.ipChecksum);
    assert s[14..18] == a;
    QuadExtends(s, 14, 18, a, b);
    QuadExtends(s, 14, 22, a + b, c);
    QuadExtends(s, 14, 26, a + b + c, src);
    QuadExtends(s, 14, 30, a + b + c + src, f.dst);
  }

  lemma TcpShapedIs(s: Bytes, f: Fields)
    requires |s| >= 62 && TcpShaped(s, f)
    ensures s[34..62] == TcpHeader(f)
  {
    var a: Bytes, b, c, d := Two(f.sport, f.dport), Four(f.seqNo), Four(f.ackNo), Two(U16(0x70, f.flags), 0x8000);
    var e, g, h := Two(f.tcpChecksum, 0), Two(0x0204, 0x053C), Two(0x0101, 0x0402);
    assert s[34..38] == a;
    QuadExtends(s, 34, 38, a, b);
    QuadExtends(s, 34, 42, a + b, c);
    QuadExtends(s, 34, 46, a + b + c, d);
    QuadExtends(s, 34, 50, a + b + c + d, e);
    QuadExtends(s, 34, 54, a + b + c + d + e, g);
    QuadExtends(s, 34, 58, a + b + c + d + e + g, h);
  }

  lemma ShapedIsHeaders(s: Bytes, eth: Ethernet, src: Octets, f: Fields)
    requires Shaped(s, eth, src, f)
    ensures s[..62] == Headers(eth, src, f)
  {
    IpShapedIs(s, src, f);
    TcpShapedIs(s, f);
    assert s[..62] == s[..14] + s[14..34] + s[34..62];
  }

  /** `bytes` written at `at`. */
  function Put(s: Bytes, at: nat, bytes: Bytes): (s': Bytes)
    requires at + |bytes| <= |s|
    ensures |s'| == |s|
    ensures forall i :: 0 <= i < |s| ==> s'[i] == if at <= i < at + |bytes| then bytes[i - at] else s[i]
  {
    s[..at] + bytes + s[at + |bytes|..]
  }

  method PutBytes(frame: array<Byte>, at: nat, bytes: Bytes)
    requires at + |bytes| <= frame.Length
    modifies frame
    ensures frame[..] == Put(old(frame[..]), at, bytes)
  {
    forall i | 0 <= i < |bytes| {
      frame[at + i] := bytes[i];
    }
  }

  function HalfBytes(h: Half): Bytes
  {
    [High(h), Low(h)]
  }

  /** The header writes of one send, in place. */
  function Stamped(s: Bytes, f: Fields): (s': Bytes)
    requires |s| >= 62
    ensures |s'| == |s|
  {
    var a := Put(Put(Put(s, 16, HalfBytes(f.len)), 30, f.dst), 42, Four(f.ackNo));
    var b := Put(Put(Put(a, 38, Four(f.seqNo)), 36, HalfBytes(f.dport)), 34, HalfBytes(f.sport));
    Put(Put(Put(b, 24, HalfBytes(f.ipChecksum)), 50, HalfBytes(f.tcpChecksum)), 47, [f.flags])
  }

  /** Whatever headers the frame held, it now holds those with the fields `f`; nothing behind them has changed. */
  lemma StampedShaped(s: Bytes, eth: Ethernet, src: Octets, f: Fields)
    requires Templated(s, eth, src)
    ensures Shaped(Stamped(s, f), eth, src, f) && Stamped(s, f)[62..] == s[62..]
  {
  }

  /** Data behind the headers does not touch them. */
  lemma TemplatedBehind(s: Bytes, eth: Ethernet, src: Octets, body: Bytes)
    requires Templated(s, eth, src) && 62 + |body| <= |s|
    ensures Templated(Put(s, 62, body), eth, src) && Put(s, 62, body)[62..62 + |body|] == body
  {
    var f :| Shaped(s, eth, src, f);
    assert Shaped(Put(s, 62, body), eth, src, f);
  }

  lemma BehindHeader(s: Bytes, n: nat)
    requires 62 + n <= |s|
    ensures s[62..][..n] == s[62..62 + n]
  {
  }

  /** A frame with sealed headers and the body behind them holds the packet. */
  lemma FrameIsPacket(s: Bytes, eth: Ethernet, src: Octets, m: Message, f: Fields)
    requires Fits(m) && 62 + |m.body| <= |s|
    requires Shaped(s, eth, src, f) && f == Sealed(src, m) && s[62..62 + |m.body|] == m.body
    ensures s[..62 + |m.body|] == Packet(eth, src, m) && Templated(s, eth, src)
  {
    ShapedIsHeaders(s, eth, src, f);
    assert s[..62 + |m.body|] == s[..62] + s[62..62 + |m.body|];
  }

  // ---------------------------------------------------------------- the template

  /** The packet template: Ethernet, IP and TCP headers. */
  const ETHER_HEADER: Bytes := [0x00, 0x00, 0x00, 0x00, 0x00, 0x00, 0x00, 0x00, 0x00, 0x00, 0x00, 0x00, 0x08, 0x00]
  const IP_HEADER: Bytes := [
    0x45, 0x00, 0x00, 0x30, 0x00, 0x01, 0x40, 0x00, 0x40, 0x06, 0x00, 0x00, 0x00, 0x00, 0x00, 0x00, 0x00, 0x00, 0x00, 0x00]
  const TCP_HEADER: Bytes := [
    0x00, 0x00, 0x00, 0x00, 0x00, 0x00, 0x00, 0x00, 0x00, 0x00, 0x00, 0x00, 0x70, 0x00, 0x80, 0x00, 0x00, 0x00, 0x00, 0x00,
    0x02, 0x04, 0x05, 0x3C, 0x01, 0x01, 0x04, 0x02]
  const TCP_PACKET: Bytes := ETHER_HEADER + IP_HEADER + TCP_HEADER

  /** Every variable field is zero, but for the total length. */
  ghost predicate IsTemplate(f: Fields)
  {
    && f.len == 48 && f.ipChecksum == f.tcpChecksum == f.sport == f.dport == 0 && f.dst == [0, 0, 0, 0]
    && f.seqNo == f.ackNo == 0 && f.flags == 0
  }

  lemma IpTemplate(none: Octets, f: Fields)
    requires IsTemplate(f) && none == [0, 0, 0, 0]
    ensures IP_HEADER == IpHeader(none, f)
  {
    assert Two(0x4500, 48) == [0x45, 0x00, 0x00, 0x30];
    assert Two(0x0001, 0x4000) == [0x00, 0x01, 0x40, 0x00];
    assert Two(0x4006, 0) == [0x40, 0x06, 0x00, 0x00];
    assert |IP_HEADER| == |IpHeader(none, f)|;
  }

  lemma TcpTemplate(f: Fields)
    requires IsTemplate(f)
    ensures TCP_HEADER == TcpHeader(f)
  {
    assert Two(0, 0) == Four(0) == [0x00, 0x00, 0x00, 0x00];
    assert Two(U16(0x70, 0), 0x8000) == [0x70, 0x00, 0x80, 0x00];
    assert Two(0x0204, 0x053C) == [0x02, 0x04, 0x05, 0x3C];
    assert Two(0x0101, 0x0402) == [0x01, 0x01, 0x04, 0x02];
    assert |TCP_HEADER| == |TcpHeader(f)|;
  }

  lemma IpTemplateSum(none: Octets, f: Fields)
    requires IsTemplate(f) && none == [0, 0, 0, 0]
    ensures Total(IpHeader(none, f)) == 0xC537
  {
    assert OctetSum(none) == 0;
    IpSum(none, f);
  }

  lemma TcpTemplateSum(f: Fields)
    requires IsTemplate(f)
    ensures Total(TcpHeader(f)) == 0xFC43
  {
    assert WordSum(f.seqNo) == 0;
    TcpSum(f);
  }

  /** The words of the template's two headers add up to the constants in the ready sums. */
  lemma TemplateTotals(ip: Bytes, tcp: Bytes)
    requires ip == TCP_PACKET[14..34] && tcp == TCP_PACKET[34..62]
    ensures Total(ip) == 0xC537 && Total(tcp) == 0xFC43
  {
    var none: Octets := [0, 0, 0, 0];
    var f := Fields(48, 0, none, 0, 0, 0, 0, 0, 0);
    IpTemplate(none, f);
    TcpTemplate(f);
    assert ip == IpHeader(none, f) && tcp == TcpHeader(f);
    IpTemplateSum(none, f);
    TcpTemplateSum(f);
  }

  /** A sum that fits 32 bits is added up exactly. */
  method SumPart(part: Bytes, ghost total: nat) returns (sum: Word)
    requires Total(part) == total < TWO_32
    ensures sum == total
  {
    sum := SumBody(part);
  }

  /** The two sums of the template. */
  method TemplateSums() returns (ip: Word, tcp: Word)
    ensures ip == 0xC537 && tcp == 0xFC43
  {
    var ipPart, tcpPart := TCP_PACKET[14..34], TCP_PACKET[34..62];
    TemplateTotals(ipPart, tcpPart);
    ip := SumPart(ipPart, 0xC537);
    tcp := SumPart(tcpPart, 0xFC43);
  }

  lemma QuadWithin(s: Bytes, from: nat, h: Bytes, off: nat, q: Octets)
    requires from + |h| <= |s| && s[from..from + |h|] == h && off + 4 <= |h| && h[off..off + 4] == q
    ensures Quad(s, from + off, q)
  {
    forall k | 0 <= k < 4 ensures s[from + off + k] == q[k] {
      assert s[from + off + k] == h[off + k] == h[off..off + 4][k];
    }
  }

  lemma IpHeaderShaped(s: Bytes, src: Octets, f: Fields)
    requires |s| >= 62 && s[14..34] == IpHeader(src, f)
    ensures IpShaped(s, src, f)
  {
    var h := IpHeader(src, f);
    QuadWithin(s, 14, h, 0, Two(0x4500, f.len));
    QuadWithin(s, 14, h, 4, Two(0x0001, 0x4000));
    QuadWithin(s, 14, h, 8, Two(0x4006, f.ipChecksum));
    QuadWithin(s, 14, h, 12, src);
    QuadWithin(s, 14, h, 16, f.dst);
  }

  /** The last four bytes of a prefix of `h`. */
  lemma QuadEnds(s: Bytes, from: nat, h: Bytes, p: Bytes, q: Octets)
    requires from + |h| <= |s| && s[from..from + |h|] == h && p + q <= h
    ensures Quad(s, from + |p|, q) && p <= h
  {
    assert h[|p|..|p| + 4] == (p + q)[|p|..|p| + 4] == q;
    QuadWithin(s, from, h, |p|, q);
    assert h[..|p|] == (p + q)[..|p|] == p;
  }

  lemma TcpHeaderShaped(s: Bytes, f: Fields)
    requires |s| >= 62 && s[34..62] == TcpHeader(f)
    ensures TcpShaped(s, f)
  {
    var h := TcpHeader(f);
    var a: Bytes, b, c, d := Two(f.sport, f.dport), Four(f.seqNo), Four(f.ackNo), Two(U16(0x70, f.flags), 0x8000);
    var e, g := Two(f.tcpChecksum, 0), Two(0x0204, 0x053C);
    QuadEnds(s, 34, h, a + b + c + d + e + g, Two(0x0101, 0x0402));
    QuadEnds(s, 34, h, a + b + c + d + e, g);
    QuadEnds(s, 34, h, a + b + c + d, e);
    QuadEnds(s, 34, h, a + b + c, d);
    QuadEnds(s, 34, h, a + b, c);
    QuadEnds(s, 34, h, a, b);
    QuadWithin(s, 34, h, 0, Two(f.sport, f.dport));
  }

  lemma TemplateShaped(s: Bytes, none: Octets, f: Fields)
    requires s == TCP_PACKET && none == [0, 0, 0, 0] && IsTemplate(f)
    ensures |s| == 62 && IpShaped(s, none, f) && TcpShaped(s, f) && s[12] == 0x08 && s[13] == 0x00
  {
    IpTemplate(none, f);
    TcpTemplate(f);
    assert s[14..34] == IP_HEADER && s[34..62] == TCP_HEADER;
    IpHeaderShaped(s, none, f);
    TcpHeaderShaped(s, f);
    assert s[..14] == ETHER_HEADER;
  }

  lemma QuadKept(s: Bytes, t: Bytes, at: nat, q: Octets)
    requires at + 4 <= |s| && at + 4 <= |t| && Quad(t, at, q)
    requires forall i :: at <= i < at + 4 ==> s[i] == t[i]
    ensures Quad(s, at, q)
  {
  }

  /** The template with both link addresses and the source address written over it. */
  function Prepared(s: Bytes, template: Bytes, gateway: Bytes, local: Bytes, src: Octets): (s': Bytes)
    requires |s| >= 62 == |template| && |gateway| == |local| == 6
    ensures |s'| == |s|
  {
    Put(Put(Put(Put(s, 0, template), 0, gateway), 6, local), 26, src)
  }

  lemma PreparedBytes(s: Bytes, template: Bytes, gateway: Bytes, local: Bytes, src: Octets)
    requires |s| >= 62 == |template| && |gateway| == |local| == 6 && template[12] == 0x08 && template[13] == 0x00
    ensures var p := Prepared(s, template, gateway, local, src);
      && p[..14] == gateway + local + [0x08, 0x00] && Quad(p, 26, src)
      && forall i :: 14 <= i < 26 || 30 <= i < 62 ==> p[i] == template[i]
  {
  }

  lemma PreparedShaped(s: Bytes, template: Bytes, gateway: Bytes, local: Bytes, src: Octets, f: Fields)
    requires |s| >= 62 == |template| && |gateway| == |local| == 6 && template[12] == 0x08 && template[13] == 0x00
    requires IpShaped(template, [0, 0, 0, 0], f) && TcpShaped(template, f)
    ensures Shaped(Prepared(s, template, gateway, local, src), gateway + local + [0x08, 0x00], src, f)
  {
    var p := Prepared(s, template, gateway, local, src);
    PreparedBytes(s, template, gateway, local, src);
    assert IpShaped(p, src, f) by {
      QuadKept(p, template, 14, Two(0x4500, f.len));
      QuadKept(p, template, 18, Two(0x0001, 0x4000));
      QuadKept(p, template, 22, Two(0x4006, f.ipChecksum));
      QuadKept(p, template, 30, f.dst);
    }
    assert TcpShaped(p, f) by {
      QuadKept(p, template, 34, Two(f.sport, f.dport));
      QuadKept(p, template, 38, Four(f.seqNo));
      QuadKept(p, template, 42, Four(f.ackNo));
      QuadKept(p, template, 46, Two(U16(0x70, f.flags), 0x8000));
      QuadKept(p, template, 50, Two(f.tcpChecksum, 0));
      QuadKept(p, template, 54, Two(0x0204, 0x053C));
      QuadKept(p, template, 58, Two(0x0101, 0x0402));
    }
  }

  // ---------------------------------------------------------------- what a receiver checks

  /** Patching a part patches the whole; `n` words come before it. */
  lemma PatchedWithin(n: nat, a: Bytes, b: Bytes, c: Bytes, k: nat, h: Half)
    requires |a| == 2 * n && 2 * k + 1 < |b|
    ensures a + Patched(b, k, h) + c == Patched(a + b + c, n + k, h)
  {
  }

  lemma TwoPatched(a: Half, h: Half)
    ensures Patched(Two(a, 0), 1, h) == Two(a, h)
  {
  }

  lemma IpPatched(src: Octets, f: Fields, checksum: Half)
    requires f.ipChecksum == 0
    ensures IpHeader(src, f.(ipChecksum := checksum)) == Patched(IpHeader(src, f), 5, checksum)
    ensures IpHeader(src, f)[10] == 0 && IpHeader(src, f)[11] == 0
  {
    var a: Bytes, c: Bytes := Two(0x4500, f.len) + Two(0x0001, 0x4000), Two(0x4006, 0);
    PatchedWithin(4, a, c, src + f.dst, 1, checksum);
    TwoPatched(0x4006, checksum);
    assert IpHeader(src, f) == a + c + (src + f.dst);
    assert IpHeader(src, f.(ipChecksum := checksum)) == a + Two(0x4006, checksum) + (src + f.dst);
  }

  lemma ZeroWord(h: Bytes, k: nat)
    requires 2 * k + 1 < |h| && h[2 * k] == 0 && h[2 * k + 1] == 0
    ensures WordAt(h, k) == 0
  {
  }

  lemma IpVerifies(src: Octets, f: Fields, checksum: Half)
    requires f.ipChecksum == 0 && checksum == Checksum(IpHeader(src, f))
    ensures var h := IpHeader(src, f.(ipChecksum := checksum)); OnesTo(h, Words(h)) == 0xFFFF
  {
    IpPatched(src, f, checksum);
    ZeroWord(IpHeader(src, f), 5);
    ChecksumVerifies(IpHeader(src, f), 5);
  }

  lemma TcpPatched(f: Fields, checksum: Half)
    requires f.tcpChecksum == 0
    ensures TcpHeader(f)[16] == 0 && TcpHeader(f)[17] == 0
    ensures TcpHeader(f.(tcpChecksum := checksum)) == Patched(TcpHeader(f), 8, checksum)
  {
  }

  lemma ZeroWithin(n: nat, a: Bytes, b: Bytes, c: Bytes, k: nat)
    requires |a| == 2 * n && 2 * k + 1 < |b| && b[2 * k] == 0 && b[2 * k + 1] == 0
    ensures 2 * (n + k) + 1 < |a + b + c| && WordAt(a + b + c, n + k) == 0
  {
    var s := a + b + c;
    assert s[2 * (n + k)] == b[2 * k] && s[2 * (n + k) + 1] == b[2 * k + 1];
    ZeroWord(s, n + k);
  }

  lemma PatchVerifies(s: Bytes, p: Bytes, k: nat, checksum: Half)
    requires 2 * k + 1 < |s| && WordAt(s, k) == 0 && checksum == Checksum(s) && p == Patched(s, k, checksum)
    ensures OnesTo(p, Words(p)) == 0xFFFF
  {
    ChecksumVerifies(s, k);
  }

  lemma Slices(e: Bytes, i: Bytes, t: Bytes, b: Bytes)
    requires |e| == 14 && |i| == 20 && |t| == 28
    ensures (e + i + t + b)[14..34] == i && (e + i + t + b)[34..] == t + b
  {
  }

  lemma IpPartVerifies(src: Octets, m: Message)
    requires Fits(m)
    ensures var h := IpHeader(src, Sealed(src, m)); OnesTo(h, Words(h)) == 0xFFFF
  {
    IpVerifies(src, Blank(m), Sealed(src, m).ipChecksum);
    assert IpHeader(src, Sealed(src, m)) == IpHeader(src, Blank(m).(ipChecksum := Sealed(src, m).ipChecksum));
  }

  lemma TcpPartVerifies(src: Octets, m: Message)
    requires Fits(m)
    ensures var s := PseudoHeader(src, m.dst, 28 + |m.body|) + TcpHeader(Sealed(src, m)) + m.body; OnesTo(s, Words(s)) == 0xFFFF
  {
    var pseudo, header, checksum := PseudoHeader(src, m.dst, 28 + |m.body|), TcpHeader(Blank(m)), Sealed(src, m).tcpChecksum;
    var sealed := TcpHeader(Sealed(src, m));
    assert sealed == TcpHeader(Blank(m).(tcpChecksum := checksum));
    TcpPatched(Blank(m), checksum);
    ZeroWithin(6, pseudo, header, m.body, 8);
    PatchedWithin(6, pseudo, header, m.body, 8, checksum);
    PatchVerifies(Covered(src, m), pseudo + sealed + m.body, 14, checksum);
  }

  lemma PacketParts(eth: Ethernet, src: Octets, m: Message)
    requires Fits(m)
    ensures Packet(eth, src, m)[14..34] == IpHeader(src, Sealed(src, m))
    ensures Packet(eth, src, m)[34..] == TcpHeader(Sealed(src, m)) + m.body
  {
    Slices(eth, IpHeader(src, Sealed(src, m)), TcpHeader(Sealed(src, m)), m.body);
  }

  /** The IP header of every packet, checksum included, sums to all ones. */
  lemma PacketIpVerifies(eth: Ethernet, src: Octets, m: Message)
    requires Fits(m)
    ensures var h := Packet(eth, src, m)[14..34]; OnesTo(h, Words(h)) == 0xFFFF
  {
    PacketParts(eth, src, m);
    IpPartVerifies(src, m);
  }

  /** Pseudo-header, TCP header and body of every packet, checksum included, sum to all ones. */
  lemma PacketTcpVerifies(eth: Ethernet, src: Octets, m: Message)
    requires Fits(m)
    ensures var s := PseudoHeader(src, m.dst, 28 + |m.body|) + Packet(eth, src, m)[34..]; OnesTo(s, Words(s)) == 0xFFFF
  {
    PacketParts(eth, src, m);
    Associate(PseudoHeader(src, m.dst, 28 + |m.body|), TcpHeader(Sealed(src, m)), m.body);
    TcpPartVerifies(src, m);
  }

  lemma Associate(a: Bytes, b: Bytes, c: Bytes)
    ensures a + (b + c) == a + b + c
  {
  }

  // ---------------------------------------------------------------- what a receiver reads

  /** The bytes `at` and the next as a number, most significant first. */
  ghost function ReadHalf(p: Bytes, at: nat): int
    requires at + 2 <= |p|
  {
    var high: int, low: int := p[at], p[at + 1];
    256 * high + low
  }

  ghost function ReadWord(p: Bytes, at: nat): int
    requires at + 4 <= |p|
  {
    0x1_0000 * ReadHalf(p, at) + ReadHalf(p, at + 2)
  }

  /** The addresses and lengths a receiver finds at the offsets of section 3.1 of RFC 791. */
  ghost predicate ReadsIp(p: Bytes, src: Octets, dst: Octets, length: nat)
    requires |p| >= 62
  {
    p[14] == 0x45 && p[23] == 6 && ReadHalf(p, 16) == length && p[26..30] == src && p[30..34] == dst
  }

  /** The ports, numbers and flags a receiver finds at the offsets of section 3.1 of RFC 9293. */
  ghost predicate ReadsTcp(p: Bytes, sport: Half, dport: Half, seqNo: Word, ackNo: Word, flags: Byte)
    requires |p| >= 62
  {
    && ReadHalf(p, 34) == sport && ReadHalf(p, 36) == dport
    && ReadWord(p, 38) == seqNo && ReadWord(p, 42) == ackNo && p[46] == 0x70 && p[47] == flags
  }

  /** A packet that says, byte by byte, what it is to say. */
  ghost predicate Reads(p: Bytes, eth: Ethernet, src: Octets, m: Message)
  {
    && |p| == 62 + |m.body| && p[..14] == eth && p[62..] == m.body
    && ReadsIp(p, src, m.dst, 48 + |m.body|)
    && ReadsTcp(p, m.sport, m.dport, m.seqNo, m.ackNo, m.flags)
  }

  lemma TwoReads(p: Bytes, at: nat, a: Half, b: Half)
    requires at + 4 <= |p| && Quad(p, at, Two(a, b))
    ensures ReadHalf(p, at) == a && ReadHalf(p, at + 2) == b
  {
  }

  lemma FourReads(p: Bytes, at: nat, w: Word)
    requires at + 4 <= |p| && Quad(p, at, Four(w))
    ensures ReadWord(p, at) == w
  {
    TwoReads(p, at, Top(w), Bottom(w));
  }

  lemma QuadIs(p: Bytes, at: nat, q: Octets)
    requires at + 4 <= |p| && Quad(p, at, q)
    ensures p[at..at + 4] == q
  {
  }

  lemma IpReads(p: Bytes, src: Octets, f: Fields)
    requires |p| >= 62 && IpShaped(p, src, f)
    ensures ReadsIp(p, src, f.dst, f.len)
  {
    TwoReads(p, 14, 0x4500, f.len);
    QuadIs(p, 26, src);
    QuadIs(p, 30, f.dst);
  }

  lemma TcpReads(p: Bytes, f: Fields)
    requires |p| >= 62 && TcpShaped(p, f)
    ensures ReadsTcp(p, f.sport, f.dport, f.seqNo, f.ackNo, f.flags)
  {
    TwoReads(p, 34, f.sport, f.dport);
    FourReads(p, 38, f.seqNo);
    FourReads(p, 42, f.ackNo);
  }

  /** Every packet says what its message says, at the offsets where a receiver looks. */
  lemma PacketReads(eth: Ethernet, src: Octets, m: Message)
    requires Fits(m)
    ensures Reads(Packet(eth, src, m), eth, src, m)
  {
    var p, f := Packet(eth, src, m), Sealed(src, m);
    PacketParts(eth, src, m);
    assert p[34..62] == p[34..][..28];
    IpHeaderShaped(p, src, f);
    TcpHeaderShaped(p, f);
    IpReads(p, src, f);
    TcpReads(p, f);
  }

  // ---------------------------------------------------------------- sending

  datatype Probe = Probe(ip: Octets, sourcePort: Half, port: Half, cookie: Word)

  /** The opening packet of a probe. */
  function Opening(eth: Ethernet, src: Octets, p: Probe): Bytes
  {
    Packet(eth, src, Message(p.ip, p.sourcePort, p.port, p.cookie, 0, 0x02, []))
  }

  /** What a receiver reads in it: a SYN from the source port to the probed port, numbered with the cookie. */
  ghost predicate SaysSyn(p: Bytes, eth: Ethernet, src: Octets, probe: Probe)
  {
    Reads(p, eth, src, Message(probe.ip, probe.sourcePort, probe.port, probe.cookie, 0, 0x02, []))
  }

  lemma OpeningSaysSyn(eth: Ethernet, src: Octets, p: Probe)
    ensures SaysSyn(Opening(eth, src, p), eth, src, p)
  {
    PacketReads(eth, src, Message(p.ip, p.sourcePort, p.port, p.cookie, 0, 0x02, []));
  }

  /** A frame that holds a packet can be sent from again. */
  lemma PacketIsTemplate(s: Bytes, eth: Ethernet, src: Octets, m: Message)
    requires Fits(m) && |s| >= 62 && s[..62] == Packet(eth, src, m)[..62]
    ensures Templated(s, eth, src)
  {
    var f := Sealed(src, m);
    var e: Bytes, i, t := eth, IpHeader(src, f), TcpHeader(f);
    Slices(e, i, t, []);
    assert s[..62] == e + i + t + [];
    assert s[14..34] == s[..62][14..34] && s[34..62] == s[..62][34..];
    IpHeaderShaped(s, src, f);
    TcpHeaderShaped(s, f);
    assert s[..14] == s[..62][..14] == eth;
    assert Shaped(s, eth, src, f);
  }

  lemma OpeningIsTemplate(s: Bytes, eth: Ethernet, src: Octets, p: Probe, wanted: Bytes)
    requires |s| >= 62 && wanted == Opening(eth, src, p) && s[..62] == wanted
    ensures Templated(s, eth, src)
  {
    assert wanted[..62] == wanted;
    PacketIsTemplate(s, eth, src, Message(p.ip, p.sourcePort, p.port, p.cookie, 0, 0x02, []));
  }

  predicate Apart(frames: seq<array<Byte>>)
  {
    forall i, j :: 0 <= i < j < |frames| ==> frames[i] != frames[j]
  }

  class Sender {
    const eth: Ethernet
    const source: Octets
    const tcpChecksum: Word
    const ipv4Checksum: Word

    ghost predicate Valid()
    {
      tcpChecksum == TcpBase(source) && ipv4Checksum == IpBase(source)
    }

    constructor (gateway: Bytes, local: Bytes, source: Octets)
      requires |gateway| == 6 && |local| == 6
      ensures Valid() && this.source == source && eth == gateway + local + [0x08, 0x00]
    {
      var ip, tcp := TemplateSums();
      this.source := source;
      eth := gateway + local + [0x08, 0x00];
      tcpChecksum := 6 + 28 + tcp + OctetSum(source);
      ipv4Checksum := ip + OctetSum(source);
    }

    /** Puts the template and the fixed addresses into a frame. */
    method Prepare(frame: array<Byte>, gateway: Bytes, local: Bytes)
      requires frame.Length >= 62 && |gateway| == |local| == 6 && eth == gateway + local + [0x08, 0x00]
      modifies frame
      ensures Templated(frame[..], eth, source)
    {
      var template := TCP_PACKET;
      ghost var f := Fields(48, 0, [0, 0, 0, 0], 0, 0, 0, 0, 0, 0);
      TemplateShaped(template, [0, 0, 0, 0], f);
      PreparedShaped(frame[..], template, gateway, local, source, f);
      PutBytes(frame, 0, template);
      PutBytes(frame, 0, gateway);
      PutBytes(frame, 6, local);
      PutBytes(frame, 26, source);
    }

    /** Writes the fields of a message, its checksums folded from the given sums. */
    method Emit(frame: array<Byte>, m: Message, ipSum: nat, tcpSum: nat)
      requires Fits(m) && 62 + |m.body| <= frame.Length
      requires Templated(frame[..], eth, source) && frame[62..62 + |m.body|] == m.body
      requires ipSum == IpBase(source) + IpVariable(m) && tcpSum == TcpBase(source) + TcpVariable(m)
      modifies frame
      ensures frame[..62 + |m.body|] == Packet(eth, source, m) && Templated(frame[..], eth, source)
    {
      SealedBySums(source, m);
      BehindHeader(frame[..], |m.body|);
      var f := Blank(m).(ipChecksum := 0xFFFF - Fold(ipSum), tcpChecksum := 0xFFFF - Fold(tcpSum));
      assert f == Sealed(source, m);
      WriteHeader(frame, f);
      BehindHeader(frame[..], |m.body|);
      FrameIsPacket(frame[..], eth, source, m, f);
    }

    method WriteHeader(frame: array<Byte>, f: Fields)
      requires Templated(frame[..], eth, source)
      modifies frame
      ensures Shaped(frame[..], eth, source, f) && frame[62..] == old(frame[62..])
    {
      StampedShaped(frame[..], eth, source, f);
      PutBytes(frame, 16, HalfBytes(f.len));
      PutBytes(frame, 30, f.dst);
      PutBytes(frame, 42, Four(f.ackNo));
      PutBytes(frame, 38, Four(f.seqNo));
      PutBytes(frame, 36, HalfBytes(f.dport));
      PutBytes(frame, 34, HalfBytes(f.sport));
      PutBytes(frame, 24, HalfBytes(f.ipChecksum));
      PutBytes(frame, 50, HalfBytes(f.tcpChecksum));
      PutBytes(frame, 47, [f.flags]);
    }

    /** A packet without data. */
    method Send(frame: array<Byte>, ip: Octets, sourcePort: Half, port: Half, seqNo: Word, ackNo: Word, flags: Byte)
      returns (len: nat)
      requires Valid() && Templated(frame[..], eth, source)
      modifies frame
      ensures len == 62 && Templated(frame[..], eth, source)
      ensures frame[..len] == Packet(eth, source, Message(ip, sourcePort, port, seqNo, ackNo, flags, []))
      ensures Reads(frame[..len], eth, source, Message(ip, sourcePort, port, seqNo, ackNo, flags, []))
    {
      PacketReads(eth, source, Message(ip, sourcePort, port, seqNo, ackNo, flags, []));
      var destSum := OctetSum(ip);
      var ipSum := ipv4Checksum + destSum;
      var tcpSum := tcpChecksum + destSum + sourcePort + port + WordSum(seqNo) + WordSum(ackNo) + flags;
      Emit(frame, Message(ip, sourcePort, port, seqNo, ackNo, flags, []), ipSum, tcpSum);
      len := 62;
    }

    /** The opening packet of a probe; its sequence number is the cookie of its destination. */
    method SendSyn(frame: array<Byte>, ip: Octets, sourcePort: Half, port: Half, cookie: Word) returns (len: nat)
      requires Valid() && Templated(frame[..], eth, source)
      modifies frame
      ensures len == 62 && Templated(frame[..], eth, source)
      ensures frame[..len] == Packet(eth, source, Message(ip, sourcePort, port, cookie, 0, 0x02, []))
      ensures Reads(frame[..len], eth, source, Message(ip, sourcePort, port, cookie, 0, 0x02, []))
    {
      PacketReads(eth, source, Message(ip, sourcePort, port, cookie, 0, 0x02, []));
      var destSum := OctetSum(ip);
      var ipSum := ipv4Checksum + destSum;
      var tcpSum := tcpChecksum + destSum + sourcePort + port + WordSum(cookie) + 0x02;
      Emit(frame, Message(ip, sourcePort, port, cookie, 0, 0x02, []), ipSum, tcpSum);
      len := 62;
    }

    /** A packet with data. */
    method SendWithData(frame: array<Byte>, ip: Octets, sourcePort: Half, port: Half, seqNo: Word, ackNo: Word, body: Bytes)
      returns (len: nat)
      requires Valid() && Templated(frame[..], eth, source)
      requires 62 + |body| <= frame.Length && |body| + 48 < TWO_16
      modifies frame
      ensures len == 62 + |body| && Templated(frame[..], eth, source)
      ensures frame[..len] == Packet(eth, source, Message(ip, sourcePort, port, seqNo, ackNo, 0x18, body))
      ensures Reads(frame[..len], eth, source, Message(ip, sourcePort, port, seqNo, ackNo, 0x18, body))
    {
      PacketReads(eth, source, Message(ip, sourcePort, port, seqNo, ackNo, 0x18, body));
      TemplatedBehind(frame[..], eth, source, body);
      PutBytes(frame, 62, body);
      SumFits(body);
      var bodySum := SumPart(body, Total(body));
      var destSum := OctetSum(ip);
      var ipSum := ipv4Checksum + destSum + |body|;
      var tcpSum := tcpChecksum + destSum + sourcePort + port + WordSum(seqNo) + WordSum(ackNo) + 0x18 + |body| + bodySum;
      Emit(frame, Message(ip, sourcePort, port, seqNo, ackNo, 0x18, body), ipSum, tcpSum);
      len := 62 + |body|;
    }

    method SendProbe(frame: array<Byte>, p: Probe, ghost wanted: Bytes)
      requires Valid() && Templated(frame[..], eth, source) && wanted == Opening(eth, source, p)
      modifies frame
      ensures frame.Length >= 62 && frame[..62] == wanted
    {
      var len := SendSyn(frame, p.ip, p.sourcePort, p.port, p.cookie);
    }

    /** Sends every probe from its own frame; `wanted` are the packets they make. */
    method SendAll(frames: seq<array<Byte>>, probes: seq<Probe>, ghost wanted: seq<Bytes>)
      requires Valid() && |frames| == |probes| == |wanted| && Apart(frames)
      requires forall i :: 0 <= i < |frames| ==> Templated(frames[i][..], eth, source)
      requires forall i {:trigger probes[i]} :: 0 <= i < |probes| ==> wanted[i] == Opening(eth, source, probes[i])
      modifies frames
      ensures forall i :: 0 <= i < |frames| ==> frames[i].Length >= 62 && frames[i][..62] == wanted[i]
    {
      var i := 0;
      while i < |frames|
        invariant i <= |frames|
        invariant forall k :: i <= k < |frames| ==> frames[k][..] == old(frames[k][..])
        invariant forall k :: 0 <= k < i ==> frames[k].Length >= 62 && frames[k][..62] == wanted[k]
      {
        SendProbe(frames[i], probes[i], wanted[i]);
        i := i + 1;
      }
    }

    /** A batch of opening packets, each in a frame of its own, which can be sent from again. */
    method SendSynBatch(frames: seq<array<Byte>>, probes: seq<Probe>)
      requires Valid() && |frames| == |probes| && Apart(frames)
      requires forall i :: 0 <= i < |frames| ==> Templated(frames[i][..], eth, source)
      modifies frames
      ensures forall i :: 0 <= i < |frames| ==> frames[i].Length >= 62 && frames[i][..62] == Opening(eth, source, probes[i])
      ensures forall i :: 0 <= i < |frames| ==> Templated(frames[i][..], eth, source)
      ensures forall i :: 0 <= i < |frames| ==> SaysSyn(frames[i][..62], eth, source, probes[i])
    {
      ghost var wanted := seq(|probes|, i requires 0 <= i < |probes| => Opening(eth, source, probes[i]));
      SendAll(frames, probes, wanted);
      forall i | 0 <= i < |frames|
        ensures frames[i][..62] == Opening(eth, source, probes[i]) && Templated(frames[i][..], eth, source)
        ensures SaysSyn(frames[i][..62], eth, source, probes[i])
      {
        OpeningSaysSyn(eth, source, probes[i]);
        OpeningIsTemplate(frames[i][..], eth, source, probes[i], wanted[i]);
      }
    }
  }
}
