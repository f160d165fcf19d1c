/** Frames laid out field by field as RFC 791, 768, 792 and 793 have them, and what the parser
    makes of them. */
module Packets {
  import opened Wire
  import opened NatTable
  import opened Napt
  import opened NaptChecksum
  import C = Checksum

  /** The fields of a transport header that translation looks at. */
  datatype Header =
    | TcpHeader(src: U16, dst: U16, flags: Byte)
    | UdpHeader(src: U16, dst: U16)
    | EchoHeader(request: bool, id: U16)

  /** The big-endian word at byte i. */
  ghost function Word(f: seq<Byte>, i: nat): U16
    requires i + 1 < |f|
  {
    256 * (f[i] as int) + f[i + 1]
  }

  /** An IPv4 packet in an Ethernet frame, with or without options: its protocol and addresses, and
      where its transport header begins. */
  ghost predicate IsIpv4(f: seq<Byte>, proto: Byte, from: Ip, to: Ip, at: nat) {
    && |f| >= 34 && f[12] == 0x08 && f[13] == 0x00
    && f[14] % 16 >= 5 && at == 14 + 4 * (f[14] % 16)
    && f[23] == proto
    && f[26] == from.a && f[27] == from.b && f[28] == from.c && f[29] == from.d
    && f[30] == to.a && f[31] == to.b && f[32] == to.c && f[33] == to.d
  }

  /** A TCP segment, a UDP datagram, or an ICMP echo request or reply, with its whole header. */
  ghost predicate IsPacketOf(f: seq<Byte>, from: Ip, to: Ip, h: Header, at: nat) {
    match h
    case TcpHeader(src, dst, flags) =>
      && IsIpv4(f, 6, from, to, at) && |f| >= at + 20
      && Word(f, at) == src && Word(f, at + 2) == dst && f[at + 13] == flags
    case UdpHeader(src, dst) =>
      IsIpv4(f, 17, from, to, at) && |f| >= at + 8 && Word(f, at) == src && Word(f, at + 2) == dst
    case EchoHeader(request, id) =>
      && IsIpv4(f, 1, from, to, at) && |f| >= at + 8
      && f[at] == (if request then 8 else 0) && Word(f, at + 4) == id
  }

  /** Where the checksum is. */
  ghost function SumAt(h: Header, at: nat): nat {
    match h
    case TcpHeader(_, _, _) => at + 16
    case UdpHeader(_, _) => at + 6
    case EchoHeader(_, _) => at + 2
  }

  /** Where the sender's port or echo id is, and the receiver's. */
  ghost function SourceAt(h: Header, at: nat): nat { if h.EchoHeader? then at + 4 else at }

  ghost function DestinationAt(h: Header, at: nat): nat { if h.EchoHeader? then at + 4 else at + 2 }

  /** The header with another port or echo id. */
  ghost function FromId(h: Header, id: U16): Header {
    match h
    case TcpHeader(_, dst, flags) => TcpHeader(id, dst, flags)
    case UdpHeader(_, dst) => UdpHeader(id, dst)
    case EchoHeader(request, _) => EchoHeader(request, id)
  }

  ghost function ToId(h: Header, id: U16): Header {
    match h
    case TcpHeader(src, _, flags) => TcpHeader(src, id, flags)
    case UdpHeader(src, _) => UdpHeader(src, id)
    case EchoHeader(request, _) => EchoHeader(request, id)
  }

  /** The flow of a packet sent out; an echo is keyed on its id alone. */
  ghost function Flow(from: Ip, to: Ip, h: Header): Tuple {
    match h
    case TcpHeader(src, dst, _) => Tuple(Tcp, from, src, to, dst)
    case UdpHeader(src, dst) => Tuple(Udp, from, src, to, dst)
    case EchoHeader(_, id) => Tuple(IcmpEcho, from, id, to, 0)
  }

  ghost function Flags(h: Header): Byte { if h.TcpHeader? then h.flags else 0 }

  /** What the parser is to make of it. */
  ghost function Parsed(h: Header, at: nat): L4 {
    match h
    case TcpHeader(src, dst, flags) => L4(Tcp, at, src, dst, at + 16, flags)
    case UdpHeader(src, dst) => L4(Udp, at, src, dst, at + 6, 0)
    case EchoHeader(_, id) => L4(IcmpEcho, at, id, 0, at + 2, 0)
  }

  /** Every such packet parses, to exactly its fields. */
  lemma {:induction false} PacketParses(f: seq<Byte>, from: Ip, to: Ip, h: Header, at: nat)
    requires IsPacketOf(f, from, to, h, at)
    ensures ParseL4(f) == Some(Parsed(h, at)) && RdIp(f, 26) == from && RdIp(f, 30) == to
    ensures Rd16(f, SumAt(h, at)) == Word(f, SumAt(h, at))
  {
  }

  /** Nothing else does. */
  lemma {:induction false} OnlyPacketsParse(f: seq<Byte>) returns (from: Ip, to: Ip, h: Header, at: nat)
    requires ParseL4(f).Some?
    ensures IsPacketOf(f, from, to, h, at)
  {
    from, to, at := RdIp(f, 26), RdIp(f, 30), ETH + Ihl(f);
    var l4 := ParseL4(f).value;
    match l4.proto
    case Tcp => h := TcpHeader(l4.srcId, l4.dstId, l4.flags);
    case Udp => h := UdpHeader(l4.srcId, l4.dstId);
    case IcmpEcho => h := EchoHeader(f[at] == 8, l4.srcId);
  }

  /** Which frames those are: IPv4 with a header of at least five words; a whole TCP, UDP or ICMP
      header behind it; of ICMP only echo requests and replies. */
  lemma {:induction false} ParsesExactly(f: seq<Byte>)
    ensures ParseL4(f).Some?
            <==> && |f| >= 34 && f[12] == 0x08 && f[13] == 0x00 && f[14] % 16 >= 5
                 && var at := 14 + 4 * (f[14] % 16);
                    || (f[23] == 6 && |f| >= at + 20)
                    || (f[23] == 17 && |f| >= at + 8)
                    || (f[23] == 1 && |f| >= at + 8 && (f[at] == 0 || f[at] == 8))
  {
  }

  // ---- A packet with another address and id ----

  /** g is f but for the address at byte `ip`, the word at `id` and the word at `sum`. */
  ghost predicate OnlyDiffersAt(f: seq<Byte>, g: seq<Byte>, ip: nat, id: nat, sum: nat) {
    |g| == |f|
    && forall k :: 0 <= k < |f| && !(ip <= k < ip + 4) && !(id <= k < id + 2) && !(sum <= k < sum + 2)
         ==> g[k] == f[k]
  }

  lemma {:induction false} RewriteOnly(
      f: seq<Byte>, g: seq<Byte>, h: Header, at: nat, l4: L4, side: Side, ip: Ip, id: U16, place: nat)
    requires l4 == Parsed(h, at) && ParseL4(f) == Some(l4) && IsRewrite(f, g, l4, side, ip, id)
    requires place == if side == Src then SourceAt(h, at) else DestinationAt(h, at)
    ensures OnlyDiffersAt(f, g, IpOff(side), place, SumAt(h, at)) && place + 1 < |g|
    ensures Word(g, place) == id && RdIp(g, IpOff(side)) == ip
  {
    assert forall k :: 0 <= k < |f| && !Rewritten(l4, side, k) ==> g[k] == f[k];
  }

  lemma {:induction false} SourceFields(
      f: seq<Byte>, g: seq<Byte>, from: Ip, to: Ip, h: Header, at: nat, ip: Ip, id: U16, place: nat)
    requires IsPacketOf(f, from, to, h, at) && place == SourceAt(h, at) && place + 1 < |g|
    requires OnlyDiffersAt(f, g, 26, place, SumAt(h, at)) && Word(g, place) == id && RdIp(g, 26) == ip
    ensures IsPacketOf(g, ip, to, FromId(h, id), at)
  {
  }

  lemma {:induction false} DestinationFields(
      f: seq<Byte>, g: seq<Byte>, from: Ip, to: Ip, h: Header, at: nat, ip: Ip, id: U16, place: nat)
    requires IsPacketOf(f, from, to, h, at) && place == DestinationAt(h, at) && place + 1 < |g|
    requires OnlyDiffersAt(f, g, 30, place, SumAt(h, at)) && Word(g, place) == id && RdIp(g, 30) == ip
    ensures IsPacketOf(g, from, ip, ToId(h, id), at)
  {
  }

  lemma {:induction false} UnsummedStays(
      f: seq<Byte>, g: seq<Byte>, h: Header, at: nat, l4: L4, side: Side, ip: Ip, id: U16)
    requires l4 == Parsed(h, at) && ParseL4(f) == Some(l4) && IsRewrite(f, g, l4, side, ip, id)
    ensures h.UdpHeader? && Word(f, SumAt(h, at)) == 0 ==> Word(g, SumAt(h, at)) == 0
  {
  }

  lemma {:induction false} SourceRewritten(f: seq<Byte>, from: Ip, to: Ip, h: Header, at: nat, ip: Ip, id: U16)
    requires IsPacketOf(f, from, to, h, at)
    ensures ParseL4(f) == Some(Parsed(h, at))
    ensures var g := Rewrite(f, Parsed(h, at), Src, ip, id);
            && IsPacketOf(g, ip, to, FromId(h, id), at)
            && OnlyDiffersAt(f, g, 26, SourceAt(h, at), SumAt(h, at))
            && (h.UdpHeader? && Word(f, SumAt(h, at)) == 0 ==> Word(g, SumAt(h, at)) == 0)
  {
    var l4 := Parsed(h, at);
    PacketParses(f, from, to, h, at);
    RewriteIsLocal(f, l4, Src, ip, id);
    var g := Rewrite(f, l4, Src, ip, id);
    RewriteOnly(f, g, h, at, l4, Src, ip, id, SourceAt(h, at));
    SourceFields(f, g, from, to, h, at, ip, id, SourceAt(h, at));
    UnsummedStays(f, g, h, at, l4, Src, ip, id);
  }

  lemma {:induction false} DestinationRewritten(f: seq<Byte>, from: Ip, to: Ip, h: Header, at: nat, ip: Ip, id: U16)
    requires IsPacketOf(f, from, to, h, at)
    ensures ParseL4(f) == Some(Parsed(h, at))
    ensures var g := Rewrite(f, Parsed(h, at), Dst, ip, id);
            && IsPacketOf(g, from, ip, ToId(h, id), at)
            && OnlyDiffersAt(f, g, 30, DestinationAt(h, at), SumAt(h, at))
            && (h.UdpHeader? && Word(f, SumAt(h, at)) == 0 ==> Word(g, SumAt(h, at)) == 0)
  {
    var l4 := Parsed(h, at);
    PacketParses(f, from, to, h, at);
    RewriteIsLocal(f, l4, Dst, ip, id);
    var g := Rewrite(f, l4, Dst, ip, id);
    RewriteOnly(f, g, h, at, l4, Dst, ip, id, DestinationAt(h, at));
    DestinationFields(f, g, from, to, h, at, ip, id, DestinationAt(h, at));
    UnsummedStays(f, g, h, at, l4, Dst, ip, id);
  }

  // ---- What the checksum covers ----

  /** Where the packet ends by its own total length, the transport header being covered and the
      whole of it in the frame. */
  ghost predicate IsComplete(f: seq<Byte>, h: Header, at: nat, end: nat) {
    && |f| >= 34 && end == 14 + Word(f, 16) <= |f|
    && at + (if h.TcpHeader? then 20 else 8) <= end
  }

  /** The transport checksum is computed over the segment, behind addresses, protocol and length
      for TCP and UDP. */
  ghost function Covered(f: seq<Byte>, from: Ip, to: Ip, h: Header, at: nat, end: nat): seq<Byte>
    requires at <= end <= |f| && end - at < 0x1_0000
  {
    var proto := match h case TcpHeader(_, _, _) => 6 case UdpHeader(_, _) => 17 case EchoHeader(_, _) => 1;
    var pseudo := [from.a, from.b, from.c, from.d, to.a, to.b, to.c, to.d,
                   0, proto, (end - at) / 256, (end - at) % 256];
    (if h.EchoHeader? then [] else pseudo) + f[at..end]
  }

  /** The covered words, checksum included, add up to a multiple of 0xFFFF that is not 0. */
  ghost predicate SumsRight(f: seq<Byte>, from: Ip, to: Ip, h: Header, at: nat, end: nat)
    requires at <= end <= |f| && end - at < 0x1_0000
  {
    var c := Covered(f, from, to, h, at, end);
    SegSum(c, 0, |c|) > 0 && SegSum(c, 0, |c|) % 0xFFFF == 0
  }

  lemma {:induction false} SegSumOfSlice(f: seq<Byte>, g: seq<Byte>, lo: nat, hi: nat, d: nat)
    requires lo <= hi <= |g| && d + hi <= |f| && forall k :: lo <= k < hi ==> g[k] == f[d + k]
    ensures SegSum(g, lo, hi) == SegSum(f, d + lo, d + hi)
    decreases hi - lo
  {
    if lo + 1 < hi {
      SegSumOfSlice(f, g, lo + 2, hi, d);
    }
  }

  lemma {:induction false} SegSumSplit(f: seq<Byte>, lo: nat, mid: nat, hi: nat)
    requires lo <= mid <= hi <= |f| && (mid - lo) % 2 == 0
    ensures SegSum(f, lo, hi) == SegSum(f, lo, mid) + SegSum(f, mid, hi)
    decreases mid - lo
  {
    if lo < mid {
      SegSumSplit(f, lo + 2, mid, hi);
    }
  }

  lemma {:induction false} PseudoWords(p: seq<Byte>)
    requires |p| == 12
    ensures SegSum(p, 0, 12)
            == Rd16(p, 0) + Rd16(p, 2) + Rd16(p, 4) + Rd16(p, 6) + Rd16(p, 8) + Rd16(p, 10)
  {
    assert SegSum(p, 10, 12) == Rd16(p, 10) + SegSum(p, 12, 12);
    assert SegSum(p, 8, 12) == Rd16(p, 8) + SegSum(p, 10, 12);
    assert SegSum(p, 6, 12) == Rd16(p, 6) + SegSum(p, 8, 12);
    assert SegSum(p, 4, 12) == Rd16(p, 4) + SegSum(p, 6, 12);
    assert SegSum(p, 2, 12) == Rd16(p, 2) + SegSum(p, 4, 12);
  }

  lemma {:induction false} Behind(p: seq<Byte>, f: seq<Byte>, at: nat, end: nat)
    requires |p| % 2 == 0 && at <= end <= |f|
    ensures SegSum(p + f[at..end], 0, |p| + (end - at)) == SegSum(p, 0, |p|) + SegSum(f, at, end)
  {
    var c, n := p + f[at..end], |p| + (end - at);
    SegSumSplit(c, 0, |p|, n);
    SegSumOfSlice(c, p, 0, |p|, 0);
    SegSumOfSlice(c, f[at..end], 0, end - at, |p|);
    SegSumOfSlice(f, f[at..end], 0, end - at, at);
  }

  lemma {:induction false} CoveredSum(f: seq<Byte>, from: Ip, to: Ip, h: Header, at: nat, end: nat)
    requires IsPacketOf(f, from, to, h, at) && IsComplete(f, h, at, end)
    ensures WellFormed(f, Parsed(h, at)) && SegEnd(f) == end
    ensures var c := Covered(f, from, to, h, at, end); SegSum(c, 0, |c|) == L4Sum(f, Parsed(h, at))
  {
    PacketParses(f, from, to, h, at);
    var c := Covered(f, from, to, h, at, end);
    if h.EchoHeader? {
      Behind([], f, at, end);
    } else {
      var p := c[..12];
      assert c == p + f[at..end];
      PseudoWords(p);
      Behind(p, f, at, end);
    }
  }

  lemma {:induction false} FoldsToOnes(n: nat)
    ensures C.Fold(n) == 0xFFFF <==> n > 0 && n % 0xFFFF == 0
  {
    var q := C.FoldSplit(n);
  }

  /** A checksum is valid exactly if the covered words add up. */
  lemma {:induction false} ValidExactly(f: seq<Byte>, from: Ip, to: Ip, h: Header, at: nat, end: nat)
    requires IsPacketOf(f, from, to, h, at) && IsComplete(f, h, at, end)
    ensures WellFormed(f, Parsed(h, at))
    ensures ChecksumValid(f, Parsed(h, at)) <==> SumsRight(f, from, to, h, at, end)
  {
    CoveredSum(f, from, to, h, at, end);
    FoldsToOnes(L4Sum(f, Parsed(h, at)));
  }

  /** UDP field 0 says that there is no checksum. */
  ghost predicate Unsummed(f: seq<Byte>, h: Header, at: nat)
    requires SumAt(h, at) + 1 < |f|
  {
    h.UdpHeader? && Word(f, SumAt(h, at)) == 0
  }

  /** A whole packet, up to byte `end`, with a checksum in use and right. */
  ghost predicate Sound(f: seq<Byte>, from: Ip, to: Ip, h: Header, at: nat, end: nat) {
    && IsPacketOf(f, from, to, h, at) && !Unsummed(f, h, at)
    && IsComplete(f, h, at, end) && SumsRight(f, from, to, h, at, end)
  }

  lemma {:induction false} SoundIs(f: seq<Byte>, from: Ip, to: Ip, h: Header, at: nat, end: nat, l4: L4)
    requires Sound(f, from, to, h, at, end) && l4 == Parsed(h, at)
    ensures WellFormed(f, l4) && !ChecksumDisabled(f, l4) && ChecksumValid(f, l4)
  {
    PacketParses(f, from, to, h, at);
    ValidExactly(f, from, to, h, at, end);
  }

  lemma {:induction false} LengthKept(
      f: seq<Byte>, g: seq<Byte>, h: Header, n: Header, at: nat, end: nat, ip: nat, id: nat, sum: nat)
    requires IsComplete(f, h, at, end) && OnlyDiffersAt(f, g, ip, id, sum) && ip >= 18 && id >= 18 && sum >= 18
    requires h.TcpHeader? == n.TcpHeader?
    ensures IsComplete(g, n, at, end)
  {
  }

  lemma {:induction false} SourceParse(h: Header, at: nat, id: U16, l4: L4)
    requires l4 == Parsed(h, at)
    ensures Parsed(FromId(h, id), at) == Renamed(l4, Src, id) && Parsed(ToId(h, id), at) == Renamed(l4, Dst, id)
  {
  }

  /** A sound packet from another source, with an id of the range, still adds up. */
  lemma {:induction false} SourceKeepsSum(
      f: seq<Byte>, g: seq<Byte>, from: Ip, to: Ip, h: Header, n: Header, at: nat, end: nat, l4: L4, ip: Ip, id: U16)
    requires Sound(f, from, to, h, at, end) && id >= NAT_LO && l4 == Parsed(h, at) && n == FromId(h, id)
    requires ParseL4(f) == Some(l4) && g == Rewrite(f, l4, Src, ip, id)
    requires IsPacketOf(g, ip, to, n, at) && OnlyDiffersAt(f, g, 26, SourceAt(h, at), SumAt(h, at))
    ensures IsComplete(g, n, at, end) && SumsRight(g, ip, to, n, at, end)
  {
    SoundIs(f, from, to, h, at, end, l4);
    OutboundRewriteKeepsChecksum(f, l4, ip, id);
    LengthKept(f, g, h, n, at, end, 26, SourceAt(h, at), SumAt(h, at));
    SourceParse(h, at, id, l4);
    ValidExactly(g, ip, to, n, at, end);
  }

  /** To another destination, it does unless it is one of the spoilt packets. */
  lemma {:induction false} DestinationKeepsSum(
      f: seq<Byte>, g: seq<Byte>, from: Ip, to: Ip, h: Header, n: Header, at: nat, end: nat, l4: L4, ip: Ip, id: U16)
    requires Sound(f, from, to, h, at, end) && l4 == Parsed(h, at) && n == ToId(h, id)
    requires ParseL4(f) == Some(l4) && g == Rewrite(f, l4, Dst, ip, id)
    requires IsPacketOf(g, from, ip, n, at) && OnlyDiffersAt(f, g, 30, DestinationAt(h, at), SumAt(h, at))
    ensures WellFormed(f, l4) && IsComplete(g, n, at, end)
    ensures SumsRight(g, from, ip, n, at, end) <==> !Spoilt(f, l4, id)
  {
    SoundIs(f, from, to, h, at, end, l4);
    RewriteKeepsChecksum(f, l4, Dst, ip, id);
    LengthKept(f, g, h, n, at, end, 30, DestinationAt(h, at), SumAt(h, at));
    SourceParse(h, at, id, l4);
    ValidExactly(g, from, ip, n, at, end);
  }
}
