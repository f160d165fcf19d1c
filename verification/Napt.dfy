/** Parsing and rewriting IPv4 frames in place, and what the rewrite does to the L4 checksum. */
module Napt {
  import opened Wire
  import opened NatTable
  import C = Checksum

  const ETHERTYPE_IPV4: U16 := 0x0800
  const IPPROTO_ICMP: Byte := 1
  const IPPROTO_TCP: Byte := 6
  const IPPROTO_UDP: Byte := 17
  const ETH: nat := 14

  datatype L4 = L4(proto: Proto, off: nat, srcId: U16, dstId: U16, csumOff: nat, flags: Byte)

  function Rd16(f: seq<Byte>, i: nat): U16
    requires i + 1 < |f|
  {
    Be16(f[i], f[i + 1])
  }

  function Wr16(f: seq<Byte>, i: nat, v: U16): (r: seq<Byte>)
    requires i + 1 < |f|
    ensures |r| == |f|
  {
    f[i := v / 0x100][i + 1 := v % 0x100]
  }

  function WrIp(f: seq<Byte>, i: nat, ip: Ip): (r: seq<Byte>)
    requires i + 3 < |f|
    ensures |r| == |f|
  {
    f[i := ip.a][i + 1 := ip.b][i + 2 := ip.c][i + 3 := ip.d]
  }

  function RdIp(f: seq<Byte>, i: nat): Ip
    requires i + 3 < |f|
  {
    Ip(f[i], f[i + 1], f[i + 2], f[i + 3])
  }

  function Ihl(f: seq<Byte>): nat
    requires |f| > ETH
  {
    f[ETH] % 16 * 4
  }

  /** L4 offsets, ids and TCP flags; None for anything NAPT does not handle. */
  function ParseL4(f: seq<Byte>): Option<L4> {
    if |f| < ETH + 20 || Rd16(f, 12) != ETHERTYPE_IPV4 || Ihl(f) < 20 then None
    else
      var l4 := ETH + Ihl(f);
      if f[ETH + 9] == IPPROTO_TCP && |f| >= l4 + 20 then
        Some(L4(Tcp, l4, Rd16(f, l4), Rd16(f, l4 + 2), l4 + 16, f[l4 + 13]))
      else if f[ETH + 9] == IPPROTO_UDP && |f| >= l4 + 8 then
        Some(L4(Udp, l4, Rd16(f, l4), Rd16(f, l4 + 2), l4 + 6, 0))
      else if f[ETH + 9] == IPPROTO_ICMP && |f| >= l4 + 8 && (f[l4] == 0 || f[l4] == 8) then
        Some(L4(IcmpEcho, l4, Rd16(f, l4 + 4), 0, l4 + 2, 0))
      else None
  }

  // ---- The rewrite ----

  /** Which end of the packet is rewritten. */
  datatype Side = Src | Dst

  function IpOff(side: Side): nat { if side == Src then 26 else 30 }

  function IdOff(l4: L4, side: Side): nat {
    if l4.proto == IcmpEcho then l4.off + 4 else if side == Src then l4.off else l4.off + 2
  }

  /** The (old, new) words whose change the checksum must absorb. */
  function WordChanges(f: seq<Byte>, l4: L4, side: Side, ip: Ip, id: U16): seq<(U16, U16)>
    requires ParseL4(f) == Some(l4)
  {
    var (oh, ol) := AddrWords(RdIp(f, IpOff(side)));
    var (nh, nl) := AddrWords(ip);
    var port := (Rd16(f, IdOff(l4, side)), id);
    if l4.proto == IcmpEcho then [port] else [(oh, nh), (ol, nl), port]
  }

  /** UDP checksum field 0 means "no checksum". */
  predicate ChecksumDisabled(f: seq<Byte>, l4: L4)
    requires ParseL4(f) == Some(l4)
  {
    l4.proto == Udp && Rd16(f, l4.csumOff) == 0
  }

  ghost function Rewrite(f: seq<Byte>, l4: L4, side: Side, ip: Ip, id: U16): (r: seq<Byte>)
    requires ParseL4(f) == Some(l4)
    ensures |r| == |f|
  {
    var g := if ChecksumDisabled(f, l4) then f
             else Wr16(f, l4.csumOff, C.Incr(Rd16(f, l4.csumOff), WordChanges(f, l4, side, ip, id)));
    WrIp(Wr16(g, IdOff(l4, side), id), IpOff(side), ip)
  }

  method WriteWord(f: array<Byte>, i: nat, v: U16)
    requires i + 1 < f.Length
    modifies f
    ensures f[..] == Wr16(old(f[..]), i, v)
  {
    f[i] := v / 0x100;
    f[i + 1] := v % 0x100;
  }

  method WriteIp(f: array<Byte>, i: nat, ip: Ip)
    requires i + 3 < f.Length
    modifies f
    ensures f[..] == WrIp(old(f[..]), i, ip)
  {
    f[i], f[i + 1], f[i + 2], f[i + 3] := ip.a, ip.b, ip.c, ip.d;
  }

  /** `napt_rewrite_src`: new source address and port/echo id, L4 checksum fixed up. */
  method NaptRewriteSrc(f: array<Byte>, l4: L4, ip: Ip, id: U16)
    requires ParseL4(f[..]) == Some(l4)
    modifies f
    ensures f[..] == Rewrite(old(f[..]), l4, Src, ip, id)
  {
    if l4.proto == IcmpEcho {
      var c := C.ChecksumIncr(Rd16(f[..], l4.csumOff), [(Rd16(f[..], l4.off + 4), id)]);
      WriteWord(f, l4.csumOff, c);
      WriteWord(f, l4.off + 4, id);
    } else {
      var oldCsum := Rd16(f[..], l4.csumOff);
      if !(l4.proto == Udp && oldCsum == 0) {
        var (oh, ol) := AddrWords(RdIp(f[..], 26));
        var (nh, nl) := AddrWords(ip);
        var c := C.ChecksumIncr(oldCsum, [(oh, nh), (ol, nl), (Rd16(f[..], l4.off), id)]);
        WriteWord(f, l4.csumOff, c);
      }
      WriteWord(f, l4.off, id);
    }
    WriteIp(f, 26, ip);
  }

  /** `napt_rewrite_dst`: new destination address and port/echo id, L4 checksum fixed up. */
  method NaptRewriteDst(f: array<Byte>, l4: L4, ip: Ip, id: U16)
    requires ParseL4(f[..]) == Some(l4)
    modifies f
    ensures f[..] == Rewrite(old(f[..]), l4, Dst, ip, id)
  {
    if l4.proto == IcmpEcho {
      var c := C.ChecksumIncr(Rd16(f[..], l4.csumOff), [(Rd16(f[..], l4.off + 4), id)]);
      WriteWord(f, l4.csumOff, c);
      WriteWord(f, l4.off + 4, id);
    } else {
      var oldCsum := Rd16(f[..], l4.csumOff);
      if !(l4.proto == Udp && oldCsum == 0) {
        var (oh, ol) := AddrWords(RdIp(f[..], 30));
        var (nh, nl) := AddrWords(ip);
        var c := C.ChecksumIncr(oldCsum, [(oh, nh), (ol, nl), (Rd16(f[..], l4.off + 2), id)]);
        WriteWord(f, l4.csumOff, c);
      }
      WriteWord(f, l4.off + 2, id);
    }
    WriteIp(f, 30, ip);
  }
}
