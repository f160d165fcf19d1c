/** NAPT on the WAN device: outgoing frames are translated through the table, replies are
    translated back. */
module Forward {
  import opened Wire
  import opened NatTable
  import opened NatState
  import opened NatRuns
  import opened NatFlows
  import opened Napt
  import opened NaptChecksum
  import opened Packets

  type Mac = s: seq<Byte> | |s| == 6 witness [0, 0, 0, 0, 0, 0]

  /** The flow of an outgoing frame; an echo is keyed on its id alone. */
  function TupleOf(f: seq<Byte>, l4: L4): Tuple
    requires ParseL4(f) == Some(l4)
  {
    Tuple(l4.proto, RdIp(f, 26), l4.srcId, RdIp(f, 30), if l4.proto == IcmpEcho then 0 else l4.dstId)
  }

  /** Translate an outgoing frame: the new table and the frame to forward, None to drop it. */
  ghost function Egress(tb: Table, f: seq<Byte>, ourIp: Ip, now: nat): (Table, Option<seq<Byte>>)
    requires |tb.slots| == CT_CAP
  {
    match ParseL4(f)
    case None => (tb, Some(f))
    case Some(l4) =>
      var r := Outbound(tb, TupleOf(f, l4), l4.flags, now);
      (r.0, if r.1.Some? then Some(Rewrite(f, l4, Src, ourIp, r.1.value)) else None)
  }

  /** The remote id and WAN id an incoming frame carries. */
  function RemoteId(l4: L4): U16 { if l4.proto == IcmpEcho then 0 else l4.srcId }

  function WanId(l4: L4): U16 { if l4.proto == IcmpEcho then l4.srcId else l4.dstId }

  /** Unicast to us at both layers, once we have an address. */
  predicate ForUs(f: seq<Byte>, ourMac: Mac, ourIp: Ip) {
    ourIp != UNSPECIFIED && |f| >= ETH + 20 && f[..6] == ourMac
    && Rd16(f, 12) == ETHERTYPE_IPV4 && RdIp(f, 30) == ourIp
  }

  /** Match an incoming frame: the new table and the rewritten transit frame, or None when it is
      not NAT traffic and ordinary classification decides. */
  ghost function Ingress(tb: Table, f: seq<Byte>, ourMac: Mac, ourIp: Ip, now: nat)
    : (Table, Option<seq<Byte>>)
  {
    if !ForUs(f, ourMac, ourIp) then (tb, None)
    else
      match ParseL4(f)
      case None => (tb, None)
      case Some(l4) =>
        var r := Inbound(tb, l4.proto, RdIp(f, 26), RemoteId(l4), WanId(l4), l4.flags, now);
        (r.0, if r.1.Some? then Some(Rewrite(f, l4, Dst, r.1.value.0, r.1.value.1)) else None)
  }

  class WanDevice {
    const ct: Conntrack
    const ourMac: Mac
    var ourIp: Ip

    constructor (mac: Mac)
      ensures ct.Valid() && ct.State() == INITIAL && fresh(ct) && fresh(ct.slots)
      ensures ourMac == mac && ourIp == UNSPECIFIED
    {
      ct := new Conntrack();
      ourMac := mac;
      ourIp := UNSPECIFIED;
    }

    /** NAPT half of `egress`. */
    method TranslateOut(frame: array<Byte>, now: nat) returns (forward: bool)
      requires ct.Valid()
      modifies ct, ct.slots, frame
      ensures ct.Valid()
      ensures ct.State() == Egress(old(ct.State()), old(frame[..]), ourIp, now).0
      ensures var out := Egress(old(ct.State()), old(frame[..]), ourIp, now).1;
              forward == out.Some? && frame[..] == if forward then out.value else old(frame[..])
    {
      var p := ParseL4(frame[..]);
      if p.None? {
        return true;
      }
      var l4 := p.value;
      var id := ct.Outbound(TupleOf(frame[..], l4), l4.flags, now);
      assert frame[..] == old(frame[..]);
      if id.None? {
        return false;
      }
      NaptRewriteSrc(frame, l4, ourIp, id.value);
      forward := true;
    }

    /** NAT half of `classify_frame`. */
    method TranslateIn(frame: array<Byte>, now: nat) returns (transit: bool)
      requires ct.Valid()
      modifies ct, ct.slots, frame
      ensures ct.Valid()
      ensures ct.State() == Ingress(old(ct.State()), old(frame[..]), ourMac, ourIp, now).0
      ensures var out := Ingress(old(ct.State()), old(frame[..]), ourMac, ourIp, now).1;
              transit == out.Some? && frame[..] == if transit then out.value else old(frame[..])
    {
      if !ForUs(frame[..], ourMac, ourIp) {
        return false;
      }
      var p := ParseL4(frame[..]);
      if p.None? {
        return false;
      }
      var l4 := p.value;
      var m := ct.Inbound(l4.proto, RdIp(frame[..], 26), RemoteId(l4), WanId(l4), l4.flags, now);
      assert frame[..] == old(frame[..]);
      if m.None? {
        return false;
      }
      NaptRewriteDst(frame, l4, m.value.0, m.value.1);
      transit := true;
    }
  }

  // ---- Frames that are not translated ----

  /** Frames that are no whole TCP, UDP or echo packet pass, in either direction, with frame and
      table as they were. */
  lemma {:induction false} OtherFramesPass(tb: Table, f: seq<Byte>, ourMac: Mac, ourIp: Ip, now: nat)
    requires |tb.slots| == CT_CAP
    requires forall from, to, h, at :: !IsPacketOf(f, from, to, h, at)
    ensures Egress(tb, f, ourIp, now) == (tb, Some(f))
    ensures Ingress(tb, f, ourMac, ourIp, now) == (tb, None)
  {
    if ParseL4(f).Some? {
      var from, to, h, at := OnlyPacketsParse(f);
      assert false;
    }
  }

  /** Nor is any frame translated coming in that is addressed to another MAC or IP address than
      ours, or while we have none. */
  lemma {:induction false} OnlyOursComeIn(tb: Table, f: seq<Byte>, ourMac: Mac, ourIp: Ip, now: nat)
    requires |f| < 34 || f[..6] != ourMac || [f[30], f[31], f[32], f[33]] != [ourIp.a, ourIp.b, ourIp.c, ourIp.d]
             || ourIp == Ip(0, 0, 0, 0)
    ensures Ingress(tb, f, ourMac, ourIp, now) == (tb, None)
  {
  }

  // ---- A translated packet and its reply ----

  /** g is f from another source, with its checksum kept right, or unused. */
  ghost predicate SentAs(f: seq<Byte>, from: Ip, to: Ip, h: Header, at: nat, g: seq<Byte>, ip: Ip, id: U16) {
    && IsPacketOf(f, from, to, h, at) && IsPacketOf(g, ip, to, FromId(h, id), at)
    && OnlyDiffersAt(f, g, 26, SourceAt(h, at), SumAt(h, at))
    && (Unsummed(f, h, at) ==> Unsummed(g, h, at))
    && forall end :: Sound(f, from, to, h, at, end) ==>
         IsComplete(g, FromId(h, id), at, end) && SumsRight(g, ip, to, FromId(h, id), at, end)
  }

  lemma {:induction false} EgressOf(
      ops: seq<Op>, f: seq<Byte>, from: Ip, to: Ip, h: Header, at: nat, ourIp: Ip, now: nat)
    returns (w: U16)
    requires IsPacketOf(f, from, to, h, at)
    ensures 49152 <= w <= 65535 && ParseL4(f) == Some(Parsed(h, at))
    ensures Outbound(Run(ops), Flow(from, to, h), Flags(h), now)
            == (Run(ops + [Out(Flow(from, to, h), Flags(h), now)]), Some(w))
    ensures Egress(Run(ops), f, ourIp, now)
            == (Run(ops + [Out(Flow(from, to, h), Flags(h), now)]), Some(Rewrite(f, Parsed(h, at), Src, ourIp, w)))
  {
    var t, all := Flow(from, to, h), ops + [Out(Flow(from, to, h), Flags(h), now)];
    assert all[..|ops|] == ops;
    PacketParses(f, from, to, h, at);
    OutboundAlwaysTranslates(ops, t, Flags(h), now);
    w := Outbound(Run(ops), t, Flags(h), now).1.value;
  }

  /** In every reachable state every TCP, UDP or echo packet that goes out, laid out as the RFCs have
      it and with any IP options, is entered under its own flow and flags and leaves with our
      address and an id from 49152 up, nothing else changed but the checksum, which stays right. */
  lemma {:induction false} EgressAlwaysTranslates(
      ops: seq<Op>, f: seq<Byte>, from: Ip, to: Ip, h: Header, at: nat, ourIp: Ip, now: nat)
    returns (w: U16, g: seq<Byte>)
    requires IsPacketOf(f, from, to, h, at)
    ensures 49152 <= w <= 65535 && SentAs(f, from, to, h, at, g, ourIp, w)
    ensures Egress(Run(ops), f, ourIp, now) == (Run(ops + [Out(Flow(from, to, h), Flags(h), now)]), Some(g))
  {
    w := EgressOf(ops, f, from, to, h, at, ourIp, now);
    g := Rewrite(f, Parsed(h, at), Src, ourIp, w);
    SourceRewritten(f, from, to, h, at, ourIp, w);
    forall end | Sound(f, from, to, h, at, end)
      ensures IsComplete(g, FromId(h, w), at, end) && SumsRight(g, ourIp, to, FromId(h, w), at, end)
    {
      SourceKeepsSum(f, g, from, to, h, FromId(h, w), at, end, Parsed(h, at), ourIp, w);
    }
  }

  // ---- Replies ----

  /** The port or echo id a header comes from, and the one it goes to. */
  ghost function SourceId(h: Header): U16 { if h.EchoHeader? then h.id else h.src }

  ghost function DestinationId(h: Header): U16 { if h.EchoHeader? then h.id else h.dst }

  /** `reply` answers `sent`: the same protocol, ports exchanged, an echo with the same id. */
  ghost predicate Answers(reply: Header, sent: Header) {
    match sent
    case TcpHeader(src, dst, _) => reply.TcpHeader? && reply.src == dst && reply.dst == src
    case UdpHeader(src, dst) => reply == UdpHeader(dst, src)
    case EchoHeader(_, id) => reply.EchoHeader? && reply.id == id
  }

  /** The table operation of a packet that comes in. */
  ghost function Arrival(from: Ip, h: Header, now: nat): Op {
    match h
    case TcpHeader(src, dst, flags) => In(Tcp, from, src, dst, flags, now)
    case UdpHeader(src, dst) => In(Udp, from, src, dst, 0, now)
    case EchoHeader(_, id) => In(IcmpEcho, from, 0, id, 0, now)
  }

  /** The flow of a client's packets to which this packet is an answer. */
  ghost function ClientFlow(ip: Ip, id: U16, from: Ip, h: Header): Tuple {
    match h
    case TcpHeader(src, _, _) => Tuple(Tcp, ip, id, from, src)
    case UdpHeader(src, _) => Tuple(Udp, ip, id, from, src)
    case EchoHeader(_, _) => Tuple(IcmpEcho, ip, id, from, 0)
  }

  /** g is f to another destination, its checksum kept right but for the spoilt packets, or unused. */
  ghost predicate ReceivedAs(f: seq<Byte>, from: Ip, to: Ip, h: Header, at: nat, g: seq<Byte>, ip: Ip, id: U16) {
    && IsPacketOf(f, from, to, h, at) && IsPacketOf(g, from, ip, ToId(h, id), at)
    && OnlyDiffersAt(f, g, 30, DestinationAt(h, at), SumAt(h, at))
    && (Unsummed(f, h, at) ==> Unsummed(g, h, at))
    && forall end :: Sound(f, from, to, h, at, end) ==>
         && WellFormed(f, Parsed(h, at)) && IsComplete(g, ToId(h, id), at, end)
         && (SumsRight(g, from, ip, ToId(h, id), at, end) <==> !Spoilt(f, Parsed(h, at), id))
  }

  lemma {:induction false} RewrittenFor(
      f: seq<Byte>, from: Ip, to: Ip, h: Header, at: nat, g: seq<Byte>, ip: Ip, id: U16)
    requires IsPacketOf(f, from, to, h, at) && ParseL4(f) == Some(Parsed(h, at))
    requires g == Rewrite(f, Parsed(h, at), Dst, ip, id)
    ensures ReceivedAs(f, from, to, h, at, g, ip, id)
  {
    DestinationRewritten(f, from, to, h, at, ip, id);
    forall end | Sound(f, from, to, h, at, end)
      ensures WellFormed(f, Parsed(h, at)) && IsComplete(g, ToId(h, id), at, end)
      ensures SumsRight(g, from, ip, ToId(h, id), at, end) <==> !Spoilt(f, Parsed(h, at), id)
    {
      DestinationKeepsSum(f, g, from, to, h, ToId(h, id), at, end, Parsed(h, at), ip, id);
    }
  }

  /** A packet sent to us at both layers is matched by its own fields. */
  lemma {:induction false} IngressOf(
      ops: seq<Op>, f: seq<Byte>, from: Ip, h: Header, at: nat, ourMac: Mac, ourIp: Ip, op: Op, now: nat)
    requires IsPacketOf(f, from, ourIp, h, at) && f[..6] == ourMac && ourIp != Ip(0, 0, 0, 0)
    requires op == Arrival(from, h, now)
    ensures ParseL4(f) == Some(Parsed(h, at))
    ensures var r := Inbound(Run(ops), op.proto, from, op.remoteId, op.wanId, op.flags, now);
            && r.0 == Run(ops + [op])
            && Ingress(Run(ops), f, ourMac, ourIp, now)
               == (r.0, if r.1.Some? then Some(Rewrite(f, Parsed(h, at), Dst, r.1.value.0, r.1.value.1)) else None)
  {
    assert (ops + [op])[..|ops|] == ops;
    PacketParses(f, from, ourIp, h, at);
  }

  lemma {:induction false} SentUnder(
      ops: seq<Op>, m: nat, f: seq<Byte>, from: Ip, to: Ip, h: Header, at: nat, g: seq<Byte>, ourIp: Ip, w: U16)
    requires 1 <= m <= |ops| && ops[m - 1] == Out(Flow(from, to, h), Flags(h), ops[m - 1].now)
    requires IsPacketOf(f, from, to, h, at) && IsPacketOf(g, ourIp, to, FromId(h, w), at)
    requires Egress(Run(ops[..m - 1]), f, ourIp, ops[m - 1].now).1 == Some(g)
    ensures Gave(ops, m - 1, Flow(from, to, h), w)
  {
    var v := EgressOf(ops[..m - 1], f, from, to, h, at, ourIp, ops[m - 1].now);
    SourceRewritten(f, from, to, h, at, ourIp, v);
    assert Word(g, SourceAt(h, at)) == v == w;
  }

  lemma AnswerIsFrom(from: Ip, to: Ip, h: Header, rh: Header, w: U16, now: nat)
    requires Answers(rh, FromId(h, w))
    ensures var key, op := Flow(from, to, h), Arrival(to, rh, now);
            op.proto == key.proto && to == key.dstIp && op.remoteId == key.dstId && op.wanId == w
            && key.srcIp == from && key.srcId == SourceId(h)
  {
  }

  /** The whole translation at frame level. A packet is sent as operation m-1 of a run and leaves as
      g under id w. Whatever happens next, under the conditions of LruSurvival, a timely answer to
      g, sent to our MAC and IP address, is rewritten for exactly the address and port (or echo
      id) it came from, nothing else changed but the checksum, and that right unless `Spoilt`. */
  lemma {:induction false} ReplyFrameReachesSender(
      ops: seq<Op>, m: nat, f: seq<Byte>, from: Ip, to: Ip, h: Header, at: nat, g: seq<Byte>, w: U16,
      reply: seq<Byte>, rh: Header, rat: nat, ourMac: Mac, ourIp: Ip, now: nat)
    returns (out: seq<Byte>)
    requires 1 <= m <= |ops| && ops[m - 1] == Out(Flow(from, to, h), Flags(h), ops[m - 1].now)
    requires IsPacketOf(f, from, to, h, at) && IsPacketOf(g, ourIp, to, FromId(h, w), at)
    requires Egress(Run(ops[..m - 1]), f, ourIp, ops[m - 1].now).1 == Some(g)
    requires IsPacketOf(reply, to, ourIp, rh, rat) && Answers(rh, FromId(h, w))
    requires reply[..6] == ourMac && ourIp != Ip(0, 0, 0, 0)
    requires Sheltered(History(ops), m, Flow(from, to, h)) && Unexpired(Run(ops), Flow(from, to, h), now)
    ensures Ingress(Run(ops), reply, ourMac, ourIp, now) == (Run(ops + [Arrival(to, rh, now)]), Some(out))
    ensures ReceivedAs(reply, to, ourIp, rh, rat, out, from, SourceId(h))
  {
    var key, op := Flow(from, to, h), Arrival(to, rh, now);
    SentUnder(ops, m, f, from, to, h, at, g, ourIp, w);
    AnswerIsFrom(from, to, h, rh, w, now);
    ReplyReachesSender(ops, m, key, w, op.flags, now);
    IngressOf(ops, reply, to, rh, rat, ourMac, ourIp, op, now);
    out := Rewrite(reply, Parsed(rh, rat), Dst, from, SourceId(h));
    RewrittenFor(reply, to, ourIp, rh, rat, out, from, SourceId(h));
  }

  /** A frame accepted as a reply is a packet that goes to a client that earlier sent to its source
      and had that sent under the id the packet came to. */
  lemma {:induction false} IngressNeverMisdelivers(
      ops: seq<Op>, f: seq<Byte>, out: seq<Byte>, ourMac: Mac, ourIp: Ip, now: nat)
    returns (from: Ip, h: Header, at: nat, ip: Ip, id: U16, j: nat)
    requires Ingress(Run(ops), f, ourMac, ourIp, now).1 == Some(out)
    ensures f[..6] == ourMac && ReceivedAs(f, from, ourIp, h, at, out, ip, id)
    ensures Gave(ops, j, ClientFlow(ip, id, from, h), DestinationId(h))
  {
    var to;
    from, to, h, at := OnlyPacketsParse(f);
    PacketParses(f, from, to, h, at);
    var op := Arrival(from, h, now);
    IngressOf(ops, f, from, h, at, ourMac, ourIp, op, now);
    j := NoMisdelivery(ops, op.proto, from, op.remoteId, op.wanId, op.flags, now);
    ip, id := Inbound(Run(ops), op.proto, from, op.remoteId, op.wanId, op.flags, now).1.value.0,
              Inbound(Run(ops), op.proto, from, op.remoteId, op.wanId, op.flags, now).1.value.1;
    RewrittenFor(f, from, ourIp, h, at, out, ip, id);
  }
}
