/** The NAPT connection-tracking table, its operations written on values. */
module NatTable {
  import opened Wire

  datatype Proto = Tcp | Udp | IcmpEcho

  /** LAN-side outbound 5-tuple. */
  datatype Tuple = Tuple(proto: Proto, srcIp: Ip, srcId: U16, dstIp: Ip, dstId: U16)

  const NAT_LO: U16 := 49152
  const NAT_HI: U16 := 65535
  const SPAN: nat := 16384
  const CT_CAP: nat := 64

  const T_TCP_EST: nat := 60_000
  const T_TCP_TRANS: nat := 10_000
  const T_UDP: nat := 30_000
  const T_ICMP: nat := 10_000

  datatype TcpState = New | Established | Closing

  /** A table slot. `key` holds the source's lan_ip, lan_id, remote_ip, remote_id and proto. */
  datatype Entry = Entry(used: bool, key: Tuple, wanId: U16, lastSeen: nat, tcp: TcpState)
  {
    function TimeoutMs(): nat {
      match key.proto
      case Udp => T_UDP
      case IcmpEcho => T_ICMP
      case Tcp => if tcp == Established then T_TCP_EST else T_TCP_TRANS
    }

    predicate Stale(now: nat) { SatSub(now, lastSeen) >= TimeoutMs() }
  }

  const UNSPECIFIED := Ip(0, 0, 0, 0)
  const EMPTY := Entry(false, Tuple(Udp, UNSPECIFIED, 0, UNSPECIFIED, 0), 0, 0, New)

  /** Coarse TCP state; FIN is bit 0, SYN bit 1, RST bit 2 of the flags byte. */
  function NextTcpState(cur: TcpState, flags: Byte): TcpState {
    if flags % 2 == 1 || (flags / 4) % 2 == 1 then Closing
    else if (flags / 2) % 2 == 1 then (if cur == Closing then cur else New)
    else Established
  }

  // ---- Linear search ----

  datatype Query =
    | OutKey(t: Tuple)
    | InKey(proto: Proto, remoteIp: Ip, remoteId: U16, wanId: U16, now: nat)
    | HasId(id: U16)
    | Unused
    | Expired(when: nat)

  predicate Hit(q: Query, e: Entry) {
    match q
    case OutKey(t) => e.used && e.key == t
    case InKey(proto, rip, rid, wid, now) =>
      e.used && e.key.proto == proto && e.wanId == wid && e.key.dstIp == rip && e.key.dstId == rid
      && !e.Stale(now)
    case HasId(id) => e.used && e.wanId == id
    case Unused => !e.used
    case Expired(now) => e.Stale(now)
  }

  /** Index of the first slot that `q` hits, or the length. */
  function First(s: seq<Entry>, q: Query): (i: nat)
    ensures i <= |s|
    ensures forall j :: 0 <= j < i ==> !Hit(q, s[j])
    ensures i < |s| ==> Hit(q, s[i])
  {
    if s == [] || Hit(q, s[0]) then 0 else 1 + First(s[1..], q)
  }

  lemma FirstIs(s: seq<Entry>, q: Query, i: nat)
    requires i <= |s| && (i < |s| ==> Hit(q, s[i]))
    requires forall j :: 0 <= j < i ==> !Hit(q, s[j])
    ensures First(s, q) == i
  {
  }

  // ---- Operations on values ----

  /** Slots, allocation cursor and the module's counters. */
  datatype Table = Table(slots: seq<Entry>, cursor: U16,
                         natOut: U32, natIn: U32, natNew: U32, natEvict: U32, natDrop: U32, natLive: U32)

  /** n empty slots. */
  function Blank(n: nat): (s: seq<Entry>)
    ensures |s| == n && forall i :: 0 <= i < n ==> s[i] == EMPTY
  {
    if n == 0 then [] else Blank(n - 1) + [EMPTY]
  }

  const INITIAL := Table(Blank(CT_CAP), NAT_LO, 0, 0, 0, 0, 0, 0)

  function Next(id: U16): U16 { if id == NAT_HI then NAT_LO else (id + 1) % 0x1_0000 }

  predicate IdInUse(slots: seq<Entry>, id: U16) { First(slots, HasId(id)) < |slots| }

  /** At most `fuel` probes from the cursor; the id found, if any, and the cursor after it. */
  function Probe(slots: seq<Entry>, cursor: U16, fuel: nat): (Option<U16>, U16)
    decreases fuel
  {
    if fuel == 0 then (None, cursor)
    else if !IdInUse(slots, cursor) then (Some(cursor), Next(cursor))
    else Probe(slots, Next(cursor), fuel - 1)
  }

  /** Index of the least `lastSeen` among the first n slots, lowest index on ties. */
  function Oldest(s: seq<Entry>, n: nat): (i: nat)
    requires 1 <= n <= |s|
    ensures i < n
    ensures forall j :: 0 <= j < n ==> s[i].lastSeen <= s[j].lastSeen
  {
    if n == 1 then 0
    else
      var best := Oldest(s, n - 1);
      if s[n - 1].lastSeen < s[best].lastSeen then n - 1 else best
  }

  /** Where a new entry goes: free slots come first, then expired ones, then the flow idle longest. */
  function PickSlot(s: seq<Entry>, now: nat): (i: nat)
    requires |s| == CT_CAP
    ensures i < |s|
  {
    if First(s, Unused) < |s| then First(s, Unused)
    else if First(s, Expired(now)) < |s| then First(s, Expired(now))
    else Oldest(s, |s|)
  }

  ghost predicate AllUsed(s: seq<Entry>) { forall j :: 0 <= j < |s| ==> s[j].used }

  ghost predicate NoneStale(s: seq<Entry>, now: nat) { forall j :: 0 <= j < |s| ==> !s[j].Stale(now) }

  /** Slot i is the one to give up: an unused one if there is any, else a stale one if there is any,
      else one seen no later than any other; the first of its kind. */
  ghost predicate Expendable(s: seq<Entry>, i: nat, now: nat) {
    && i < |s|
    && (!AllUsed(s) ==> !s[i].used && AllUsed(s[..i]))
    && (AllUsed(s) && !NoneStale(s, now) ==> s[i].Stale(now) && NoneStale(s[..i], now))
    && (AllUsed(s) && NoneStale(s, now) ==>
          forall j :: 0 <= j < |s| ==>
            if j < i then s[i].lastSeen < s[j].lastSeen else s[i].lastSeen <= s[j].lastSeen)
  }

  lemma {:induction false} OldestIsFirst(s: seq<Entry>, n: nat)
    requires 1 <= n <= |s|
    ensures forall j :: 0 <= j < Oldest(s, n) ==> s[Oldest(s, n)].lastSeen < s[j].lastSeen
  {
    if n > 1 {
      OldestIsFirst(s, n - 1);
    }
  }

  lemma {:induction false} FirstUnused(s: seq<Entry>)
    ensures AllUsed(s) <==> First(s, Unused) == |s|
    ensures AllUsed(s[..First(s, Unused)])
  {
    var f := First(s, Unused);
    assert forall j :: 0 <= j < f ==> !Hit(Unused, s[j]);
    assert f < |s| ==> Hit(Unused, s[f]);
  }

  lemma {:induction false} FirstStale(s: seq<Entry>, now: nat)
    ensures NoneStale(s, now) <==> First(s, Expired(now)) == |s|
    ensures NoneStale(s[..First(s, Expired(now))], now)
  {
    var f := First(s, Expired(now));
    assert forall j :: 0 <= j < f ==> !Hit(Expired(now), s[j]);
    assert f < |s| ==> Hit(Expired(now), s[f]);
  }

  /** The choice, whatever the table. */
  lemma {:induction false} PicksExpendable(s: seq<Entry>, now: nat)
    requires |s| == CT_CAP
    ensures Expendable(s, PickSlot(s, now), now)
  {
    FirstUnused(s);
    FirstStale(s, now);
    OldestIsFirst(s, |s|);
    var i := PickSlot(s, now);
    assert i == First(s, Unused) < |s| ==> Hit(Unused, s[i]);
    assert i == First(s, Expired(now)) < |s| ==> Hit(Expired(now), s[i]);
  }

  function Touched(e: Entry, flags: Byte, now: nat): Entry {
    e.(lastSeen := now, tcp := NextTcpState(e.tcp, flags))
  }

  /** Enter a new flow under WAN id `w`. */
  function Insert(tb: Table, t: Tuple, w: U16, flags: Byte, now: nat): (r: Table)
    requires |tb.slots| == CT_CAP
    ensures |r.slots| == CT_CAP
  {
    var idx := PickSlot(tb.slots, now);
    tb.(slots := tb.slots[idx := Entry(true, t, w, now, NextTcpState(New, flags))],
        natLive := if tb.slots[idx].used then tb.natLive else Inc(tb.natLive),
        natEvict := if tb.slots[idx].used then Inc(tb.natEvict) else tb.natEvict,
        natNew := Inc(tb.natNew),
        natOut := Inc(tb.natOut))
  }

  function Outbound(tb: Table, t: Tuple, flags: Byte, now: nat): (r: (Table, Option<U16>))
    requires |tb.slots| == CT_CAP
    ensures |r.0.slots| == CT_CAP
  {
    var i := First(tb.slots, OutKey(t));
    if i < |tb.slots| then
      (tb.(slots := tb.slots[i := Touched(tb.slots[i], flags, now)], natOut := Inc(tb.natOut)),
       Some(tb.slots[i].wanId))
    else
      var p := Probe(tb.slots, tb.cursor, SPAN);
      match p.0
      case None => (tb.(cursor := p.1, natDrop := Inc(tb.natDrop)), None)
      case Some(w) => (Insert(tb.(cursor := p.1), t, w, flags, now), Some(w))
  }

  function Inbound(tb: Table, proto: Proto, remoteIp: Ip, remoteId: U16, wanId: U16, flags: Byte, now: nat)
    : (r: (Table, Option<(Ip, U16)>))
    ensures |r.0.slots| == |tb.slots|
  {
    var i := First(tb.slots, InKey(proto, remoteIp, remoteId, wanId, now));
    if i < |tb.slots| then
      (tb.(slots := tb.slots[i := Touched(tb.slots[i], flags, now)], natIn := Inc(tb.natIn)),
       Some((tb.slots[i].key.srcIp, tb.slots[i].key.srcId)))
    else (tb, None)
  }

  ghost function Reaped(e: Entry, now: nat): Entry {
    if e.used && e.Stale(now) then e.(used := false) else e
  }

  /** Sweep the first n slots. */
  function ReapUpTo(tb: Table, n: nat, now: nat): (r: Table)
    requires n <= |tb.slots|
    ensures |r.slots| == |tb.slots|
    ensures forall j :: n <= j < |tb.slots| ==> r.slots[j] == tb.slots[j]
    ensures forall j :: 0 <= j < n ==> r.slots[j] == Reaped(tb.slots[j], now)
    ensures r.cursor == tb.cursor && r.natNew == tb.natNew && r.natDrop == tb.natDrop
  {
    if n == 0 then tb
    else
      var b := ReapUpTo(tb, n - 1, now);
      var e := tb.slots[n - 1];
      if e.used && e.Stale(now) then
        b.(slots := b.slots[n - 1 := e.(used := false)],
           natLive := Dec(b.natLive), natEvict := Inc(b.natEvict))
      else b
  }

  function Reap(tb: Table, now: nat): (r: Table)
    ensures |r.slots| == |tb.slots|
  {
    ReapUpTo(tb, |tb.slots|, now)
  }
}
