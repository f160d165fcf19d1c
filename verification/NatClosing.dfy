/** The timeout a flow is under after each packet, and how long a closing TCP flow stays closing. */
module NatClosing {
  import opened Wire
  import opened NatTable
  import opened NatRuns
  import opened NatFlows

  /** The packet carries FIN, SYN or RST. */
  predicate Marked(flags: Byte) { flags % 8 != 0 }

  function FlagsOf(op: Op): Byte {
    match op
    case Out(_, flags, _) => flags
    case In(_, _, _, _, flags, _) => flags
    case Sweep(_) => 0
  }

  /** Closing is left on every packet without FIN, SYN or RST, and then for established. */
  lemma {:induction false} ClosingStep(flags: Byte)
    ensures NextTcpState(Closing, flags) == if Marked(flags) then Closing else Established
  {
  }

  /** Milliseconds until a flow expires whose last packet had these flags: 60 s for an established
      TCP flow, 10 s for one opening or closing, 30 s for UDP and 10 s for ICMP. */
  ghost function TimeoutAfter(proto: Proto, flags: Byte): nat {
    match proto
    case Tcp => if flags % 8 == 0 then 60_000 else 10_000
    case Udp => 30_000
    case IcmpEcho => 10_000
  }

  /** Flag arithmetic: FIN is bit 0, SYN bit 1, RST bit 2. */
  lemma EstablishedExactlyUnmarked(cur: TcpState, flags: Byte)
    ensures NextTcpState(cur, flags) == Established <==> flags % 8 == 0
  {
  }

  lemma EntryTimeout(e: Entry, cur: TcpState, flags: Byte)
    requires e.tcp == NextTcpState(cur, flags)
    ensures e.TimeoutMs() == TimeoutAfter(e.key.proto, flags)
  {
    EstablishedExactlyUnmarked(cur, flags);
  }

  /** The state that a touch starts from: the entry's own, or that of a new entry. */
  lemma {:induction false} TouchedFrom(tb: Table, op: Op, i: nat, key: Tuple) returns (cur: TcpState)
    requires Inv(tb) && i < CT_CAP && Touch(tb, op) == Some(key)
    requires Step(tb, op).slots[i].used && Step(tb, op).slots[i].key == key
    ensures Step(tb, op).slots[i].tcp == NextTcpState(cur, FlagsOf(op))
    ensures tb.slots[i].used && tb.slots[i].key == key ==> cur == tb.slots[i].tcp
  {
    match op
    case Out(t, flags, now) =>
      var f := First(tb.slots, OutKey(t));
      if f < |tb.slots| {
        assert Hit(OutKey(t), tb.slots[f]);
        cur := tb.slots[f].tcp;
      } else {
        var n, idx := OutboundNew(tb, t, flags, now);
        assert !Hit(OutKey(t), tb.slots[i]);
        cur := New;
      }
    case In(proto, rip, rid, wid, flags, now) =>
      var f := First(tb.slots, InKey(proto, rip, rid, wid, now));
      assert Hit(InKey(proto, rip, rid, wid, now), tb.slots[f]);
      cur := tb.slots[f].tcp;
  }

  /** After any packet of a flow, new or known, in whatever state, sent or received: it is expired
      from its last packet's timeout on and not before. For TCP that is sixty seconds exactly if
      the packet carried none of FIN, SYN and RST, and ten otherwise. */
  lemma {:induction false} TimeoutIsOfLastPacket(ops: seq<Op>, op: Op, i: nat, key: Tuple, now: nat)
    requires i < CT_CAP && Touch(Run(ops), op) == Some(key)
    requires Run(ops + [op]).slots[i].used && Run(ops + [op]).slots[i].key == key
    ensures Run(ops + [op]).slots[i].Stale(now) <==> now >= op.now + TimeoutAfter(key.proto, FlagsOf(op))
  {
    assert (ops + [op])[..|ops|] == ops;
    RunKeepsInv(ops);
    TouchedIsCurrent(Run(ops), op, i, key);
    var cur := TouchedFrom(Run(ops), op, i, key);
    EntryTimeout(Run(ops + [op]).slots[i], cur, FlagsOf(op));
  }

  /** One operation on a slot that its flow keeps. */
  lemma {:induction false} ClosingOperation(tb: Table, op: Op, i: nat, key: Tuple, w: U16)
    requires Inv(tb) && i < CT_CAP && Holds(tb.slots[i], key, w) && Holds(Step(tb, op).slots[i], key, w)
    requires tb.slots[i].tcp == Closing
    ensures Step(tb, op).slots[i].tcp
            == if Touch(tb, op) == Some(key) && !Marked(FlagsOf(op)) then Established else Closing
  {
    StepSlot(tb, op, i);
    ClosingStep(FlagsOf(op));
    if Touch(tb, op) == Some(key) {
      var cur := TouchedFrom(tb, op, i, key);
    }
  }

  /** Slot i holds the flow after operation m-1 and after every later one. */
  ghost predicate Keeps(ops: seq<Op>, m: nat, i: nat, key: Tuple, w: U16) {
    m <= |ops| && i < CT_CAP && forall n :: m <= n <= |ops| ==> Holds(Run(ops[..n]).slots[i], key, w)
  }

  /** Every packet of the flow from operation m on, outbound or matched inbound, is marked. */
  ghost predicate AllMarked(h: seq<Visit>, m: nat, key: Tuple) {
    forall j :: m <= j < |h| && h[j].touch == Some(key) ==> Marked(FlagsOf(h[j].op))
  }

  /** The entry in slot i after n operations. */
  ghost function EntryAfter(ops: seq<Op>, n: nat, i: nat): Entry
    requires n <= |ops| && i < CT_CAP
  {
    Run(ops[..n]).slots[i]
  }

  ghost predicate StaysClosing(ops: seq<Op>, m: nat, i: nat)
    requires m <= |ops| && i < CT_CAP
  {
    forall n :: m <= n <= |ops| ==> EntryAfter(ops, n, i).tcp == Closing
  }

  /** The flow's timeout stays at the ten seconds of a closing flow. */
  ghost predicate TimeoutStays(ops: seq<Op>, m: nat, i: nat)
    requires m <= |ops| && i < CT_CAP
  {
    forall n :: m <= n <= |ops| ==> EntryAfter(ops, n, i).TimeoutMs() <= T_TCP_TRANS
  }

  lemma {:induction false} PrefixRuns(ops: seq<Op>, k: nat, n: nat)
    requires k < |ops| && n == k + 1
    ensures Run(ops[..n]) == Step(Run(ops[..k]), ops[k])
  {
    assert ops[..n][..k] == ops[..k];
  }

  /** Operation k, counted from 0, on a flow that is closing when it comes. */
  lemma {:induction false} ClosingNext(ops: seq<Op>, m: nat, k: nat, n: nat, i: nat, key: Tuple, w: U16)
    requires Keeps(ops, m, i, key, w) && m <= k < |ops| && n == k + 1
    requires EntryAfter(ops, k, i).tcp == Closing
    ensures var v := History(ops)[k];
            EntryAfter(ops, n, i).tcp
            == if v.touch == Some(key) && !Marked(FlagsOf(v.op)) then Established else Closing
  {
    PrefixRuns(ops, k, n);
    RunKeepsInv(ops[..k]);
    HistoryAt(ops, k);
    ClosingOperation(Run(ops[..k]), ops[k], i, key, w);
  }

  lemma {:induction false} StaysIfMarked(ops: seq<Op>, m: nat, n: nat, i: nat, key: Tuple, w: U16)
    requires Keeps(ops, m, i, key, w) && m <= n <= |ops| && AllMarked(History(ops), m, key)
    requires EntryAfter(ops, m, i).tcp == Closing
    ensures EntryAfter(ops, n, i).tcp == Closing
    decreases n
  {
    if m < n {
      StaysIfMarked(ops, m, n - 1, i, key, w);
      ClosingNext(ops, m, n - 1, n, i, key, w);
    }
  }

  /** The moment at which the state is first no longer closing: then it is established. */
  lemma {:induction false} FirstLeft(ops: seq<Op>, m: nat, n: nat, i: nat, key: Tuple, w: U16) returns (j: nat)
    requires Keeps(ops, m, i, key, w) && m <= n <= |ops| && EntryAfter(ops, m, i).tcp == Closing
    requires EntryAfter(ops, n, i).tcp != Closing
    ensures m < j <= n && EntryAfter(ops, j, i).tcp == Established
    decreases n
  {
    var k: nat := n - 1;
    if EntryAfter(ops, k, i).tcp == Closing {
      j := n;
      ClosingNext(ops, m, k, n, i, key, w);
    } else {
      j := FirstLeft(ops, m, k, i, key, w);
    }
  }

  /** A closing flow stays closing, over any run in which it keeps its slot, if and only if each of
      its later packets carries FIN, SYN or RST. */
  lemma {:induction false} ClosingExactlyWhileMarked(ops: seq<Op>, m: nat, i: nat, key: Tuple, w: U16)
    requires Keeps(ops, m, i, key, w) && EntryAfter(ops, m, i).tcp == Closing
    ensures StaysClosing(ops, m, i) <==> AllMarked(History(ops), m, key)
  {
    if AllMarked(History(ops), m, key) {
      forall n | m <= n <= |ops|
        ensures EntryAfter(ops, n, i).tcp == Closing
      {
        StaysIfMarked(ops, m, n, i, key, w);
      }
    } else {
      var j :| m <= j < |ops| && History(ops)[j].touch == Some(key) && !Marked(FlagsOf(History(ops)[j].op));
      if EntryAfter(ops, j, i).tcp == Closing {
        ClosingNext(ops, m, j, j + 1, i, key, w);
      }
    }
  }

  /** For a TCP flow that is exactly when its timeout does not grow again. */
  lemma {:induction false} TimeoutStaysExactlyWhileMarked(ops: seq<Op>, m: nat, i: nat, key: Tuple, w: U16)
    requires Keeps(ops, m, i, key, w) && EntryAfter(ops, m, i).tcp == Closing && key.proto == Tcp
    ensures TimeoutStays(ops, m, i) <==> AllMarked(History(ops), m, key)
  {
    ClosingExactlyWhileMarked(ops, m, i, key, w);
    if !StaysClosing(ops, m, i) {
      var n :| m <= n <= |ops| && EntryAfter(ops, n, i).tcp != Closing;
      var j := FirstLeft(ops, m, n, i, key, w);
      assert EntryAfter(ops, j, i).TimeoutMs() == T_TCP_EST;
    }
  }

  /** The first packet of a fresh table takes slot 0. */
  lemma {:induction false} FirstPacket(t: Tuple, flags: Byte, now: nat)
    ensures Holds(Run([Out(t, flags, now)]).slots[0], t, NAT_LO)
    ensures Run([Out(t, flags, now)]).slots[0].tcp == NextTcpState(New, flags)
  {
    assert [Out(t, flags, now)][..0] == [];
    assert First(INITIAL.slots, OutKey(t)) == |INITIAL.slots|;
    assert First(INITIAL.slots, HasId(NAT_LO)) == |INITIAL.slots|;
    assert First(INITIAL.slots, Unused) == 0;
  }

  /** It does grow: a FIN makes the flow closing, a plain ACK one millisecond later puts it under
      the sixty seconds of an established flow. */
  lemma {:induction false} PlainAckReopens(t: Tuple)
    requires t.proto == Tcp
    ensures var fin, ack := Out(t, 1, 0), Out(t, 16, 1);
            && Keeps([fin, ack], 1, 0, t, NAT_LO)
            && Run([fin]).slots[0].tcp == Closing && Run([fin]).slots[0].TimeoutMs() == T_TCP_TRANS
            && Run([fin, ack]).slots[0].tcp == Established
            && Run([fin, ack]).slots[0].TimeoutMs() == T_TCP_EST
  {
    var fin, ack := Out(t, 1, 0), Out(t, 16, 1);
    var ops := [fin, ack];
    assert ops[..1] == [fin] && ops[..2] == ops;
    FirstPacket(t, 1, 0);
    assert Hit(OutKey(t), Run([fin]).slots[0]);
    assert First(Run([fin]).slots, OutKey(t)) == 0;
  }
}
