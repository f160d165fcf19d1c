/** What a sweep leaves, and what the counters count. */
module NatCounts {
  import opened Wire
  import opened NatTable
  import opened NatRuns
  import opened NatFlows

  // ---- A sweep ----

  ghost predicate Unexpiring(e: Entry, now: nat) { e.used && !e.Stale(now) }

  ghost function CountUnexpired(s: seq<Entry>, now: nat): nat {
    if s == [] then 0 else (if Unexpiring(s[0], now) then 1 else 0) + CountUnexpired(s[1..], now)
  }

  /** Swept slots hold exactly the unexpired flows. */
  ghost predicate Swept(before: seq<Entry>, after: seq<Entry>, now: nat) {
    && |after| == |before|
    && forall i :: 0 <= i < |before| ==>
         (after[i].used <==> Unexpiring(before[i], now)) && (after[i].used ==> after[i] == before[i])
  }

  lemma {:induction false} SweptCount(before: seq<Entry>, after: seq<Entry>, now: nat)
    requires Swept(before, after, now)
    ensures CountUsed(after) == CountUnexpired(before, now)
    decreases |before|
  {
    if before != [] {
      SweptCount(before[1..], after[1..], now);
    }
  }

  /** After a sweep no used slot is stale, every unexpired flow is as it was, and NAT_LIVE is their
      number. */
  lemma {:induction false} SweepLeavesUnexpired(ops: seq<Op>, now: nat)
    ensures var before, after := Run(ops), Run(ops + [Sweep(now)]);
            && Swept(before.slots, after.slots, now)
            && (forall i :: 0 <= i < CT_CAP && after.slots[i].used ==> !after.slots[i].Stale(now))
            && after.natLive == CountUnexpired(before.slots, now)
            && after.cursor == before.cursor
  {
    var all := ops + [Sweep(now)];
    assert all[..|ops|] == ops;
    forall i | 0 <= i < CT_CAP
      ensures Run(all).slots[i] == Reaped(Run(ops).slots[i], now)
    {
      ReapSlot(Run(ops), i, now);
    }
    RunKeepsInv(all);
    SweptCount(Run(ops).slots, Run(all).slots, now);
  }

  // ---- The counters ----

  ghost predicate Opens(tb: Table, op: Op)
    requires |tb.slots| == CT_CAP
  {
    op.Out? && forall i :: 0 <= i < CT_CAP ==> !(tb.slots[i].used && tb.slots[i].key == op.t)
  }

  ghost predicate Delivers(tb: Table, op: Op)
    requires |tb.slots| == CT_CAP
  {
    op.In? && Inbound(tb, op.proto, op.remoteIp, op.remoteId, op.wanId, op.flags, op.now).1.Some?
  }

  /** Packets sent, replies delivered and flows opened so far. */
  datatype Tally = Tally(sent: nat, delivered: nat, begun: nat)

  ghost function TallyOf(ops: seq<Op>): Tally {
    if ops == [] then Tally(0, 0, 0)
    else
      var prev, op := ops[..|ops| - 1], ops[|ops| - 1];
      var n := TallyOf(prev);
      Tally(n.sent + (if op.Out? then 1 else 0),
            n.delivered + (if Delivers(Run(prev), op) then 1 else 0),
            n.begun + (if Opens(Run(prev), op) then 1 else 0))
  }

  /** c is the count n as far as 32 bits go. */
  ghost predicate Shows(c: U32, n: nat) { c == n % U32_SPAN }

  lemma ShowsNext(c: U32, n: nat, k: nat)
    requires Shows(c, n) && k == n + 1
    ensures Shows(Inc(c), k)
  {
  }

  lemma {:induction false} OpensExactly(tb: Table, op: Op)
    requires |tb.slots| == CT_CAP && op.Out?
    ensures Opens(tb, op) <==> First(tb.slots, OutKey(op.t)) == |tb.slots|
  {
    var f := First(tb.slots, OutKey(op.t));
    assert forall i :: 0 <= i < f ==> !Hit(OutKey(op.t), tb.slots[i]);
    assert f < |tb.slots| ==> Hit(OutKey(op.t), tb.slots[f]);
  }

  lemma {:induction false} SweepCounters(tb: Table, n: nat, now: nat)
    requires n <= |tb.slots|
    ensures var r := ReapUpTo(tb, n, now);
            r.natOut == tb.natOut && r.natIn == tb.natIn && r.natNew == tb.natNew
  {
    if n > 0 {
      SweepCounters(tb, n - 1, now);
    }
  }

  /** One operation on the three counters. */
  lemma {:induction false} CountersStep(tb: Table, op: Op)
    requires Inv(tb)
    ensures var r := Step(tb, op);
            && r.natOut == (if op.Out? then Inc(tb.natOut) else tb.natOut)
            && r.natIn == (if Delivers(tb, op) then Inc(tb.natIn) else tb.natIn)
            && r.natNew == (if Opens(tb, op) then Inc(tb.natNew) else tb.natNew)
  {
    match op
    case Out(t, flags, now) =>
      OpensExactly(tb, op);
      if Opens(tb, op) {
        var n, idx := OutboundNew(tb, t, flags, now);
      }
    case In(_, _, _, _, _, _) =>
    case Sweep(now) => SweepCounters(tb, |tb.slots|, now);
  }

  /** In every reachable state, as 32-bit counts: NAT_OUT is the packets sent, NAT_IN the replies
      delivered, NAT_NEW the flows opened. */
  lemma {:induction false} CountersCount(ops: seq<Op>)
    ensures Shows(Run(ops).natOut, TallyOf(ops).sent)
    ensures Shows(Run(ops).natIn, TallyOf(ops).delivered)
    ensures Shows(Run(ops).natNew, TallyOf(ops).begun)
  {
    if ops != [] {
      var prev, op := ops[..|ops| - 1], ops[|ops| - 1];
      var tb, n := Run(prev), TallyOf(prev);
      CountersCount(prev);
      RunKeepsInv(prev);
      CountersStep(tb, op);
      ShowsNext(tb.natOut, n.sent, n.sent + 1);
      ShowsNext(tb.natIn, n.delivered, n.delivered + 1);
      ShowsNext(tb.natNew, n.begun, n.begun + 1);
    }
  }

  /** Flows lost and flows live make up all flows opened. */
  ghost predicate Accounts(evict: U32, live: nat, begun: nat) {
    (evict + live) % U32_SPAN == begun % U32_SPAN
  }

  lemma LostIsTheRest(made: U32, live: U32, evict: U32, begun: nat)
    requires Balanced(made, live, evict) && Shows(made, begun)
    ensures Accounts(evict, live, begun)
  {
  }

  /** NAT_EVICT and the flows still live together are all flows opened: it counts those lost,
      overwritten or swept. */
  lemma {:induction false} EvictedAreTheRest(ops: seq<Op>)
    ensures Accounts(Run(ops).natEvict, CountUsed(Run(ops).slots), TallyOf(ops).begun)
  {
    CountersCount(ops);
    RunKeepsInv(ops);
    LostIsTheRest(Run(ops).natNew, Run(ops).natLive, Run(ops).natEvict, TallyOf(ops).begun);
  }
}
