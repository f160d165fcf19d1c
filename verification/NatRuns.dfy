/** Runs of table operations from power-up, and the invariants every run keeps. */
module NatRuns {
  import opened Wire
  import opened NatTable
  import opened Sets

  datatype Op =
    | Out(t: Tuple, flags: Byte, now: nat)
    | In(proto: Proto, remoteIp: Ip, remoteId: U16, wanId: U16, flags: Byte, now: nat)
    | Sweep(now: nat)

  function Step(tb: Table, op: Op): (r: Table)
    requires |tb.slots| == CT_CAP
    ensures |r.slots| == CT_CAP
  {
    match op
    case Out(t, flags, now) => Outbound(tb, t, flags, now).0
    case In(proto, rip, rid, wid, flags, now) => Inbound(tb, proto, rip, rid, wid, flags, now).0
    case Sweep(now) => Reap(tb, now)
  }

  function Run(ops: seq<Op>): (r: Table)
    ensures |r.slots| == CT_CAP
  {
    if ops == [] then INITIAL else Step(Run(ops[..|ops| - 1]), ops[|ops| - 1])
  }

  // ---- The table invariant ----

  ghost predicate DistinctIds(s: seq<Entry>) {
    forall i, j :: 0 <= i < j < |s| && s[i].used && s[j].used ==> s[i].wanId != s[j].wanId
  }

  ghost predicate DistinctKeys(s: seq<Entry>) {
    forall i, j :: 0 <= i < j < |s| && s[i].used && s[j].used ==> s[i].key != s[j].key
  }

  ghost predicate IdsInRange(s: seq<Entry>) {
    forall i :: 0 <= i < |s| && s[i].used ==> NAT_LO <= s[i].wanId <= NAT_HI
  }

  ghost function CountUsed(s: seq<Entry>): nat {
    if s == [] then 0 else (if s[0].used then 1 else 0) + CountUsed(s[1..])
  }

  /** NAT_NEW = NAT_LIVE + NAT_EVICT, for counters that wrap. */
  ghost predicate Balanced(made: U32, live: U32, evict: U32) {
    (made - live - evict) % U32_SPAN == 0
  }

  /** WAN ids of the used slots. */
  ghost function LiveIds(s: seq<Entry>): set<int> {
    set i | 0 <= i < |s| && s[i].used :: s[i].wanId as int
  }

  ghost predicate Inv(tb: Table) {
    && |tb.slots| == CT_CAP
    && NAT_LO <= tb.cursor <= NAT_HI
    && IdsInRange(tb.slots) && DistinctIds(tb.slots) && DistinctKeys(tb.slots)
    && tb.natLive == CountUsed(tb.slots)
    && Balanced(tb.natNew, tb.natLive, tb.natEvict)
    && tb.natDrop == 0
  }

  lemma {:induction false} CountUpdate(s: seq<Entry>, i: nat, e: Entry)
    requires i < |s|
    ensures CountUsed(s[i := e])
            == CountUsed(s) - (if s[i].used then 1 else 0) + (if e.used then 1 else 0)
  {
    if i == 0 {
      assert s[0 := e][1..] == s[1..];
    } else {
      assert s[i := e][1..] == s[1..][i - 1 := e];
      CountUpdate(s[1..], i - 1, e);
    }
  }

  lemma {:induction false} CountBound(s: seq<Entry>)
    ensures CountUsed(s) <= |s|
    ensures (forall i :: 0 <= i < |s| ==> !s[i].used) ==> CountUsed(s) == 0
    ensures forall i :: 0 <= i < |s| && s[i].used ==> CountUsed(s) >= 1
  {
    if s != [] {
      CountBound(s[1..]);
      forall i | 0 <= i < |s| && s[i].used
        ensures CountUsed(s) >= 1
      {
        if i > 0 {
          assert s[1..][i - 1].used;
        }
      }
    }
  }

  lemma {:induction false} LiveIdsSize(s: seq<Entry>)
    ensures |LiveIds(s)| <= |s|
  {
    if s != [] {
      var n := |s| - 1;
      LiveIdsSize(s[..n]);
      assert LiveIds(s) <= LiveIds(s[..n]) + {s[n].wanId as int} by {
        forall x | x in LiveIds(s)
          ensures x in LiveIds(s[..n]) || x == s[n].wanId
        {
          var i :| 0 <= i < |s| && s[i].used && s[i].wanId == x;
          assert i < n ==> s[..n][i] == s[i];
        }
      }
      SubsetSize(LiveIds(s), LiveIds(s[..n]) + {s[n].wanId as int});
      UnionSize(LiveIds(s[..n]), {s[n].wanId as int});
    }
  }

  lemma {:induction false} InUseIsLive(s: seq<Entry>, id: U16)
    ensures IdInUse(s, id) <==> id in LiveIds(s)
  {
    var i := First(s, HasId(id));
    if i < |s| {
      assert Hit(HasId(id), s[i]);
    }
  }

  // ---- Allocation ----

  /** The id `k` places after `c` on the circle NAT_LO..NAT_HI. */
  function Ahead(c: U16, k: nat): U16
    requires NAT_LO <= c <= NAT_HI
  {
    NAT_LO + (c - NAT_LO + k) % SPAN
  }

  lemma ModShift(k: nat)
    ensures (k + SPAN) % SPAN == k % SPAN
  {
  }

  lemma {:induction false} AheadNext(c: U16, k: nat)
    requires NAT_LO <= c <= NAT_HI
    ensures NAT_LO <= Next(c) <= NAT_HI
    ensures Ahead(Next(c), k) == Ahead(c, k + 1)
    ensures Ahead(c, 0) == c
  {
    if c == NAT_HI {
      assert (SPAN - 1 + (k + 1)) % SPAN == k % SPAN by { ModShift(k); }
    }
  }

  /** What a successful search has done: skipped n ids in use, taken the next. */
  lemma {:induction false} ProbeFound(s: seq<Entry>, c: U16, fuel: nat) returns (n: nat)
    requires NAT_LO <= c <= NAT_HI
    ensures n <= fuel
    ensures forall k :: 0 <= k < n ==> Ahead(c, k) in LiveIds(s)
    ensures Probe(s, c, fuel).0.None? <==> n == fuel
    ensures n < fuel ==> Probe(s, c, fuel) == (Some(Ahead(c, n)), Ahead(c, n + 1))
                         && Ahead(c, n) !in LiveIds(s)
    ensures n == fuel ==> Probe(s, c, fuel).1 == Ahead(c, n)
    decreases fuel
  {
    AheadNext(c, 0);
    if fuel == 0 {
      n := 0;
      return;
    }
    InUseIsLive(s, c);
    if !IdInUse(s, c) {
      n := 0;
    } else {
      var m := ProbeFound(s, Next(c), fuel - 1);
      n := m + 1;
      AheadNext(c, m);
      AheadNext(c, m + 1);
      forall k | 0 <= k < n
        ensures Ahead(c, k) in LiveIds(s)
      {
        if k > 0 {
          AheadNext(c, k - 1);
        }
      }
    }
  }

  ghost function AheadSet(c: U16, n: nat): set<int>
    requires NAT_LO <= c <= NAT_HI
  {
    set k | 0 <= k < n :: Ahead(c, k) as int
  }

  lemma AheadDistinct(c: U16, j: nat, k: nat)
    requires NAT_LO <= c <= NAT_HI && j < k < j + SPAN
    ensures Ahead(c, j) != Ahead(c, k)
  {
  }

  lemma {:induction false} AheadSetSize(c: U16, n: nat)
    requires NAT_LO <= c <= NAT_HI && n <= SPAN
    ensures |AheadSet(c, n)| == n
  {
    if n > 0 {
      AheadSetSize(c, n - 1);
      assert AheadSet(c, n) == AheadSet(c, n - 1) + {Ahead(c, n - 1) as int};
      forall k | 0 <= k < n - 1
        ensures Ahead(c, k) != Ahead(c, n - 1)
      {
        AheadDistinct(c, k, n - 1);
      }
    }
  }

  /** Pigeonhole: 64 slots cannot occupy 65 consecutive ids, so a search always ends within
      65 probes, on an id of the NAT range that no live flow uses. */
  lemma {:induction false} AllocNeverFails(tb: Table) returns (n: nat)
    requires |tb.slots| == CT_CAP && NAT_LO <= tb.cursor <= NAT_HI
    ensures n <= CT_CAP
    ensures forall k :: 0 <= k < n ==> Ahead(tb.cursor, k) in LiveIds(tb.slots)
    ensures Probe(tb.slots, tb.cursor, SPAN) == (Some(Ahead(tb.cursor, n)), Ahead(tb.cursor, n + 1))
    ensures NAT_LO <= Ahead(tb.cursor, n) <= NAT_HI && Ahead(tb.cursor, n) !in LiveIds(tb.slots)
  {
    n := ProbeFound(tb.slots, tb.cursor, SPAN);
    if n > CT_CAP {
      AheadSetSize(tb.cursor, CT_CAP + 1);
      assert AheadSet(tb.cursor, CT_CAP + 1) <= LiveIds(tb.slots);
      SubsetSize(AheadSet(tb.cursor, CT_CAP + 1), LiveIds(tb.slots));
      LiveIdsSize(tb.slots);
      assert false;
    }
  }

  // ---- Every step keeps the invariant ----

  lemma {:induction false} TouchKeepsInv(s: seq<Entry>, i: nat, flags: Byte, now: nat)
    requires i < |s| && s[i].used
    ensures var u := s[i := Touched(s[i], flags, now)];
            CountUsed(u) == CountUsed(s)
            && (IdsInRange(s) ==> IdsInRange(u))
            && (DistinctIds(s) ==> DistinctIds(u))
            && (DistinctKeys(s) ==> DistinctKeys(u))
  {
    CountUpdate(s, i, Touched(s[i], flags, now));
  }

  lemma BalancedFill(made: U32, live: U32, evict: U32)
    requires Balanced(made, live, evict) && live < CT_CAP
    ensures Balanced(Inc(made), Inc(live), evict) && Inc(live) == live + 1
  {
  }

  lemma BalancedReplace(made: U32, live: U32, evict: U32)
    requires Balanced(made, live, evict)
    ensures Balanced(Inc(made), live, Inc(evict))
  {
  }

  lemma BalancedFree(made: U32, live: U32, evict: U32)
    requires Balanced(made, live, evict) && live > 0
    ensures Balanced(made, Dec(live), Inc(evict)) && Dec(live) == live - 1
  {
  }

  lemma {:induction false} InsertKeepsDistinct(s: seq<Entry>, idx: nat, e: Entry)
    requires idx < |s| && IdsInRange(s) && DistinctIds(s) && DistinctKeys(s)
    requires NAT_LO <= e.wanId <= NAT_HI && e.wanId !in LiveIds(s)
    requires forall j :: 0 <= j < |s| && s[j].used ==> s[j].key != e.key
    ensures var u := s[idx := e]; IdsInRange(u) && DistinctIds(u) && DistinctKeys(u)
  {
    assert forall j :: 0 <= j < |s| && s[j].used ==> s[j].wanId in LiveIds(s);
  }

  /** A new flow: the state after it, slot by slot. */
  lemma {:induction false} OutboundNew(tb: Table, t: Tuple, flags: Byte, now: nat) returns (n: nat, idx: nat)
    requires Inv(tb) && First(tb.slots, OutKey(t)) == |tb.slots|
    ensures n <= CT_CAP && idx == PickSlot(tb.slots, now) && Expendable(tb.slots, idx, now)
    ensures forall k :: 0 <= k < n ==> Ahead(tb.cursor, k) in LiveIds(tb.slots)
    ensures var w := Ahead(tb.cursor, n);
            var r := Outbound(tb, t, flags, now);
            && NAT_LO <= w <= NAT_HI && w !in LiveIds(tb.slots)
            && r.1 == Some(w)
            && r.0.cursor == Ahead(tb.cursor, n + 1)
            && r.0.slots == tb.slots[idx := Entry(true, t, w, now, NextTcpState(New, flags))]
  {
    n := AllocNeverFails(tb);
    idx := PickSlot(tb.slots, now);
    PicksExpendable(tb.slots, now);
  }

  lemma {:induction false} OutboundKeepsInv(tb: Table, t: Tuple, flags: Byte, now: nat)
    requires Inv(tb)
    ensures Inv(Outbound(tb, t, flags, now).0)
    ensures Outbound(tb, t, flags, now).1.Some?
  {
    var i := First(tb.slots, OutKey(t));
    if i < |tb.slots| {
      assert Hit(OutKey(t), tb.slots[i]);
      TouchKeepsInv(tb.slots, i, flags, now);
    } else {
      var n, idx := OutboundNew(tb, t, flags, now);
      var e := Entry(true, t, Ahead(tb.cursor, n), now, NextTcpState(New, flags));
      forall j | 0 <= j < |tb.slots| && tb.slots[j].used
        ensures tb.slots[j].key != t
      {
        assert !Hit(OutKey(t), tb.slots[j]);
      }
      InsertKeepsDistinct(tb.slots, idx, e);
      CountUpdate(tb.slots, idx, e);
      CountBound(tb.slots[idx := e]);
      if tb.slots[idx].used {
        BalancedReplace(tb.natNew, tb.natLive, tb.natEvict);
      } else {
        BalancedFill(tb.natNew, tb.natLive, tb.natEvict);
      }
    }
  }

  lemma FreeKeepsDistinct(s: seq<Entry>, i: nat, e: Entry)
    requires i < |s| && !e.used && IdsInRange(s) && DistinctIds(s) && DistinctKeys(s)
    ensures var u := s[i := e]; IdsInRange(u) && DistinctIds(u) && DistinctKeys(u)
  {
  }

  lemma {:induction false} ReapKeepsInv(tb: Table, n: nat, now: nat)
    requires Inv(tb) && n <= |tb.slots|
    ensures Inv(ReapUpTo(tb, n, now))
  {
    if n > 0 {
      ReapKeepsInv(tb, n - 1, now);
      var b := ReapUpTo(tb, n - 1, now);
      var e := tb.slots[n - 1];
      if e.used && e.Stale(now) {
        assert b.slots[n - 1] == e;
        CountUpdate(b.slots, n - 1, e.(used := false));
        CountBound(b.slots);
        FreeKeepsDistinct(b.slots, n - 1, e.(used := false));
        BalancedFree(b.natNew, b.natLive, b.natEvict);
      }
    }
  }

  lemma {:induction false} StepKeepsInv(tb: Table, op: Op)
    requires Inv(tb)
    ensures Inv(Step(tb, op))
  {
    match op
    case Out(t, flags, now) => OutboundKeepsInv(tb, t, flags, now);
    case In(proto, rip, rid, wid, flags, now) =>
      var i := First(tb.slots, InKey(proto, rip, rid, wid, now));
      if i < |tb.slots| {
        assert Hit(InKey(proto, rip, rid, wid, now), tb.slots[i]);
        TouchKeepsInv(tb.slots, i, flags, now);
      }
    case Sweep(now) => ReapKeepsInv(tb, |tb.slots|, now);
  }

  /** In every reachable state: used slots have pairwise distinct WAN ids in the NAT range and
      pairwise distinct flow keys, the cursor is in range, NAT_LIVE counts the used slots,
      NAT_NEW = NAT_LIVE + NAT_EVICT (as wrapping counters), and nothing was ever dropped. */
  lemma {:induction false} RunKeepsInv(ops: seq<Op>)
    ensures Inv(Run(ops))
  {
    if ops == [] {
      CountBound(INITIAL.slots);
    } else {
      RunKeepsInv(ops[..|ops| - 1]);
      StepKeepsInv(Run(ops[..|ops| - 1]), ops[|ops| - 1]);
    }
  }

  /** Whatever came before, a new flow takes the slot that is expendable and leaves the others. */
  lemma {:induction false} NewFlowTakesExpendable(ops: seq<Op>, t: Tuple, flags: Byte, now: nat) returns (idx: nat)
    requires First(Run(ops).slots, OutKey(t)) == CT_CAP
    ensures Expendable(Run(ops).slots, idx, now)
    ensures var e := Outbound(Run(ops), t, flags, now).0.slots[idx];
            && e.used && e.key == t && e.lastSeen == now
            && Outbound(Run(ops), t, flags, now).0.slots == Run(ops).slots[idx := e]
  {
    RunKeepsInv(ops);
    var n;
    n, idx := OutboundNew(Run(ops), t, flags, now);
  }

  /** Outbound never refuses a packet in a reachable state. */
  lemma {:induction false} OutboundAlwaysTranslates(ops: seq<Op>, t: Tuple, flags: Byte, now: nat)
    ensures Outbound(Run(ops), t, flags, now).1.Some?
    ensures NAT_LO <= Outbound(Run(ops), t, flags, now).1.value <= NAT_HI
  {
    RunKeepsInv(ops);
    OutboundKeepsInv(Run(ops), t, flags, now);
    var i := First(Run(ops).slots, OutKey(t));
    if i < |Run(ops).slots| {
      assert Hit(OutKey(t), Run(ops).slots[i]);
    } else {
      var n := AllocNeverFails(Run(ops));
    }
  }

  /** An id below the NAT range, such as the router's own ping id 0x42, is never matched. */
  lemma {:induction false} OwnIdsNeverMatch(
      ops: seq<Op>, proto: Proto, rip: Ip, rid: U16, wid: U16, flags: Byte, now: nat)
    requires wid < NAT_LO
    ensures Inbound(Run(ops), proto, rip, rid, wid, flags, now) == (Run(ops), None)
  {
    RunKeepsInv(ops);
    var i := First(Run(ops).slots, InKey(proto, rip, rid, wid, now));
    if i < |Run(ops).slots| {
      assert false;
    }
  }
}
