/** What happens to a flow over a run: where its entry came from, when it can be evicted,
    and to whom a reply is delivered. */
module NatFlows {
  import opened Wire
  import opened NatTable
  import opened NatRuns
  import opened Sets

  /** The flow an operation creates or refreshes, if any. */
  function Touch(tb: Table, op: Op): Option<Tuple>
    requires |tb.slots| == CT_CAP
  {
    match op
    case Out(t, flags, now) => if Outbound(tb, t, flags, now).1.Some? then Some(t) else None
    case In(proto, rip, rid, wid, flags, now) =>
      var i := First(tb.slots, InKey(proto, rip, rid, wid, now));
      if i < |tb.slots| then Some(tb.slots[i].key) else None
    case Sweep(_) => None
  }

  ghost predicate Holds(e: Entry, key: Tuple, w: U16) { e.used && e.key == key && e.wanId == w }

  ghost predicate LiveAs(tb: Table, key: Tuple, w: U16) {
    exists i :: 0 <= i < |tb.slots| && Holds(tb.slots[i], key, w)
  }

  /** Packet j of the run was sent by flow t and translated to WAN id w. */
  ghost predicate Gave(ops: seq<Op>, j: nat, t: Tuple, w: U16) {
    j < |ops| && ops[j].Out? && ops[j].t == t
    && Outbound(Run(ops[..j]), t, ops[j].flags, ops[j].now).1 == Some(w)
  }

  // ---- One step, slot by slot ----

  lemma ReapSlot(tb: Table, i: nat, now: nat)
    requires i < |tb.slots|
    ensures Reap(tb, now).slots[i] == Reaped(tb.slots[i], now)
  {
  }

  /** A slot in use after a step was there before, unchanged, or the step touched it. */
  lemma {:induction false} StepSlot(tb: Table, op: Op, i: nat)
    requires Inv(tb) && i < CT_CAP && Step(tb, op).slots[i].used
    ensures var o, e := tb.slots[i], Step(tb, op).slots[i];
            || e == o
            || (&& e.lastSeen == op.now && Touch(tb, op) == Some(e.key)
                && (Holds(o, e.key, e.wanId)
                    || (op.Out? && op.t == e.key
                        && Outbound(tb, op.t, op.flags, op.now).1 == Some(e.wanId))))
  {
    match op
    case Out(t, flags, now) =>
      var f := First(tb.slots, OutKey(t));
      if f < |tb.slots| {
        assert Hit(OutKey(t), tb.slots[f]);
      } else {
        var n, idx := OutboundNew(tb, t, flags, now);
      }
    case In(proto, rip, rid, wid, flags, now) =>
      var f := First(tb.slots, InKey(proto, rip, rid, wid, now));
      if f < |tb.slots| {
        assert Hit(InKey(proto, rip, rid, wid, now), tb.slots[f]);
      }
    case Sweep(now) => ReapSlot(tb, i, now);
  }

  // ---- No misdelivery ----

  lemma {:induction false} GaveExtends(ops: seq<Op>, op: Op, j: nat, t: Tuple, w: U16)
    requires Gave(ops, j, t, w)
    ensures Gave(ops + [op], j, t, w)
  {
    assert (ops + [op])[..j] == ops[..j];
  }

  lemma {:induction false} EveryEntryWasGiven(ops: seq<Op>, i: nat) returns (j: nat)
    requires i < CT_CAP && Run(ops).slots[i].used
    ensures Gave(ops, j, Run(ops).slots[i].key, Run(ops).slots[i].wanId)
    decreases |ops|
  {
    var n := |ops| - 1;
    var prev, op, tb := ops[..n], ops[n], Run(ops[..n]);
    assert ops == prev + [op];
    RunKeepsInv(prev);
    StepSlot(tb, op, i);
    var e := Run(ops).slots[i];
    if e == tb.slots[i] || Holds(tb.slots[i], e.key, e.wanId) {
      j := EveryEntryWasGiven(prev, i);
      GaveExtends(prev, op, j, e.key, e.wanId);
    } else {
      j := n;
    }
  }

  /** A reply is only ever delivered to a LAN client that earlier sent a packet to that very
      remote and had it translated to that very WAN id. */
  lemma {:induction false} NoMisdelivery(ops: seq<Op>, proto: Proto, rip: Ip, rid: U16, wid: U16, flags: Byte, now: nat)
    returns (j: nat)
    requires Inbound(Run(ops), proto, rip, rid, wid, flags, now).1.Some?
    ensures var (ip, id) := Inbound(Run(ops), proto, rip, rid, wid, flags, now).1.value;
            Gave(ops, j, Tuple(proto, ip, id, rip, rid), wid)
  {
    var s := Run(ops).slots;
    var i := First(s, InKey(proto, rip, rid, wid, now));
    assert Hit(InKey(proto, rip, rid, wid, now), s[i]);
    j := EveryEntryWasGiven(ops, i);
  }

  /** While a flow's entry is live and unexpired, a reply from its remote to its WAN id is
      translated back to exactly the client that opened it. */
  lemma {:induction false} ReplyInverts(ops: seq<Op>, i: nat, flags: Byte, now: nat)
    requires i < CT_CAP && Run(ops).slots[i].used && !Run(ops).slots[i].Stale(now)
    ensures var e := Run(ops).slots[i];
            Inbound(Run(ops), e.key.proto, e.key.dstIp, e.key.dstId, e.wanId, flags, now).1
            == Some((e.key.srcIp, e.key.srcId))
  {
    RunKeepsInv(ops);
    var s := Run(ops).slots;
    var e := s[i];
    var q := InKey(e.key.proto, e.key.dstIp, e.key.dstId, e.wanId, now);
    assert Hit(q, e);
    var f := First(s, q);
    assert Hit(q, s[f]);
    assert f == i;
  }

  // ---- Eviction needs pressure ----

  /** The WAN id an operation hands out to a new flow, if any. */
  function HandsOut(tb: Table, op: Op): Option<U16>
    requires |tb.slots| == CT_CAP
  {
    if op.Out? && First(tb.slots, OutKey(op.t)) == |tb.slots|
    then Outbound(tb, op.t, op.flags, op.now).1 else None
  }

  /** One operation of a run: the table it found, the flow it touched, the id it handed out. */
  datatype Visit = Visit(found: Table, op: Op, touch: Option<Tuple>, given: Option<U16>)

  ghost function Observe(tb: Table, op: Op): Visit
    requires |tb.slots| == CT_CAP
  {
    Visit(tb, op, Touch(tb, op), HandsOut(tb, op))
  }

  ghost function History(ops: seq<Op>): (h: seq<Visit>)
    ensures |h| == |ops|
  {
    if ops == [] then []
    else
      var prev, op := ops[..|ops| - 1], ops[|ops| - 1];
      History(prev) + [Observe(Run(prev), op)]
  }

  lemma {:induction false} HistoryOf(ops: seq<Op>, j: nat, tb: Table)
    requires j < |ops| && tb == Run(ops[..j])
    ensures History(ops)[j] == Observe(tb, ops[j])
    decreases |ops|
  {
    var prev := ops[..|ops| - 1];
    if j < |prev| {
      assert prev[..j] == ops[..j];
      HistoryOf(prev, j, tb);
      assert History(ops)[j] == History(prev)[j];
    } else {
      assert ops[..j] == prev;
    }
  }

  lemma {:induction false} HistoryAt(ops: seq<Op>, j: nat)
    requires j < |ops|
    ensures History(ops)[j] == Observe(Run(ops[..j]), ops[j])
  {
    HistoryOf(ops, j, Run(ops[..j]));
  }

  lemma {:induction false} HistoryOps(ops: seq<Op>)
    ensures forall j :: 0 <= j < |ops| ==> History(ops)[j].op == ops[j]
  {
    forall j | 0 <= j < |ops|
      ensures History(ops)[j].op == ops[j]
    {
      HistoryAt(ops, j);
    }
  }

  /** Every entry carries the time of an operation that touched its flow. */
  lemma {:induction false} EntriesAreLogged(ops: seq<Op>, i: nat) returns (j: nat)
    requires i < CT_CAP && Run(ops).slots[i].used
    ensures j < |ops| && History(ops)[j].touch == Some(Run(ops).slots[i].key)
            && History(ops)[j].op.now == Run(ops).slots[i].lastSeen
    decreases |ops|
  {
    var n := |ops| - 1;
    RunKeepsInv(ops[..n]);
    StepSlot(Run(ops[..n]), ops[n], i);
    if Run(ops).slots[i] == Run(ops[..n]).slots[i] {
      j := EntriesAreLogged(ops[..n], i);
      assert History(ops)[..n][j] == History(ops[..n])[j];
    } else {
      j := n;
    }
  }

  ghost predicate TouchesOther(v: Visit, key: Tuple) { v.touch.Some? && v.touch.value != key }

  /** Flows other than `key` touched at time `since` or later. */
  ghost function OthersSince(h: seq<Visit>, key: Tuple, since: nat): set<Tuple> {
    set j | 0 <= j < |h| && TouchesOther(h[j], key) && h[j].op.now >= since :: h[j].touch.value
  }

  ghost function Keys(s: seq<Entry>): set<Tuple> { set i | 0 <= i < |s| :: s[i].key }

  lemma {:induction false} KeysSize(s: seq<Entry>)
    requires forall i :: 0 <= i < |s| ==> s[i].used
    requires DistinctKeys(s)
    ensures |Keys(s)| == |s|
  {
    if s != [] {
      var n := |s| - 1;
      KeysSize(s[..n]);
      assert Keys(s) == Keys(s[..n]) + {s[n].key};
      assert s[n].key !in Keys(s[..n]);
    }
  }

  lemma {:induction false} NewcomerMakes64(s: seq<Entry>, i: nat, t: Tuple)
    requires |s| == CT_CAP && i < CT_CAP && DistinctKeys(s) && First(s, OutKey(t)) == |s|
    requires forall j :: 0 <= j < |s| ==> s[j].used
    ensures |Keys(s) - {s[i].key}| == CT_CAP - 1 && t != s[i].key
  {
    KeysSize(s);
    assert s[i].key in Keys(s);
    forall j | 0 <= j < |s|
      ensures s[j].key != t
    {
      assert !Hit(OutKey(t), s[j]);
    }
  }

  /** An unexpired flow is evicted only by a new flow that finds every slot used, none of them
      stale, and none seen earlier. */
  lemma {:induction false} OnlyInsertionEvicts(tb: Table, op: Op, i: nat)
    requires Inv(tb) && i < CT_CAP && tb.slots[i].used && !tb.slots[i].Stale(op.now)
    requires !Holds(Step(tb, op).slots[i], tb.slots[i].key, tb.slots[i].wanId)
    ensures op.Out? && First(tb.slots, OutKey(op.t)) == |tb.slots| && Touch(tb, op) == Some(op.t)
    ensures HandsOut(tb, op).Some?
    ensures forall j :: 0 <= j < |tb.slots| ==>
              tb.slots[j].used && !tb.slots[j].Stale(op.now) && tb.slots[i].lastSeen <= tb.slots[j].lastSeen
  {
    match op
    case Out(t, flags, now) =>
      var f := First(tb.slots, OutKey(t));
      if f == |tb.slots| {
        var n, idx := OutboundNew(tb, t, flags, now);
        PicksExpendable(tb.slots, now);
        assert idx == i;
      }
    case In(_, _, _, _, _, _) =>
    case Sweep(now) => ReapSlot(tb, i, now);
  }

  /** The other flows that are live and unexpired at time `now`, and were seen at `since` or later. */
  ghost function LiveOthers(tb: Table, key: Tuple, since: nat, now: nat): set<Tuple> {
    set i | 0 <= i < |tb.slots| && tb.slots[i].used && tb.slots[i].key != key
            && tb.slots[i].lastSeen >= since && !tb.slots[i].Stale(now) :: tb.slots[i].key
  }

  /** A new flow, other than `key`, comes while 63 others are live, unexpired and seen no earlier. */
  ghost predicate Pressed(v: Visit, key: Tuple, since: nat) {
    v.given.Some? && TouchesOther(v, key)
    && |LiveOthers(v.found, key, since, v.op.now)| >= CT_CAP - 1
  }

  lemma {:induction false} EvictedUnderPressure(tb: Table, op: Op, i: nat)
    requires Inv(tb) && i < CT_CAP && tb.slots[i].used && !tb.slots[i].Stale(op.now)
    requires !Holds(Step(tb, op).slots[i], tb.slots[i].key, tb.slots[i].wanId)
    ensures AllUsed(tb.slots) && NoneStale(tb.slots, op.now)
    ensures Pressed(Observe(tb, op), tb.slots[i].key, tb.slots[i].lastSeen)
  {
    var e := tb.slots[i];
    var others := Keys(tb.slots) - {e.key};
    OnlyInsertionEvicts(tb, op, i);
    NewcomerMakes64(tb.slots, i, op.t);
    assert others <= LiveOthers(tb, e.key, e.lastSeen, op.now);
    SubsetSize(others, LiveOthers(tb, e.key, e.lastSeen, op.now));
  }

  /** Whatever came before, an unexpired flow loses its slot only when every slot is used, none is
      stale, and a new flow comes: only to 64 others, the 63 in the table live, unexpired and seen
      no earlier. */
  lemma {:induction false} EvictionNeedsPressure(ops: seq<Op>, op: Op, i: nat)
    requires i < CT_CAP && Run(ops).slots[i].used && !Run(ops).slots[i].Stale(op.now)
    requires !Holds(Run(ops + [op]).slots[i], Run(ops).slots[i].key, Run(ops).slots[i].wanId)
    ensures AllUsed(Run(ops).slots) && NoneStale(Run(ops).slots, op.now)
    ensures var e := Run(ops).slots[i];
            && op.Out? && (forall j :: 0 <= j < CT_CAP ==> Run(ops).slots[j].key != op.t)
            && |LiveOthers(Run(ops), e.key, e.lastSeen, op.now)| >= 63
  {
    assert (ops + [op])[..|ops|] == ops;
    RunKeepsInv(ops);
    EvictedUnderPressure(Run(ops), op, i);
    forall j | 0 <= j < CT_CAP
      ensures Run(ops).slots[j].key != op.t
    {
      assert !Hit(OutKey(op.t), Run(ops).slots[j]);
    }
  }

  // ---- Survival over runs ----

  /** Times never go back; several operations may share a millisecond. */
  ghost predicate InOrder(h: seq<Visit>) {
    forall i, j :: 0 <= i < j < |h| ==> h[i].op.now <= h[j].op.now
  }

  /** No entry of `key` has timed out in this table at time `now`. */
  ghost predicate Unexpired(tb: Table, key: Tuple, now: nat) {
    forall i :: 0 <= i < |tb.slots| && tb.slots[i].used && tb.slots[i].key == key
                ==> !tb.slots[i].Stale(now)
  }

  /** No operation from `m` on finds `key` timed out. */
  ghost predicate NeverExpires(h: seq<Visit>, m: nat, key: Tuple) {
    forall j :: m <= j < |h| ==> Unexpired(h[j].found, key, h[j].op.now)
  }

  /** At no operation from `m` on is `key` pressed, counting the flows seen since that time. */
  ghost predicate NeverPressed(h: seq<Visit>, m: nat, key: Tuple, since: nat) {
    forall j :: m <= j < |h| ==> !Pressed(h[j], key, since)
  }

  /** Operation m-1 touched `key`; since then it has not expired and has not been pressed. */
  ghost predicate Sheltered(h: seq<Visit>, m: nat, key: Tuple) {
    && 1 <= m <= |h| && InOrder(h)
    && h[m - 1].touch == Some(key)
    && NeverExpires(h, m, key)
    && NeverPressed(h, m, key, h[m - 1].op.now)
  }

  lemma {:induction false} ShelteredBefore(ops: seq<Op>, m: nat, key: Tuple)
    requires Sheltered(History(ops), m, key) && m < |ops|
    ensures Sheltered(History(ops[..|ops| - 1]), m, key)
  {
    assert History(ops)[..|ops| - 1] == History(ops[..|ops| - 1]);
  }

  /** Fewer flows are pressing when counted from a later time. */
  lemma {:induction false} PressureShrinks(v: Visit, key: Tuple, since: nat, later: nat)
    requires since <= later && Pressed(v, key, later)
    ensures Pressed(v, key, since)
  {
    var a, b := LiveOthers(v.found, key, later, v.op.now), LiveOthers(v.found, key, since, v.op.now);
    assert a <= b;
    SubsetSize(a, b);
  }

  ghost predicate StillHeld(ops: seq<Op>, i: nat, key: Tuple, w: U16, since: nat) {
    && i < CT_CAP && ops != []
    && Holds(Run(ops).slots[i], key, w)
    && since <= Run(ops).slots[i].lastSeen <= ops[|ops| - 1].now
  }

  lemma {:induction false} TouchedIsCurrent(tb: Table, op: Op, i: nat, key: Tuple)
    requires |tb.slots| == CT_CAP && i < CT_CAP && Touch(tb, op) == Some(key)
    requires Inv(tb) && Step(tb, op).slots[i].used && Step(tb, op).slots[i].key == key
    ensures Step(tb, op).slots[i].lastSeen == op.now
  {
    match op
    case Out(t, flags, now) =>
      var f := First(tb.slots, OutKey(t));
      if f < |tb.slots| {
        assert Hit(OutKey(t), tb.slots[f]);
      } else {
        assert !Hit(OutKey(t), tb.slots[i]);
        var n, idx := OutboundNew(tb, t, flags, now);
      }
    case In(proto, rip, rid, wid, flags, now) =>
      var f := First(tb.slots, InKey(proto, rip, rid, wid, now));
      assert Hit(InKey(proto, rip, rid, wid, now), tb.slots[f]);
  }

  lemma {:induction false} JustTouched(ops: seq<Op>, i: nat, key: Tuple, w: U16)
    requires ops != [] && i < CT_CAP && Holds(Run(ops).slots[i], key, w)
    requires History(ops)[|ops| - 1].touch == Some(key)
    ensures StillHeld(ops, i, key, w, ops[|ops| - 1].now)
  {
    RunKeepsInv(ops[..|ops| - 1]);
    TouchedIsCurrent(Run(ops[..|ops| - 1]), ops[|ops| - 1], i, key);
  }

  lemma {:induction false} NotEvicted(ops: seq<Op>, m: nat, i: nat, key: Tuple, w: U16)
    requires m < |ops| && Sheltered(History(ops), m, key)
    requires StillHeld(ops[..|ops| - 1], i, key, w, ops[m - 1].now)
    ensures Holds(Run(ops).slots[i], key, w)
  {
    var h, n := History(ops), |ops| - 1;
    var tb := Run(ops[..n]);
    HistoryOps(ops);
    HistoryAt(ops, n);
    RunKeepsInv(ops[..n]);
    assert Unexpired(h[n].found, key, h[n].op.now);
    if !Holds(Step(tb, ops[n]).slots[i], key, w) {
      EvictedUnderPressure(tb, ops[n], i);
      PressureShrinks(h[n], key, ops[m - 1].now, tb.slots[i].lastSeen);
    }
  }

  lemma {:induction false} SurvivesStep(ops: seq<Op>, m: nat, i: nat, key: Tuple, w: U16, since: nat)
    requires m < |ops| && Sheltered(History(ops), m, key) && since == ops[m - 1].now
    requires StillHeld(ops[..|ops| - 1], i, key, w, since)
    ensures StillHeld(ops, i, key, w, since)
  {
    var n := |ops| - 1;
    NotEvicted(ops, m, i, key, w);
    HistoryOps(ops);
    assert History(ops)[n - 1].op.now <= History(ops)[n].op.now;
    RunKeepsInv(ops[..n]);
    StepSlot(Run(ops[..n]), ops[n], i);
  }

  lemma {:induction false} Survives(ops: seq<Op>, m: nat, key: Tuple, w: U16, since: nat) returns (i: nat)
    requires Sheltered(History(ops), m, key) && LiveAs(Run(ops[..m]), key, w)
    requires since == ops[m - 1].now
    ensures StillHeld(ops, i, key, w, since)
    decreases |ops|
  {
    if m == |ops| {
      assert ops[..m] == ops;
      i :| 0 <= i < |Run(ops).slots| && Holds(Run(ops).slots[i], key, w);
      JustTouched(ops, i, key, w);
    } else {
      ShelteredBefore(ops, m, key);
      assert ops[..|ops| - 1][..m] == ops[..m];
      i := Survives(ops[..|ops| - 1], m, key, w, since);
      SurvivesStep(ops, m, i, key, w, since);
    }
  }

  /** LRU survival. After operation m-1 touched a flow, as long as it does not time out and no new
      flow comes while 63 others are live, unexpired and seen since, it keeps its entry and WAN
      id, whatever the operations are. */
  lemma {:induction false} LruSurvival(ops: seq<Op>, m: nat, key: Tuple, w: U16) returns (i: nat)
    requires Sheltered(History(ops), m, key) && LiveAs(Run(ops[..m]), key, w)
    ensures StillHeld(ops, i, key, w, ops[m - 1].now)
  {
    i := Survives(ops, m, key, w, ops[m - 1].now);
  }

  // ---- Few flows never press ----

  /** Fewer than 64 flows other than `key` touched since that time. */
  ghost predicate LowPressure(h: seq<Visit>, key: Tuple, since: nat) {
    |OthersSince(h, key, since)| < CT_CAP
  }

  lemma {:induction false} EntryCounts(ops: seq<Op>, j: nat, i: nat, key: Tuple, since: nat)
    requires j < |ops| && i < CT_CAP && Run(ops[..j]).slots[i].used && Run(ops[..j]).slots[i].key != key
    requires since <= Run(ops[..j]).slots[i].lastSeen
    ensures Run(ops[..j]).slots[i].key in OthersSince(History(ops), key, since)
  {
    var v := EntriesAreLogged(ops[..j], i);
    var h := History(ops);
    HistoryAt(ops, v);
    HistoryAt(ops[..j], v);
    assert ops[..j][..v] == ops[..v];
    assert TouchesOther(h[v], key);
  }

  lemma {:induction false} PressureCounts(ops: seq<Op>, j: nat, key: Tuple, since: nat)
    requires j < |ops| && Pressed(History(ops)[j], key, since) && since <= ops[j].now
    ensures !LowPressure(History(ops), key, since)
  {
    var h := History(ops);
    HistoryAt(ops, j);
    var v, tb := h[j], Run(ops[..j]);
    var live := LiveOthers(tb, key, since, v.op.now);
    forall k | k in live
      ensures k in OthersSince(h, key, since) && k != v.op.t
    {
      var i :| 0 <= i < |tb.slots| && tb.slots[i].used && tb.slots[i].key == k && tb.slots[i].lastSeen >= since;
      EntryCounts(ops, j, i, key, since);
      assert !Hit(OutKey(v.op.t), tb.slots[i]);
    }
    assert v.touch == Some(v.op.t) && TouchesOther(h[j], key);
    SubsetSize(live + {v.op.t}, OthersSince(h, key, since));
  }

  /** Fewer than 64 other flows since the touch are never pressing. */
  lemma {:induction false} FewFlowsNeverPress(ops: seq<Op>, m: nat, key: Tuple)
    requires 1 <= m <= |ops| && InOrder(History(ops)) && LowPressure(History(ops), key, ops[m - 1].now)
    ensures NeverPressed(History(ops), m, key, ops[m - 1].now)
  {
    HistoryOps(ops);
    forall j | m <= j < |ops|
      ensures !Pressed(History(ops)[j], key, ops[m - 1].now)
    {
      assert History(ops)[m - 1].op.now <= History(ops)[j].op.now;
      if Pressed(History(ops)[j], key, ops[m - 1].now) {
        PressureCounts(ops, j, key, ops[m - 1].now);
      }
    }
  }

  /** A translated flow holds the id it was given. */
  lemma {:induction false} GivenIsLive(tb: Table, t: Tuple, flags: Byte, now: nat)
    requires Inv(tb)
    ensures var r := Outbound(tb, t, flags, now);
            r.1.Some? && LiveAs(r.0, t, r.1.value)
  {
    var r := Outbound(tb, t, flags, now);
    var f := First(tb.slots, OutKey(t));
    if f < |tb.slots| {
      assert Hit(OutKey(t), tb.slots[f]);
      assert Holds(r.0.slots[f], t, r.1.value);
    } else {
      var n, idx := OutboundNew(tb, t, flags, now);
      assert Holds(r.0.slots[idx], t, r.1.value);
    }
  }

  lemma {:induction false} GaveIsLive(ops: seq<Op>, m: nat, key: Tuple, w: U16)
    requires 1 <= m <= |ops| && Gave(ops, m - 1, key, w)
    ensures LiveAs(Run(ops[..m]), key, w)
  {
    assert ops[..m][..m - 1] == ops[..m - 1];
    RunKeepsInv(ops[..m - 1]);
    GivenIsLive(Run(ops[..m - 1]), key, ops[m - 1].flags, ops[m - 1].now);
  }

  /** The translation is inverted over whole runs: flow `key` sent a packet as operation m-1 and
      it left under WAN id w; then any operations, under the conditions of LruSurvival; then
      a reply arrives in time. It is delivered to exactly the address and id that sent it. */
  lemma {:induction false} ReplyReachesSender(ops: seq<Op>, m: nat, key: Tuple, w: U16, flags: Byte, now: nat)
    requires 1 <= m <= |ops| && Gave(ops, m - 1, key, w)
    requires Sheltered(History(ops), m, key) && Unexpired(Run(ops), key, now)
    ensures Inbound(Run(ops), key.proto, key.dstIp, key.dstId, w, flags, now).1
            == Some((key.srcIp, key.srcId))
  {
    GaveIsLive(ops, m, key, w);
    var i := LruSurvival(ops, m, key, w);
    ReplyInverts(ops, i, flags, now);
  }

  // ---- How long a flow is safe ----

  /** The shortest timeout a flow of this protocol can be under. */
  function Shortest(proto: Proto): nat { if proto == Udp then 30_000 else 10_000 }

  ghost predicate Within(h: seq<Visit>, m: nat, t: nat) {
    forall j :: m <= j < |h| ==> h[j].op.now < t
  }

  lemma FreshEntry(tb: Table, i: nat, key: Tuple, w: U16, now: nat)
    requires Inv(tb) && i < CT_CAP && Holds(tb.slots[i], key, w)
    requires now < tb.slots[i].lastSeen + Shortest(key.proto)
    ensures Unexpired(tb, key, now)
  {
  }

  lemma {:induction false} ExtendNeverExpires(h: seq<Visit>, m: nat, key: Tuple)
    requires 1 <= m < |h| && NeverExpires(h[..|h| - 1], m, key)
    requires Unexpired(h[|h| - 1].found, key, h[|h| - 1].op.now)
    ensures NeverExpires(h, m, key)
  {
    var g := h[..|h| - 1];
    forall j | m <= j < |h|
      ensures Unexpired(h[j].found, key, h[j].op.now)
    {
      assert j < |g| ==> g[j] == h[j];
    }
  }

  /** A history without its last operation, and that operation, when the whole is in order and
      within time. */
  lemma {:induction false} HistoryInit(ops: seq<Op>, m: nat, key: Tuple)
    requires 1 <= m < |ops|
    requires var h := History(ops); InOrder(h) && NeverPressed(h, m, key, h[m - 1].op.now)
    ensures var n, h := |ops| - 1, History(ops);
            var g := History(ops[..n]);
            && g == h[..n] && InOrder(g) && NeverPressed(g, m, key, g[m - 1].op.now)
            && h[n] == Observe(Run(ops[..n]), ops[n]) && ops[..n][..m] == ops[..m]
  {
    var n, h := |ops| - 1, History(ops);
    assert h[..n] == History(ops[..n]);
  }

  /** For as long after its touch as the shortest timeout of its protocol (30 s for UDP, 10 s for
      ICMP and TCP), a flow that is not pressed is sheltered, whatever its
      TCP state and however often it is touched again. */
  lemma {:induction false} SafeForShortestTimeout(ops: seq<Op>, m: nat, key: Tuple, w: U16, now: nat)
    requires 1 <= m <= |ops| && LiveAs(Run(ops[..m]), key, w)
    requires var h := History(ops);
             && InOrder(h) && h[m - 1].touch == Some(key)
             && Within(h, m, ops[m - 1].now + Shortest(key.proto))
             && NeverPressed(h, m, key, h[m - 1].op.now)
    requires now < ops[m - 1].now + Shortest(key.proto)
    ensures Sheltered(History(ops), m, key) && Unexpired(Run(ops), key, now)
    decreases |ops|
  {
    var h, n := History(ops), |ops| - 1;
    HistoryOps(ops);
    if m < |ops| {
      HistoryInit(ops, m, key);
      SafeForShortestTimeout(ops[..n], m, key, w, ops[n].now);
      ExtendNeverExpires(h, m, key);
    }
    var i := LruSurvival(ops, m, key, w);
    RunKeepsInv(ops);
    FreshEntry(Run(ops), i, key, w, now);
  }

  /** No operation from m on touches `key`. */
  ghost predicate Untouched(h: seq<Visit>, m: nat, key: Tuple) {
    forall j :: m <= j < |h| ==> h[j].touch != Some(key)
  }

  lemma {:induction false} StaysAsItWas(ops: seq<Op>, m: nat, i: nat, key: Tuple, w: U16)
    requires m < |ops| && Sheltered(History(ops), m, key)
    requires StillHeld(ops[..|ops| - 1], i, key, w, ops[m - 1].now)
    requires Touch(Run(ops[..|ops| - 1]), ops[|ops| - 1]) != Some(key)
    ensures Run(ops).slots[i] == Run(ops[..|ops| - 1]).slots[i]
  {
    var n := |ops| - 1;
    NotEvicted(ops, m, i, key, w);
    RunKeepsInv(ops[..n]);
    StepSlot(Run(ops[..n]), ops[n], i);
  }

  /** The entry e of `key` was seen last by operation m-1, and nothing since has touched it, come
      as late as its timeout, or brought 64 other flows. */
  ghost predicate LeftAlone(h: seq<Visit>, m: nat, key: Tuple, e: Entry) {
    && 1 <= m <= |h| && InOrder(h) && h[m - 1].touch == Some(key) && e.lastSeen == h[m - 1].op.now
    && Untouched(h, m, key) && Within(h, m, e.lastSeen + e.TimeoutMs())
    && NeverPressed(h, m, key, h[m - 1].op.now)
  }

  lemma {:induction false} LeftAloneBefore(ops: seq<Op>, m: nat, key: Tuple, e: Entry)
    requires m < |ops| && LeftAlone(History(ops), m, key, e)
    ensures LeftAlone(History(ops[..|ops| - 1]), m, key, e) && ops[..|ops| - 1][..m] == ops[..m]
  {
    HistoryInit(ops, m, key);
  }

  lemma EntryUnexpired(tb: Table, i: nat, key: Tuple, w: U16, now: nat)
    requires Inv(tb) && i < CT_CAP && Holds(tb.slots[i], key, w)
    ensures Unexpired(tb, key, now) <==> now < tb.slots[i].lastSeen + tb.slots[i].TimeoutMs()
  {
  }

  lemma NextIsInTime(h: seq<Visit>, m: nat, n: nat, e: Entry)
    requires 1 <= m <= n < |h| && InOrder(h) && e.lastSeen == h[m - 1].op.now
    requires Within(h, m, e.lastSeen + e.TimeoutMs())
    ensures e.lastSeen <= h[n].op.now < e.lastSeen + e.TimeoutMs()
  {
  }

  /** One more operation: the entry is found in time, so the flow stays sheltered. */
  lemma {:induction false} StaysSheltered(ops: seq<Op>, m: nat, i: nat, key: Tuple, w: U16, e: Entry)
    requires m < |ops| && LeftAlone(History(ops), m, key, e) && Holds(e, key, w)
    requires i < CT_CAP && Run(ops[..|ops| - 1]).slots[i] == e
    requires NeverExpires(History(ops[..|ops| - 1]), m, key)
    ensures Sheltered(History(ops), m, key)
  {
    var h, n := History(ops), |ops| - 1;
    HistoryAt(ops, n);
    RunKeepsInv(ops[..n]);
    NextIsInTime(h, m, n, e);
    EntryUnexpired(Run(ops[..n]), i, key, w, h[n].op.now);
    assert h[..n] == History(ops[..n]);
    ExtendNeverExpires(h, m, key);
  }

  lemma {:induction false} HeldSince(ops: seq<Op>, m: nat, i: nat, key: Tuple, w: U16)
    requires 1 <= m < |ops| && i < CT_CAP && Holds(Run(ops[..|ops| - 1]).slots[i], key, w)
    requires InOrder(History(ops)) && Run(ops[..|ops| - 1]).slots[i].lastSeen == ops[m - 1].now
    ensures StillHeld(ops[..|ops| - 1], i, key, w, ops[m - 1].now)
  {
    HistoryOps(ops);
    assert History(ops)[m - 1].op.now <= History(ops)[|ops| - 2].op.now;
  }

  lemma {:induction false} KeepsEntry(ops: seq<Op>, m: nat, i: nat, key: Tuple, w: U16, e: Entry)
    requires LeftAlone(History(ops), m, key, e) && Holds(e, key, w)
    requires i < CT_CAP && Run(ops[..m]).slots[i] == e
    ensures Sheltered(History(ops), m, key) && Run(ops).slots[i] == e
    decreases |ops|
  {
    HistoryOps(ops);
    if m < |ops| {
      LeftAloneBefore(ops, m, key, e);
      KeepsEntry(ops[..|ops| - 1], m, i, key, w, e);
      StaysSheltered(ops, m, i, key, w, e);
      HeldSince(ops, m, i, key, w);
      HistoryAt(ops, |ops| - 1);
      StaysAsItWas(ops, m, i, key, w);
    } else {
      assert ops[..m] == ops;
    }
  }

  /** Left alone, a flow is safe for exactly the timeout its own entry is under (60 s for an
      established TCP flow): up to then its entry does not change, and from then on it has
      expired. */
  lemma {:induction false} SafeForItsOwnTimeout(
      ops: seq<Op>, m: nat, i: nat, key: Tuple, w: U16, e: Entry, now: nat)
    requires LeftAlone(History(ops), m, key, e) && Holds(e, key, w)
    requires i < CT_CAP && Run(ops[..m]).slots[i] == e
    ensures Sheltered(History(ops), m, key) && Run(ops).slots[i] == e
    ensures Unexpired(Run(ops), key, now) <==> now < e.lastSeen + e.TimeoutMs()
  {
    KeepsEntry(ops, m, i, key, w, e);
    RunKeepsInv(ops);
    EntryUnexpired(Run(ops), i, key, w, now);
  }

  /** A flow has one entry, and its WAN id is no other flow's. */
  lemma OnlyOwner(tb: Table, i: nat, t: Tuple, w: U16, now: nat)
    requires Inv(tb) && i < CT_CAP && Holds(tb.slots[i], t, w)
    ensures Unexpired(tb, t, now) <==> !tb.slots[i].Stale(now)
    ensures forall j :: 0 <= j < CT_CAP && tb.slots[j].used && tb.slots[j].wanId == w ==> j == i
  {
  }

  lemma {:induction false} NoneInTime(tb: Table, t: Tuple, w: U16, flags: Byte, now: nat)
    requires |tb.slots| == CT_CAP
    requires forall j :: 0 <= j < CT_CAP && tb.slots[j].used && tb.slots[j].wanId == w ==> tb.slots[j].Stale(now)
    ensures Inbound(tb, t.proto, t.dstIp, t.dstId, w, flags, now).1 == None
  {
    var f := First(tb.slots, InKey(t.proto, t.dstIp, t.dstId, w, now));
  }

  /** The smallest case: in any reachable state, whatever happened before, a packet is translated,
      and a reply reaches its sender exactly until the flow's entry has timed out. */
  lemma {:induction false} PromptReplyReachesSender(
      ops: seq<Op>, t: Tuple, flags: Byte, sent: nat, replyFlags: Byte, now: nat)
    ensures var w, after := Outbound(Run(ops), t, flags, sent).1, Run(ops + [Out(t, flags, sent)]);
            && w.Some?
            && Inbound(after, t.proto, t.dstIp, t.dstId, w.value, replyFlags, now).1
               == (if Unexpired(after, t, now) then Some((t.srcIp, t.srcId)) else None)
    ensures now < sent + Shortest(t.proto) ==> Unexpired(Run(ops + [Out(t, flags, sent)]), t, now)
  {
    var all := ops + [Out(t, flags, sent)];
    assert all[..|ops|] == ops;
    RunKeepsInv(ops);
    GivenIsLive(Run(ops), t, flags, sent);
    var w := Outbound(Run(ops), t, flags, sent).1.value;
    var i :| 0 <= i < |Run(all).slots| && Holds(Run(all).slots[i], t, w);
    RunKeepsInv(all);
    TouchedIsCurrent(Run(ops), Out(t, flags, sent), i, t);
    OnlyOwner(Run(all), i, t, w, now);
    if Unexpired(Run(all), t, now) {
      ReplyInverts(all, i, replyFlags, now);
    } else {
      NoneInTime(Run(all), t, w, replyFlags, now);
    }
  }
}
