/** How long a WAN id stays out of circulation: the rolling cursor has to pass every other id
    of the range before it can hand the same one out again. */
module NatIds {
  import opened Wire
  import opened NatTable
  import opened NatRuns
  import opened NatFlows
  import opened Sets

  /** Ids other than x handed out by the operations from `lo` on. */
  ghost function OtherIds(h: seq<Visit>, lo: nat, x: U16): set<int> {
    set k | lo <= k < |h| && h[k].given.Some? && h[k].given != Some(x) :: h[k].given.value as int
  }

  lemma AheadAdds(x: U16, a: nat, b: nat)
    requires NAT_LO <= x <= NAT_HI
    ensures Ahead(Ahead(x, a), b) == Ahead(x, a + b)
  {
  }

  lemma AheadAway(x: U16, k: nat)
    requires NAT_LO <= x <= NAT_HI && 1 <= k <= SPAN
    ensures Ahead(x, k) == x <==> k == SPAN
  {
  }

  /** The cursor has passed the p ids after x, each of which is in `seen`, and so is every id
      still live; or it has passed all of them. */
  ghost predicate Epoch(tb: Table, x: U16, seen: set<int>, p: nat)
    requires NAT_LO <= x <= NAT_HI
  {
    && p < SPAN
    && (forall k :: 1 <= k <= p ==> Ahead(x, k) as int in seen)
    && (p < SPAN - 1 ==> tb.cursor == Ahead(x, p + 1) && LiveIds(tb.slots) <= seen + {x as int})
  }

  lemma {:induction false} SlotIdBefore(tb: Table, op: Op, i: nat)
    requires Inv(tb) && i < CT_CAP && Step(tb, op).slots[i].used
    ensures Step(tb, op).slots[i].wanId as int in LiveIds(tb.slots)
            || HandsOut(tb, op) == Some(Step(tb, op).slots[i].wanId)
  {
    StepSlot(tb, op, i);
    var o, e := tb.slots[i], Step(tb, op).slots[i];
    if e == o || Holds(o, e.key, e.wanId) {
      assert o.used && o.wanId == e.wanId;
    } else {
      var f := First(tb.slots, OutKey(op.t));
      if f < |tb.slots| {
        assert Hit(OutKey(op.t), tb.slots[f]);
      }
    }
  }

  lemma {:induction false} KeepsCursor(tb: Table, op: Op)
    requires Inv(tb)
    ensures HandsOut(tb, op).None? ==> Step(tb, op).cursor == tb.cursor
  {
    if op.Out? && First(tb.slots, OutKey(op.t)) == |tb.slots| {
      var n, idx := OutboundNew(tb, op.t, op.flags, op.now);
    }
  }

  lemma {:induction false} LiveIdsAfter(tb: Table, op: Op)
    requires Inv(tb)
    ensures HandsOut(tb, op).None? ==>
              Step(tb, op).cursor == tb.cursor && LiveIds(Step(tb, op).slots) <= LiveIds(tb.slots)
    ensures HandsOut(tb, op).Some? ==>
              LiveIds(Step(tb, op).slots) <= LiveIds(tb.slots) + {HandsOut(tb, op).value as int}
  {
    var r := Step(tb, op);
    forall w | w in LiveIds(r.slots)
      ensures w in LiveIds(tb.slots)
              || (HandsOut(tb, op).Some? && w == HandsOut(tb, op).value)
    {
      var i :| 0 <= i < |r.slots| && r.slots[i].used && r.slots[i].wanId == w;
      SlotIdBefore(tb, op, i);
    }
    KeepsCursor(tb, op);
  }

  /** A hand-out skips n live ids and takes the next. */
  lemma {:induction false} HandOutProbes(tb: Table, op: Op) returns (n: nat)
    requires Inv(tb) && HandsOut(tb, op).Some?
    ensures HandsOut(tb, op) == Some(Ahead(tb.cursor, n))
    ensures Step(tb, op).cursor == Ahead(tb.cursor, n + 1)
    ensures forall k :: 0 <= k < n ==> Ahead(tb.cursor, k) in LiveIds(tb.slots)
  {
    var m, idx := OutboundNew(tb, op.t, op.flags, op.now);
    n := m;
  }

  ghost function Plus(seen: set<int>, given: Option<U16>): set<int> {
    if given.Some? then seen + {given.value as int} else seen
  }

  /** The search that skipped n live ids has moved the cursor past seen ids only. */
  lemma {:induction false} EpochAdvance(tb: Table, x: U16, seen: set<int>, p: nat, n: nat)
    returns (q: nat)
    requires Inv(tb) && NAT_LO <= x <= NAT_HI && Epoch(tb, x, seen, p) && p < SPAN - 1
    requires forall k :: 0 <= k < n ==> Ahead(tb.cursor, k) in LiveIds(tb.slots)
    ensures q == Min(p + n + 1, SPAN - 1)
    ensures forall k :: 1 <= k <= Min(p + n, SPAN - 1) ==> Ahead(x, k) as int in seen
  {
    q := Min(p + n + 1, SPAN - 1);
    forall k | 1 <= k <= Min(p + n, SPAN - 1)
      ensures Ahead(x, k) as int in seen
    {
      if k > p {
        AheadAdds(x, p + 1, k - p - 1);
        AheadAway(x, k);
        assert Ahead(tb.cursor, k - p - 1) in LiveIds(tb.slots);
      }
    }
  }

  lemma {:induction false} EpochHandOut(tb: Table, r: Table, x: U16, seen: set<int>, p: nat, n: nat)
    returns (q: nat)
    requires Inv(tb) && NAT_LO <= x <= NAT_HI && Epoch(tb, x, seen, p) && p < SPAN - 1
    requires forall k :: 0 <= k < n ==> Ahead(tb.cursor, k) in LiveIds(tb.slots)
    requires r.cursor == Ahead(tb.cursor, n + 1)
    requires LiveIds(r.slots) <= LiveIds(tb.slots) + {Ahead(tb.cursor, n) as int}
    ensures Ahead(tb.cursor, n) != x ==> Epoch(r, x, seen + {Ahead(tb.cursor, n) as int}, q)
    ensures Ahead(tb.cursor, n) == x ==> forall k :: 1 <= k < SPAN ==> Ahead(x, k) as int in seen
  {
    q := EpochAdvance(tb, x, seen, p, n);
    AheadAdds(x, p + 1, n);
    AheadAdds(x, p + 1, n + 1);
    if p + 1 + n <= SPAN {
      AheadAway(x, p + 1 + n);
    }
  }

  lemma {:induction false} EpochStep(tb: Table, op: Op, x: U16, seen: set<int>, p: nat)
    returns (q: nat)
    requires Inv(tb) && NAT_LO <= x <= NAT_HI && Epoch(tb, x, seen, p)
    ensures HandsOut(tb, op) != Some(x) ==> Epoch(Step(tb, op), x, Plus(seen, HandsOut(tb, op)), q)
    ensures HandsOut(tb, op) == Some(x) ==> forall k :: 1 <= k < SPAN ==> Ahead(x, k) as int in seen
  {
    LiveIdsAfter(tb, op);
    q := p;
    if p < SPAN - 1 && HandsOut(tb, op).Some? {
      var n := HandOutProbes(tb, op);
      q := EpochHandOut(tb, Step(tb, op), x, seen, p, n);
    }
  }

  lemma {:induction false} EpochOpens(tb: Table, op: Op, x: U16)
    requires Inv(tb) && HandsOut(tb, op) == Some(x)
    ensures NAT_LO <= x <= NAT_HI
    ensures var others := LiveIds(Step(tb, op).slots) - {x as int};
            |others| < CT_CAP && Epoch(Step(tb, op), x, others, 0)
  {
    var n, idx := OutboundNew(tb, op.t, op.flags, op.now);
    AheadAdds(tb.cursor, n, 1);
    var r := Step(tb, op);
    LiveIdsSize(r.slots);
    assert r.slots[idx].used && r.slots[idx].wanId == x;
    assert x as int in LiveIds(r.slots);
  }

  lemma {:induction false} OtherIdsGrow(h: seq<Visit>, lo: nat, x: U16)
    requires lo < |h| && h[|h| - 1].given != Some(x)
    ensures OtherIds(h, lo, x) == Plus(OtherIds(h[..|h| - 1], lo, x), h[|h| - 1].given)
  {
    var g := h[..|h| - 1];
    forall w | w in OtherIds(g, lo, x)
      ensures w in OtherIds(h, lo, x)
    {
      var k :| lo <= k < |g| && g[k].given.Some? && g[k].given != Some(x) && g[k].given.value == w;
      assert h[k] == g[k];
    }
  }

  /** The step of EpochOverRun: from the history without its last operation to the whole. */
  lemma {:induction false} EpochLast(ops: seq<Op>, lo: nat, x: U16, base: set<int>, q: nat)
    returns (p: nat)
    requires lo < |ops| && NAT_LO <= x <= NAT_HI && History(ops)[|ops| - 1].given != Some(x)
    requires var prev := ops[..|ops| - 1];
             Epoch(Run(prev), x, base + OtherIds(History(prev), lo, x), q)
    ensures Epoch(Run(ops), x, base + OtherIds(History(ops), lo, x), p)
  {
    var n := |ops| - 1;
    var h, prev := History(ops), ops[..n];
    assert h[..n] == History(prev) && h[n] == Observe(Run(prev), ops[n]);
    RunKeepsInv(prev);
    var seen := base + OtherIds(History(prev), lo, x);
    p := EpochStep(Run(prev), ops[n], x, seen, q);
    OtherIdsGrow(h, lo, x);
    assert Plus(seen, h[n].given) == base + OtherIds(h, lo, x);
  }

  lemma {:induction false} NoneYet(h: seq<Visit>, lo: nat, x: U16, base: set<int>)
    requires |h| <= lo
    ensures base + OtherIds(h, lo, x) == base
  {
  }

  /** Nothing in the history from lo on hands out x. */
  ghost predicate NotGiven(h: seq<Visit>, lo: nat, x: U16) {
    forall k :: lo <= k < |h| ==> h[k].given != Some(x)
  }

  lemma {:induction false} NotGivenBefore(ops: seq<Op>, lo: nat, x: U16)
    requires ops != [] && NotGiven(History(ops), lo, x)
    ensures NotGiven(History(ops[..|ops| - 1]), lo, x)
    ensures lo < |ops| ==> ops[..|ops| - 1][..lo] == ops[..lo]
  {
    assert History(ops)[..|ops| - 1] == History(ops[..|ops| - 1]);
  }

  lemma {:induction false} EpochOverRun(ops: seq<Op>, lo: nat, start: Table, x: U16, base: set<int>)
    returns (p: nat)
    requires lo <= |ops| && start == Run(ops[..lo]) && NAT_LO <= x <= NAT_HI
    requires NotGiven(History(ops), lo, x) && Epoch(start, x, base, 0)
    ensures Epoch(Run(ops), x, base + OtherIds(History(ops), lo, x), p)
    decreases |ops|
  {
    if lo == |ops| {
      assert ops[..lo] == ops;
      p := 0;
      NoneYet(History(ops), lo, x, base);
    } else {
      NotGivenBefore(ops, lo, x);
      var q := EpochOverRun(ops[..|ops| - 1], lo, start, x, base);
      p := EpochLast(ops, lo, x, base, q);
    }
  }

  lemma {:induction false} RunStep(ops: seq<Op>, i: nat)
    requires i < |ops|
    ensures Run(ops[..i + 1]) == Step(Run(ops[..i]), ops[i])
  {
    assert ops[..i + 1][..i] == ops[..i];
  }

  lemma {:induction false} EpochSinceHandOut(ops: seq<Op>, i: nat, x: U16)
    returns (base: set<int>, p: nat)
    requires i < |ops| && History(ops)[i].given == Some(x)
    requires forall k :: i < k < |ops| ==> History(ops)[k].given != Some(x)
    ensures NAT_LO <= x <= NAT_HI && |base| < CT_CAP
    ensures Epoch(Run(ops), x, base + OtherIds(History(ops), i + 1, x), p)
  {
    HistoryAt(ops, i);
    RunKeepsInv(ops[..i]);
    RunStep(ops, i);
    EpochOpens(Run(ops[..i]), ops[i], x);
    base := LiveIds(Run(ops[..i + 1]).slots) - {x as int};
    p := EpochOverRun(ops, i + 1, Run(ops[..i + 1]), x, base);
  }

  lemma {:induction false} CircleCount(x: U16, base: set<int>, others: set<int>)
    requires NAT_LO <= x <= NAT_HI && |base| < CT_CAP
    requires forall k :: 1 <= k < SPAN ==> Ahead(x, k) as int in base + others
    ensures |others| >= SPAN - CT_CAP
  {
    var c := Ahead(x, 1);
    forall w | w in AheadSet(c, SPAN - 1)
      ensures w in base + others
    {
      var k :| 0 <= k < SPAN - 1 && Ahead(c, k) == w;
      AheadAdds(x, 1, k);
      assert Ahead(x, k + 1) == w;
    }
    AheadSetSize(c, SPAN - 1);
    SubsetSize(AheadSet(c, SPAN - 1), base + others);
    UnionSize(base, others);
  }

  /** Id reuse distance. In any run, if operation i hands out WAN id x and a later operation is the
      first to hand out x again, at least 16320 different other ids were handed out between them:
      the 16383 others on the circle less the at most 63 that were live throughout. */
  lemma {:induction false} IdReuseDistance(ops: seq<Op>, op: Op, i: nat, x: U16)
    requires i < |ops| && History(ops)[i].given == Some(x)
    requires forall k :: i < k < |ops| ==> History(ops)[k].given != Some(x)
    requires HandsOut(Run(ops), op) == Some(x)
    ensures |OtherIds(History(ops), i + 1, x)| >= SPAN - CT_CAP
  {
    var base, p := EpochSinceHandOut(ops, i, x);
    RunKeepsInv(ops);
    var others := OtherIds(History(ops), i + 1, x);
    var q := EpochStep(Run(ops), op, x, base + others, p);
    CircleCount(x, base, others);
  }
}
