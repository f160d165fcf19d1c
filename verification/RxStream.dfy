/** Cutting the sampled stream into images: `poll_into` on values and in place, and why the
    half-buffer boundaries cannot be seen in what the scanner finds. */
module RxStream {
  import opened Wire
  import opened R = Runs

  /** Sizes of a DMA half and of the carry buffer. */
  datatype Geometry = Geometry(buf: nat, maxCarry: nat)

  const DEVICE := Geometry(16384, 16384)

  /** The carry between halves and the count of times it overflowed. */
  datatype Rx = Rx(carry: Bytes, capped: U32)

  const START := Rx([], 0)

  /** `Image` holds the continuous sample image and how much of it is carry. */
  datatype Outcome = Nothing | Image(bytes: Bytes, carryPrefix: nat)

  /** Walk back from t over the trailing active run, not below k; true if the budget ran out. */
  function TailFrom(g: Geometry, half: Bytes, k: nat, t: nat): (r: (nat, bool))
    requires t <= |half|
    ensures r.0 <= t
    decreases t
  {
    if t <= k then (t, false)
    else if |half| - t >= g.maxCarry then (t, true)
    else if Idle(half[t - 1]) then (t, false)
    else TailFrom(g, half, k, t - 1)
  }

  /** How far into the half the active stretch in the carry goes on. */
  function LeadLen(rx: Rx, half: Bytes): nat { if rx.carry != [] then ActiveLen(half) else 0 }

  /** Service one completed half. */
  function Poll(g: Geometry, rx: Rx, half: Bytes): (Rx, Outcome) {
    var k := LeadLen(rx, half);
    if rx.carry != [] && k == |half| then
      if |rx.carry| + |half| <= g.maxCarry
      then (rx.(carry := rx.carry + half), Nothing)
      else (Rx([], Inc(rx.capped)), Nothing)
    else
      var t := TailFrom(g, half, k, |half|);
      (Rx(half[t.0..], if t.1 then Inc(rx.capped) else rx.capped),
       Image(rx.carry + half[..t.0], |rx.carry|))
  }

  /** `copy_from_slice`: src[from..to] to dst at `at`. */
  method CopyInto(dst: array<bv8>, at: nat, src: array<bv8>, from: nat, to: nat)
    requires from <= to <= src.Length && at + (to - from) <= dst.Length && src != dst
    modifies dst
    ensures dst[at..at + (to - from)] == src[from..to]
    ensures dst[..at] == old(dst[..at]) && dst[at + (to - from)..] == old(dst[at + (to - from)..])
  {
    forall i | 0 <= i < to - from {
      dst[at + i] := src[from + i];
    }
  }

  class EthRx {
    const geom: Geometry
    const carry: array<bv8>
    var carryLen: nat
    var carryCapped: U32

    ghost predicate Valid()
      reads this
    {
      carry.Length == geom.maxCarry && carryLen <= carry.Length
    }

    ghost function State(): Rx
      requires Valid()
      reads this, carry
    {
      Rx(carry[..carryLen], carryCapped)
    }

    constructor (g: Geometry)
      ensures Valid() && geom == g && State() == START && fresh(carry)
    {
      geom := g;
      carry := new bv8[g.maxCarry](_ => 0);
      carryLen := 0;
      carryCapped := 0;
    }

    method LeadingActive(half: array<bv8>) returns (k: nat)
      ensures k == ActiveLen(half[..])
    {
      k := 0;
      while k < half.Length && !Idle(half[k])
        invariant 0 <= k <= half.Length && ActiveOn(half[..], 0, k)
      {
        k := k + 1;
      }
      ActiveLenIs(half[..], k);
    }

    method TailStart(half: array<bv8>, k: nat) returns (t: nat, over: bool)
      requires Valid() && half != carry
      ensures (t, over) == TailFrom(geom, half[..], k, half.Length)
      ensures half.Length - t <= carry.Length
    {
      t := half.Length;
      while true
        invariant 0 <= t <= half.Length && half.Length - t <= carry.Length
        invariant TailFrom(geom, half[..], k, t) == TailFrom(geom, half[..], k, half.Length)
        decreases t
      {
        if t <= k {
          return t, false;
        }
        if half.Length - t >= geom.maxCarry {
          return t, true;
        }
        if Idle(half[t - 1]) {
          return t, false;
        }
        t := t - 1;
      }
    }

    /** Image = carry ++ settled bytes; next carry = the rest of the half. */
    method Stitch(half: array<bv8>, slot: array<bv8>, t: nat) returns (len: nat)
      requires Valid() && t <= half.Length && slot.Length >= carryLen + t
      requires half.Length - t <= carry.Length
      requires half != slot && half != carry && slot != carry
      modifies this`carryLen, carry, slot
      ensures Valid() && len == old(carryLen) + t <= slot.Length
      ensures slot[..len] == old(carry[..carryLen]) + half[..][..t]
      ensures carry[..carryLen] == half[..][t..]
    {
      len := carryLen + t;
      CopyInto(slot, 0, carry, 0, carryLen);
      assert slot[..carryLen] == old(carry[..carryLen]);
      CopyInto(slot, carryLen, half, 0, t);
      assert slot[..len] == slot[..carryLen] + slot[carryLen..len];
      assert slot[..len] == old(carry[..carryLen]) + half[..][..t];
      CopyInto(carry, 0, half, t, half.Length);
      assert carry[..half.Length - t] == half[..][t..];
      carryLen := half.Length - t;
    }

    /** `slot[..len]` is the image, if there is one; `slot` must hold carry plus one half. */
    method PollInto(half: array<bv8>, slot: array<bv8>) returns (r: Option<(nat, nat)>)
      requires Valid() && half.Length == geom.buf && slot.Length >= geom.buf + geom.maxCarry
      requires half != slot && half != carry && slot != carry
      modifies this, carry, slot
      ensures Valid()
      ensures State() == Poll(geom, old(State()), half[..]).0
      ensures match Poll(geom, old(State()), half[..]).1
              case Nothing => r == None
              case Image(bytes, cp) => r == Some((|bytes|, cp)) && |bytes| <= slot.Length
                                       && slot[..|bytes|] == bytes
    {
      ghost var rx := State();
      var cl := carryLen;
      var k := 0;
      if cl > 0 {
        k := LeadingActive(half);
        if k == half.Length {
          if cl + half.Length <= carry.Length {
            CopyInto(carry, cl, half, 0, half.Length);
            carryLen := cl + half.Length;
            assert carry[..carryLen] == rx.carry + half[..];
          } else {
            carryCapped := Inc(carryCapped);
            carryLen := 0;
          }
          return None;
        }
      }
      var tailStart, over := TailStart(half, k);
      if over {
        carryCapped := Inc(carryCapped);
      }
      var len := Stitch(half, slot, tailStart);
      r := Some((len, cl));
    }
  }

  // ---- The trailing active stretch ----

  ghost function TrailLen(s: Bytes): (n: nat)
    ensures n <= |s| && ActiveOn(s, |s| - n, |s|)
    ensures n < |s| ==> Idle(s[|s| - n - 1])
  {
    if s == [] || Idle(s[|s| - 1]) then 0 else 1 + TrailLen(s[..|s| - 1])
  }

  ghost function Tail(s: Bytes): Bytes { s[|s| - TrailLen(s)..] }

  /** The stream up to its in-flight tail. */
  ghost function Body(s: Bytes): (b: Bytes)
    ensures Settled(b) && b + Tail(s) == s
  {
    var n := |s| - TrailLen(s);
    assert s[..n] + s[n..] == s;
    s[..n]
  }

  lemma TrailLenIs(s: Bytes, n: nat)
    requires n <= |s| && ActiveOn(s, |s| - n, |s|) && (n < |s| ==> Idle(s[|s| - n - 1]))
    ensures TrailLen(s) == n
  {
  }

  lemma {:induction false} TailFromIsTrail(g: Geometry, half: Bytes, k: nat, t: nat)
    requires k <= t <= |half| <= g.maxCarry && ActiveOn(half, t, |half|)
    requires k > 0 ==> k < t && Idle(half[k])
    ensures TailFrom(g, half, k, t) == (|half| - TrailLen(half), false)
    decreases t
  {
    if t <= k || Idle(half[t - 1]) {
      TrailLenIs(half, |half| - t);
    } else {
      TailFromIsTrail(g, half, k, t - 1);
    }
  }

  // ---- A sequence of halves ----

  ghost predicate Halves(g: Geometry, hs: seq<Bytes>) {
    forall i :: 0 <= i < |hs| ==> |hs[i]| == g.buf
  }

  ghost function Concat(hs: seq<Bytes>): Bytes {
    if hs == [] then [] else Concat(hs[..|hs| - 1]) + hs[|hs| - 1]
  }

  ghost function After(g: Geometry, hs: seq<Bytes>): Rx {
    if hs == [] then START else Poll(g, After(g, hs[..|hs| - 1]), hs[|hs| - 1]).0
  }

  ghost function Images(g: Geometry, hs: seq<Bytes>): seq<Bytes> {
    if hs == [] then []
    else
      var prev := hs[..|hs| - 1];
      var o := Poll(g, After(g, prev), hs[|hs| - 1]).1;
      Images(g, prev) + (if o.Image? then [o.bytes] else [])
  }

  /** The carry budget is hit by this half: it continues an active stretch without a break and
      the stretch no longer fits. */
  ghost predicate CapHit(g: Geometry, before: Bytes, half: Bytes) {
    TrailLen(before) > 0 && AllActive(half) && TrailLen(before) + |half| > g.maxCarry
  }

  ghost predicate NoCapHit(g: Geometry, hs: seq<Bytes>) {
    forall i :: 0 <= i < |hs| ==> !CapHit(g, Concat(hs[..i]), hs[i])
  }

  /** The runs of at least `min` bytes found image by image, in order. */
  ghost function FoundIn(images: seq<Bytes>, min: nat): seq<Bytes> {
    if images == [] then []
    else FoundIn(images[..|images| - 1], min) + AtLeast(Runs(images[|images| - 1]), min)
  }

  /** What the receiver knows after the stream s: the carry is exactly the in-flight tail. */
  ghost predicate InStep(rx: Rx, s: Bytes) { rx.carry == Tail(s) }

  lemma {:induction false} ActiveHalf(s: Bytes, half: Bytes)
    requires AllActive(half)
    ensures Tail(s + half) == Tail(s) + half && Body(s + half) == Body(s)
  {
    TrailLenIs(s + half, TrailLen(s) + |half|);
    assert Body(s + half) == Body(s);
    assert Tail(s + half) == Tail(s) + half;
  }

  /** A half with an idle byte, or after a settled stream, settles everything before its tail. */
  lemma {:induction false} TailOfSum(s: Bytes, half: Bytes)
    requires TrailLen(half) < |half| || Settled(s)
    ensures Tail(s + half) == half[|half| - TrailLen(half)..]
    ensures Body(s + half) == s + half[..|half| - TrailLen(half)]
  {
    var t := TrailLen(half);
    TrailLenIs(s + half, t);
    assert (s + half)[|s + half| - t..] == half[|half| - t..];
    assert (s + half)[..|s + half| - t] == s + half[..|half| - t];
  }

  lemma Regroup(a: Bytes, b: Bytes, c: Bytes)
    ensures a + b + c == a + (b + c)
  {
  }

  lemma SettledAfter(carry: Bytes, head: Bytes)
    requires Settled(head) && (head == [] ==> carry == [])
    ensures Settled(carry + head)
  {
  }

  lemma {:induction false} SplitHalf(rx: Rx, s: Bytes, half: Bytes)
    requires InStep(rx, s) && (rx.carry != [] ==> ActiveLen(half) < |half|)
    ensures var n := |half| - TrailLen(half);
            && half[n..] == Tail(s + half)
            && Body(s + half) == Body(s) + (rx.carry + half[..n])
            && Settled(rx.carry + half[..n])
  {
    var head := half[..|half| - TrailLen(half)];
    if head == [] {
      assert rx.carry == [] && s == Body(s);
    }
    TailOfSum(s, half);
    Regroup(Body(s), rx.carry, head);
    SettledAfter(rx.carry, head);
  }

  lemma {:induction false} PollStep(g: Geometry, rx: Rx, s: Bytes, half: Bytes)
    requires 0 < |half| <= g.maxCarry && InStep(rx, s) && !CapHit(g, s, half)
    ensures var (rx', o) := Poll(g, rx, half);
            && rx'.capped == rx.capped && InStep(rx', s + half)
            && Body(s + half) == Body(s) + (if o.Image? then o.bytes else [])
            && (o.Image? ==> Settled(o.bytes) && o.carryPrefix == TrailLen(s))
  {
    var k := LeadLen(rx, half);
    if rx.carry != [] && k == |half| {
      ActiveHalf(s, half);
    } else {
      TailFromIsTrail(g, half, k, |half|);
      SplitHalf(rx, s, half);
    }
  }

  lemma {:induction false} CapStep(g: Geometry, rx: Rx, s: Bytes, half: Bytes)
    requires 0 < |half| <= g.maxCarry && InStep(rx, s) && CapHit(g, s, half)
    ensures Poll(g, rx, half) == (Rx([], Inc(rx.capped)), Nothing)
  {
    ActiveLenIs(half, |half|);
  }

  /** A half without an idle byte that continues an active stretch is carried along with it exactly
      if the two fit the carry; otherwise both are gone and the loss is counted. */
  lemma {:induction false} CarriedExactlyIfItFits(g: Geometry, rx: Rx, s: Bytes, half: Bytes)
    requires 0 < |half| <= g.maxCarry && InStep(rx, s) && AllActive(half) && rx.carry != []
    ensures Poll(g, rx, half)
            == (if |rx.carry| + |half| <= g.maxCarry then Rx(rx.carry + half, rx.capped)
                else Rx([], Inc(rx.capped)), Nothing)
  {
    ActiveLenIs(half, |half|);
  }

  lemma {:induction false} ConcatAppend(images: seq<Bytes>, o: Outcome)
    ensures var more := images + (if o.Image? then [o.bytes] else []);
            Concat(more) == Concat(images) + (if o.Image? then o.bytes else [])
  {
    if o.Image? {
      assert (images + [o.bytes])[..|images|] == images;
    } else {
      assert images + [] == images;
    }
  }

  ghost predicate AllSettled(images: seq<Bytes>) {
    forall i :: 0 <= i < |images| ==> Settled(images[i])
  }

  lemma {:induction false} NoCapInPrefix(g: Geometry, hs: seq<Bytes>, prev: seq<Bytes>)
    requires hs != [] && prev == hs[..|hs| - 1] && NoCapHit(g, hs)
    ensures NoCapHit(g, prev)
  {
    forall i | 0 <= i < |prev|
      ensures !CapHit(g, Concat(prev[..i]), prev[i])
    {
      assert prev[..i] == hs[..i] && prev[i] == hs[i];
    }
  }

  lemma {:induction false} NoCapAppended(g: Geometry, hs: seq<Bytes>, prev: seq<Bytes>)
    requires hs != [] && prev == hs[..|hs| - 1] && NoCapHit(g, prev)
    requires !CapHit(g, Concat(prev), hs[|hs| - 1])
    ensures NoCapHit(g, hs)
  {
    forall i | 0 <= i < |hs|
      ensures !CapHit(g, Concat(hs[..i]), hs[i])
    {
      if i < |prev| {
        assert prev[..i] == hs[..i] && prev[i] == hs[i];
      }
    }
  }

  lemma {:induction false} Extend(images: seq<Bytes>, o: Outcome, all: Bytes)
    requires Concat(images) == all && AllSettled(images) && (o.Image? ==> Settled(o.bytes))
    ensures var more := images + (if o.Image? then [o.bytes] else []);
            Concat(more) == all + (if o.Image? then o.bytes else []) && AllSettled(more)
  {
    ConcatAppend(images, o);
  }

  // ---- What survives the carry budget ----

  /** The stream with every stretch that outgrew the budget cut out: when a half hits it, that half
      and the active stretch it continues are gone. */
  ghost function Surviving(g: Geometry, hs: seq<Bytes>): Bytes {
    if hs == [] then []
    else
      var s, half := Surviving(g, hs[..|hs| - 1]), hs[|hs| - 1];
      if CapHit(g, s, half) then Body(s) else s + half
  }

  /** How often that happens. */
  ghost function Caps(g: Geometry, hs: seq<Bytes>): nat {
    if hs == [] then 0
    else
      var prev, half := hs[..|hs| - 1], hs[|hs| - 1];
      Caps(g, prev) + if CapHit(g, Surviving(g, prev), half) then 1 else 0
  }

  lemma SettledHasNoTail(s: Bytes)
    requires Settled(s)
    ensures Tail(s) == [] && Body(s) == s
  {
  }

  /** One half, whether or not it hits the budget. */
  lemma {:induction false} SurvivorStep(g: Geometry, hs: seq<Bytes>)
    requires 0 < g.buf <= g.maxCarry && Halves(g, hs) && hs != []
    requires var prev := hs[..|hs| - 1]; InStep(After(g, prev), Surviving(g, prev))
    ensures var prev := hs[..|hs| - 1];
            var o := Poll(g, After(g, prev), hs[|hs| - 1]).1;
            && InStep(After(g, hs), Surviving(g, hs))
            && Body(Surviving(g, hs)) == Body(Surviving(g, prev)) + (if o.Image? then o.bytes else [])
            && (o.Image? ==> Settled(o.bytes))
  {
    var prev, half := hs[..|hs| - 1], hs[|hs| - 1];
    var s := Surviving(g, prev);
    if CapHit(g, s, half) {
      CapStep(g, After(g, prev), s, half);
      SettledHasNoTail(Body(s));
    } else {
      PollStep(g, After(g, prev), s, half);
    }
  }

  /** The state after any halves. */
  lemma {:induction false} StaysInStep(g: Geometry, hs: seq<Bytes>)
    requires 0 < g.buf <= g.maxCarry && Halves(g, hs)
    ensures InStep(After(g, hs), Surviving(g, hs))
    ensures Concat(Images(g, hs)) == Body(Surviving(g, hs))
    ensures AllSettled(Images(g, hs))
  {
    if hs != [] {
      var prev, half := hs[..|hs| - 1], hs[|hs| - 1];
      StaysInStep(g, prev);
      SurvivorStep(g, hs);
      Extend(Images(g, prev), Poll(g, After(g, prev), half).1, Body(Surviving(g, prev)));
    }
  }

  ghost predicate Counted(n: nat, c: U32) { c == n % U32_SPAN }

  lemma IncCounted(n: nat, c: U32)
    requires Counted(n, c)
    ensures Counted(n + 1, Inc(c))
  {
  }

  lemma {:induction false} PollCounted(g: Geometry, rx: Rx, s: Bytes, half: Bytes, n: nat, k: nat)
    requires 0 < |half| <= g.maxCarry && InStep(rx, s) && Counted(n, rx.capped)
    requires k == if CapHit(g, s, half) then n + 1 else n
    ensures Counted(k, Poll(g, rx, half).0.capped)
  {
    if CapHit(g, s, half) {
      CapStep(g, rx, s, half);
      IncCounted(n, rx.capped);
    } else {
      PollStep(g, rx, s, half);
    }
  }

  lemma {:induction false} CapsAreCounted(g: Geometry, hs: seq<Bytes>)
    requires 0 < g.buf <= g.maxCarry && Halves(g, hs)
    ensures Counted(Caps(g, hs), After(g, hs).capped)
  {
    if hs != [] {
      var prev := hs[..|hs| - 1];
      CapsAreCounted(g, prev);
      StaysInStep(g, prev);
      PollCounted(g, After(g, prev), Surviving(g, prev), hs[|hs| - 1], Caps(g, prev), Caps(g, hs));
    }
  }

  /** Nothing is cut exactly when no half hits the budget; otherwise something is. */
  lemma {:induction false} CutsExactlyAtCaps(g: Geometry, hs: seq<Bytes>)
    requires 0 < g.buf && Halves(g, hs)
    ensures |Surviving(g, hs)| + Caps(g, hs) <= |Concat(hs)|
    ensures Caps(g, hs) == 0 ==> Surviving(g, hs) == Concat(hs)
    ensures Caps(g, hs) == 0 <==> NoCapHit(g, hs)
  {
    if hs != [] {
      var prev, half := hs[..|hs| - 1], hs[|hs| - 1];
      CutsExactlyAtCaps(g, prev);
      if NoCapHit(g, hs) {
        NoCapInPrefix(g, hs, prev);
      } else if Caps(g, hs) == 0 {
        NoCapAppended(g, hs, prev);
      }
    }
  }

  lemma {:induction false} FoundInConcat(images: seq<Bytes>, min: nat)
    requires AllSettled(images)
    ensures Settled(Concat(images))
    ensures FoundIn(images, min) == AtLeast(Runs(Concat(images)), min)
  {
    if images != [] {
      var prev, last := images[..|images| - 1], images[|images| - 1];
      FoundInConcat(prev, min);
      RunsConcat(Concat(prev), last);
      AtLeastConcat(Runs(Concat(prev)), Runs(last), min);
    }
  }

  /** Half-buffer boundaries are invisible, whatever the halves hold: the images followed by the
      carry are what survives of the stream, the carry is its trailing active stretch, the counter
      counts the cuts, every image is empty or ends idle, and the runs found image by image are
      exactly, and in order, the runs of what survives up to that stretch. */
  lemma {:induction false} SurvivorsArrive(g: Geometry, hs: seq<Bytes>, min: nat)
    requires 0 < g.buf <= g.maxCarry && Halves(g, hs)
    ensures Concat(Images(g, hs)) + After(g, hs).carry == Surviving(g, hs)
    ensures After(g, hs).carry == Tail(Surviving(g, hs))
    ensures After(g, hs).capped == Caps(g, hs) % U32_SPAN
    ensures AllSettled(Images(g, hs))
    ensures FoundIn(Images(g, hs), min) == AtLeast(Runs(Body(Surviving(g, hs))), min)
  {
    StaysInStep(g, hs);
    CapsAreCounted(g, hs);
    FoundInConcat(Images(g, hs), min);
  }

  /** Over halves that never hit the budget, that is the uncut stream. */
  lemma {:induction false} BoundariesInvisible(g: Geometry, hs: seq<Bytes>, min: nat)
    requires 0 < g.buf <= g.maxCarry && Halves(g, hs) && NoCapHit(g, hs)
    ensures Concat(Images(g, hs)) + After(g, hs).carry == Concat(hs)
    ensures After(g, hs).carry == Tail(Concat(hs)) && After(g, hs).capped == 0
    ensures AllSettled(Images(g, hs))
    ensures FoundIn(Images(g, hs), min) == AtLeast(Runs(Body(Concat(hs))), min)
  {
    SurvivorsArrive(g, hs, min);
    CutsExactlyAtCaps(g, hs);
  }

  /** The exact condition: samples are conserved if and only if no half continues an active
      stretch past the carry budget. */
  lemma {:induction false} ConservedExactlyWithoutCap(g: Geometry, hs: seq<Bytes>)
    requires 0 < g.buf <= g.maxCarry && Halves(g, hs)
    ensures Concat(Images(g, hs)) + After(g, hs).carry == Concat(hs) <==> NoCapHit(g, hs)
  {
    SurvivorsArrive(g, hs, 0);
    CutsExactlyAtCaps(g, hs);
  }

  /** On the device a cap needs an active stretch longer than one 16 KB half. */
  lemma {:induction false} DeviceCapNeedsLongStretch(before: Bytes, half: Bytes)
    requires |half| == 16384 && CapHit(Geometry(16384, 16384), before, half)
    ensures TrailLen(before + half) > 16384
  {
    TrailLenIs(before + half, TrailLen(before) + |half|);
  }

  /** n bytes of line noise. */
  ghost function Noise(n: nat): (r: Bytes)
    ensures |r| == n && AllActive(r)
  {
    if n == 0 then [] else Noise(n - 1) + [0x55]
  }

  lemma {:induction false} HalfCarried(g: Geometry, h: Bytes)
    requires 0 < |h| == g.buf <= g.maxCarry < 2 * g.buf && AllActive(h)
    ensures After(g, [h]) == Rx(h, 0) && InStep(After(g, [h]), h)
    ensures Concat([h]) == h && CapHit(g, h, h)
  {
    assert [h][..0] == [];
    TailFromIsTrail(g, h, 0, |h|);
    TrailLenIs(h, |h|);
    assert h[0..] == h;
    assert After(g, [h]) == Poll(g, START, h).0;
  }

  lemma {:induction false} TwoActiveHalves(g: Geometry, h: Bytes, hs: seq<Bytes>)
    requires 0 < |h| == g.buf <= g.maxCarry < 2 * g.buf && AllActive(h) && hs == [h, h]
    ensures CapHit(g, Concat([h]), h) && After(g, hs) == Rx([], 1)
  {
    assert hs[..1] == [h];
    HalfCarried(g, h);
    CapStep(g, After(g, [h]), h, h);
  }

  lemma {:induction false} SecondHalfLost(g: Geometry, h: Bytes, hs: seq<Bytes>)
    requires 0 < |h| == g.buf <= g.maxCarry && hs == [h, h] && CapHit(g, Concat([h]), h)
    ensures Concat(Images(g, hs)) + After(g, hs).carry != Concat(hs)
  {
    assert hs[..1] == [h];
    assert !NoCapHit(g, hs) by {
      assert CapHit(g, Concat(hs[..1]), hs[1]);
    }
    ConservedExactlyWithoutCap(g, hs);
  }

  /** Two halves of noise on the device: the first is carried, the second overflows the carry, and
      both are gone. */
  lemma NoiseIsLost() returns (h: Bytes)
    ensures |h| == 16384 && AllActive(h) && CapHit(DEVICE, Concat([h]), h)
    ensures After(DEVICE, [h, h]) == Rx([], 1)
    ensures Concat(Images(DEVICE, [h, h])) + After(DEVICE, [h, h]).carry != Concat([h, h])
  {
    h := Noise(DEVICE.buf);
    TwoActiveHalves(DEVICE, h, [h, h]);
    SecondHalfLost(DEVICE, h, [h, h]);
  }
}
