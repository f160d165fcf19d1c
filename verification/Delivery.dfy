/** A transmitted frame, its end-of-frame marker and the silence after it, anywhere in an image:
    found as one run, decoded and published. */
module Delivery {
  import opened Wire
  import opened Samples
  import opened Manchester
  import opened Drift
  import opened Line
  import R = Runs
  import F = Framing
  import D = Dpll
  import S = Receive

  // ---- The end of a transmission ----

  lemma {:induction false} LineHalvesConcat(a: seq<bv32>, b: seq<bv32>)
    ensures F.LineHalves(a + b) == F.LineHalves(a) + F.LineHalves(b)
    decreases |a|
  {
    if a == [] {
      assert a + b == b;
    } else {
      assert (a + b)[1..] == a[1..] + b;
      LineHalvesConcat(a[1..], b);
    }
  }

  lemma LowCode(w: bv32, rest: bv32, n: nat)
    requires n > 0 && w & 3 == 2 && w >> 2 == rest
    ensures Halves(w, n) == [false] + Halves(rest, n - 1)
  {
  }

  lemma {:induction false} IdleCodes(n: nat)
    ensures forall i :: 0 <= i < n ==> Halves(0, n)[i]
    decreases n
  {
    if n > 0 {
      assert 0 as bv32 >> 2 == 0;
      IdleCodes(n - 1);
      assert Halves(0, n) == [true] + Halves(0, n - 1);
    }
  }

  /** TP_IDL (IEEE 802.3 clause 14) arrives as six low half-bits, then ten high ones. */
  lemma EndMarker()
    ensures |F.LineHalves([F.TP_IDL])| == 16
    ensures forall i :: 0 <= i < 16 ==> F.LineHalves([F.TP_IDL])[i] == (i >= 6)
  {
    LowCode(0xAAA, 0x2AA, 16);
    LowCode(0x2AA, 0xAA, 15);
    LowCode(0xAA, 0x2A, 14);
    LowCode(0x2A, 0xA, 13);
    LowCode(0xA, 0x2, 12);
    LowCode(0x2, 0x0, 11);
    IdleCodes(10);
    assert [F.TP_IDL][1..] == [];
    assert F.LineHalves([F.TP_IDL]) == [false, false, false, false, false, false] + Halves(0, 10);
  }

  /** End marker and idle words, as received. */
  ghost function Ending(): (r: seq<bool>)
    ensures |r| == 208
  {
    F.LineHalves([F.TP_IDL] + F.IdleWords(12))
  }

  lemma EndingStartsLow()
    ensures forall i :: 0 <= i < 6 ==> !Ending()[i]
  {
    LineHalvesConcat([F.TP_IDL], F.IdleWords(12));
    EndMarker();
  }

  /** Everything on the line for one frame when the first 2q preamble bits are lost. */
  ghost function Emission(wire: Bytes, q: nat): (r: seq<bool>)
    requires q <= 30
  {
    LineLevels(wire, q) + Ending()
  }

  lemma {:induction false} ThenEnding(words: seq<bv32>)
    ensures F.LineHalves(words + [F.TP_IDL] + F.IdleWords(12)) == F.LineHalves(words) + Ending()
  {
    LineHalvesConcat(words, [F.TP_IDL] + F.IdleWords(12));
    assert words + [F.TP_IDL] + F.IdleWords(12) == words + ([F.TP_IDL] + F.IdleWords(12));
  }

  /** With nothing lost it is what `SendRawFrame` emits. */
  lemma {:induction false} EmissionIsSent(body: Bytes)
    ensures Emission(F.WireFrame(body), 0)
            == F.LineHalves(F.Emitted(body))
  {
    ThenEnding(F.Words(F.PREAMBLE + F.WireFrame(body)));
  }

  lemma {:induction false} EmissionIsCoded(wire: Bytes, q: nat)
    requires q <= 30
    ensures Emission(wire, q) == Coded(LineBits(wire, q)) + Ending()
  {
    LevelsAreCoded(wire, q);
  }

  // ---- Samples of a stretch of half-bits ----

  lemma {:induction false} SampledConcat(a: seq<bool>, b: seq<bool>, u: seq<nat>, v: seq<nat>)
    requires |a| == |u| && |b| == |v|
    ensures Sampled(a + b, u + v) == Sampled(a, u) + Sampled(b, v)
    decreases |b|
  {
    if b == [] {
      assert a + b == a && u + v == u;
    } else {
      var n := |b| - 1;
      assert (a + b)[..|a + b| - 1] == a + b[..n] && (u + v)[..|u + v| - 1] == u + v[..n];
      SampledConcat(a, b[..n], u, v[..n]);
    }
  }

  /** Half-bits lo..hi all have this level. */
  ghost predicate Steady(levels: seq<bool>, lo: nat, hi: nat, x: bool) {
    hi <= |levels| && forall j :: lo <= j < hi ==> levels[j] == x
  }

  lemma {:induction false} SteadySamples(
      buf: Bytes, pre: seq<bool>, levels: seq<bool>, widths: seq<nat>, tail: seq<bool>,
      lo: nat, hi: nat, x: bool, i: nat)
    requires |levels| == |widths| && Received(buf, pre, levels, widths, tail)
    requires lo <= hi && Steady(levels, lo, hi, x) && i < Ns(buf)
    requires |pre| + Start(widths, lo) <= i < |pre| + Start(widths, hi)
    ensures Sample(buf, i) == x
    decreases hi
  {
    if |pre| + Start(widths, hi - 1) <= i {
      ReceivedAt(buf, pre, levels, widths, tail, hi - 1, i);
    } else {
      SteadySamples(buf, pre, levels, widths, tail, lo, hi - 1, x, i);
    }
  }

  // ---- One transmission among other samples ----

  /** The line was high, its idle level, for the last 15 samples. */
  ghost predicate HighBefore(pre: seq<bool>) {
    forall i :: 0 <= i < |pre| < i + 16 ==> pre[i]
  }

  /** What the receiver samples around one transmission: anything before, these bits in Manchester
      code with half-bits of widths u, an ending with half-bits of widths v, anything after. */
  datatype Signal = Signal(pre: seq<bool>, bits: seq<bool>, u: seq<nat>,
                           ending: seq<bool>, v: seq<nat>, tail: seq<bool>)

  ghost function SentWave(x: Signal): Wave
    requires |x.u| == 2 * |x.bits|
  {
    WaveOf(x.bits, |x.pre|, x.u)
  }

  /** The image holds any samples ending in idle, then the Manchester code of these bits in
      half-bits of widths u, then an ending whose first six half-bits are low and last at least
      15 samples, then anything. */
  ghost predicate Burst(img: Bytes, x: Signal)
  {
    && |x.bits| >= 2 && x.bits[0] && |x.u| == 2 * |x.bits| && AtLeastTwo(x.u) && x.u[|x.u| - 1] <= 7
    && |x.v| == |x.ending| >= 6 && Steady(x.ending, 0, 6, false) && Start(x.v, 6) >= 15
    && HighBefore(x.pre) && Received(img, x.pre, Coded(x.bits) + x.ending, x.u + x.v, x.tail)
    && |x.pre| + Start(x.u, |x.u|) + Start(x.v, 6) <= Ns(img)
  }

  lemma {:induction false} BurstParts(img: Bytes, x: Signal)
    requires |x.u| == 2 * |x.bits| && |x.v| == |x.ending|
    requires Received(img, x.pre, Coded(x.bits) + x.ending, x.u + x.v, x.tail)
    ensures Received(img, x.pre, Coded(x.bits), x.u, Sampled(x.ending, x.v) + x.tail)
    ensures Received(img, x.pre + Sampled(Coded(x.bits), x.u), x.ending, x.v, x.tail)
    ensures |x.pre + Sampled(Coded(x.bits), x.u)| == |x.pre| + Start(x.u, |x.u|)
  {
    SampledConcat(Coded(x.bits), x.ending, x.u, x.v);
    SampledLength(Coded(x.bits), x.u);
    var a, b := Sampled(Coded(x.bits), x.u), Sampled(x.ending, x.v);
    assert x.pre + (a + b) + x.tail == x.pre + a + (b + x.tail);
    assert x.pre + (a + b) + x.tail == (x.pre + a) + b + x.tail;
  }

  /** The sample of the last level change: the last mid-bit edge, or the boundary after it when
      the last bit ends high. */
  ghost function LastChange(x: Signal): nat
    requires x.bits != [] && |x.u| == 2 * |x.bits|
  {
    |x.pre| + Start(x.u, if x.bits[|x.bits| - 1] then |x.u| - 1 else |x.u|)
  }

  lemma {:induction false} LowInLastHalf(img: Bytes, x: Signal, i: nat)
    requires Burst(img, x) && x.bits[|x.bits| - 1] && i < Ns(img)
    requires |x.pre| + Start(x.u, |x.u| - 1) <= i < |x.pre| + Start(x.u, |x.u|)
    ensures !Sample(img, i)
  {
    BurstParts(img, x);
    CodedAt(x.bits, |x.bits| - 1);
    ReceivedAt(img, x.pre, Coded(x.bits), x.u, Sampled(x.ending, x.v) + x.tail, |x.u| - 1, i);
  }

  lemma {:induction false} LowInEnding(img: Bytes, x: Signal, i: nat)
    requires Burst(img, x)
    requires |x.pre| + Start(x.u, |x.u|) <= i < |x.pre| + Start(x.u, |x.u|) + Start(x.v, 6)
    ensures i < Ns(img) && !Sample(img, i)
  {
    BurstParts(img, x);
    SteadySamples(img, x.pre + Sampled(Coded(x.bits), x.u), x.ending, x.v, x.tail, 0, 6, false, i);
  }

  lemma {:induction false} LowAfter(img: Bytes, x: Signal, i: nat)
    requires Burst(img, x)
    requires LastChange(x) <= i < LastChange(x) + 15
    ensures i < Ns(img) && !Sample(img, i)
  {
    StartGrows(x.u, |x.u| - 1, |x.u|);
    if i < |x.pre| + Start(x.u, |x.u|) {
      LowInLastHalf(img, x, i);
    } else {
      LowInEnding(img, x, i);
    }
  }

  lemma {:induction false} HighUntil(img: Bytes, x: Signal, i: nat)
    requires Burst(img, x)
    requires i < |x.pre| + Start(x.u, 1) < i + 16 && i < Ns(img)
    ensures Sample(img, i)
  {
    BurstParts(img, x);
    if i >= |x.pre| {
      CodedAt(x.bits, 0);
      ReceivedAt(img, x.pre, Coded(x.bits), x.u, Sampled(x.ending, x.v) + x.tail, 0, i);
    }
  }

  lemma {:induction false} BurstShows(img: Bytes, x: Signal)
    requires Burst(img, x)
    ensures Shows(img, SentWave(x))
    ensures var w := SentWave(x); w.e[|x.bits| - 1] < Ns(img)
  {
    BurstParts(img, x);
    StartGrows(x.u, |x.u| - 1, |x.u|);
    WaveShows(img, x.pre, x.bits, x.u, Sampled(x.ending, x.v) + x.tail);
  }

  /** After a last bit that ends high, the boundary to the ending is a level change. */
  lemma {:induction false} BoundaryIsEdge(img: Bytes, x: Signal, t: nat)
    requires Burst(img, x) && !x.bits[|x.bits| - 1] && t == LastChange(x)
    ensures S.Edge(img, t)
  {
    LowAfter(img, x, t);
    BurstParts(img, x);
    CodedAt(x.bits, |x.bits| - 1);
    ReceivedAt(img, x.pre, Coded(x.bits), x.u, Sampled(x.ending, x.v) + x.tail, |x.u| - 1, t - 1);
  }

  lemma {:induction false} LastEdgeAt(x: Signal)
    requires |x.u| == 2 * |x.bits| && x.bits != []
    ensures SentWave(x).e[|x.bits| - 1] == |x.pre| + Start(x.u, |x.u| - 1)
  {
    assert 2 * (|x.bits| - 1) + 1 == |x.u| - 1;
  }

  lemma {:induction false} LastChangeIsEdge(img: Bytes, x: Signal)
    requires Burst(img, x)
    ensures var w, t := SentWave(x), LastChange(x);
            S.Edge(img, t) && w.e[|x.bits| - 1] <= t <= w.e[|x.bits| - 1] + 7
  {
    LastEdgeAt(x);
    if x.bits[|x.bits| - 1] {
      BurstShows(img, x);
      S.MidBitEdge(img, SentWave(x), |x.bits| - 1);
    } else {
      BoundaryIsEdge(img, x, LastChange(x));
    }
  }

  lemma {:induction false} QuietBefore(img: Bytes, x: Signal, i: nat)
    requires Burst(img, x) && i < SentWave(x).e[0] < i + 15
    ensures !S.Edge(img, i)
  {
    if 0 < i < Ns(img) {
      HighUntil(img, x, i);
      HighUntil(img, x, i - 1);
    }
  }

  lemma {:induction false} QuietAfter(img: Bytes, x: Signal, i: nat)
    requires Burst(img, x) && LastChange(x) < i < LastChange(x) + 15
    ensures !S.Edge(img, i)
  {
    LowAfter(img, x, i);
    LowAfter(img, x, i - 1);
  }

  /** One transmission, one run: it is dense from its first mid-bit edge to its last level change,
      and quiet around. */
  lemma {:induction false} BurstIsDense(img: Bytes, x: Signal)
    requires Burst(img, x)
    requires S.SpacingAtMostSeven(SentWave(x))
    ensures var s, t := SentWave(x).e[0], LastChange(x);
            S.Dense(img, s, t) && S.QuietAround(img, s, t) && S.EndByte(t) <= |img|
  {
    var w := SentWave(x);
    BurstShows(img, x);
    LastChangeIsEdge(img, x);
    S.LastEdgeLast(img, w, 0);
    S.MidBitEdge(img, w, 0);
    S.WaveIsDense(img, w, w.e[0], LastChange(x));
    forall i | 0 <= i < w.e[0] < i + 15
      ensures !S.Edge(img, i)
    {
      QuietBefore(img, x, i);
    }
    forall i | LastChange(x) < i < LastChange(x) + 15
      ensures !S.Edge(img, i)
    {
      QuietAfter(img, x, i);
    }
  }

  // ---- The wave inside its run ----

  ghost function Back(places: seq<nat>, d: nat): (r: seq<nat>)
    ensures |r| == |places| && forall i :: 0 <= i < |r| ==> r[i] == SatSub(places[i], d)
  {
    if places == [] then [] else Back(places[..|places| - 1], d) + [SatSub(places[|places| - 1], d)]
  }

  /** The wave seen from sample d on. */
  ghost function From(w: Wave, d: nat): Wave { Wave(w.bits, Back(w.m, d), Back(w.e, d)) }

  /** The wave without its first two bits. */
  ghost function LosePairOf(w: Wave): Wave
    requires 2 <= |w.bits| == |w.m| == |w.e|
  {
    Wave(w.bits[2..], w.m[2..], w.e[2..])
  }

  /** The part of the wave that the decoder locks on to. A run starts at the byte of the first
      level change. If that change falls exactly between two bytes the run begins low, and the
      first high-to-low edge in it is the mid-bit edge of the next 1, two bits later. */
  ghost function Caught(w: Wave): Wave
    requires 2 <= |w.bits| == |w.m| == |w.e|
  {
    if w.e[0] % 8 == 0 then LosePairOf(w) else w
  }

  lemma {:induction false} SampleFrom(img: Bytes, a: nat, b: nat, i: nat)
    requires a <= b <= |img| && i < Ns(img[a..b])
    ensures Sample(img[a..b], i) == Sample(img, 8 * a + i)
  {
    assert (8 * a + i) / 8 == a + i / 8 && (8 * a + i) % 8 == i % 8;
  }

  lemma {:induction false} FirstEdgeFirst(img: Bytes, w: Wave, k: nat)
    requires Shows(img, w) && k < |w.bits|
    ensures w.e[0] <= w.e[k] && (k > 0 ==> w.e[0] + 2 <= w.m[k])
    decreases k
  {
    if k > 0 {
      FirstEdgeFirst(img, w, k - 1);
      EdgesGrow(img, w, k - 1);
      assert Joined(img, w, k - 1);
    }
  }

  lemma {:induction false} SamplesFrom(img: Bytes, a: nat, b: nat, d: nat)
    requires a <= b <= |img| && d == 8 * a
    ensures Ns(img[a..b]) == 8 * b - d
    ensures forall i :: 0 <= i < Ns(img[a..b]) ==> Sample(img[a..b], i) == Sample(img, d + i)
  {
    forall i | 0 <= i < Ns(img[a..b])
      ensures Sample(img[a..b], i) == Sample(img, d + i)
    {
      SampleFrom(img, a, b, i);
    }
  }

  /** Cells are the same seen from the run, as long as it starts before the first mid-bit edge and
      ends at or after the last. */
  lemma {:induction false} CellFrom(img: Bytes, w: Wave, a: nat, b: nat, d: nat, k: nat)
    requires Shows(img, w) && k < |w.bits| && a <= b <= |img| && d == 8 * a
    requires d < w.e[0] && w.e[|w.bits| - 1] <= 8 * b
    ensures Cell(img[a..b], From(w, d), k)
  {
    assert Cell(img, w, k);
    FirstEdgeFirst(img, w, k);
    S.LastEdgeLast(img, w, k);
    SamplesFrom(img, a, b, d);
  }

  lemma {:induction false} JoinedFrom(img: Bytes, w: Wave, a: nat, b: nat, d: nat, k: nat)
    requires Shows(img, w) && k + 1 < |w.bits| && a <= b <= |img| && d == 8 * a
    requires d < w.e[0] && w.e[|w.bits| - 1] <= 8 * b
    ensures Joined(img[a..b], From(w, d), k)
  {
    assert Joined(img, w, k) && Cell(img, w, k + 1);
    FirstEdgeFirst(img, w, k);
    FirstEdgeFirst(img, w, k + 1);
    S.LastEdgeLast(img, w, k + 1);
    SamplesFrom(img, a, b, d);
  }

  lemma {:induction false} ShowsFrom(img: Bytes, w: Wave, a: nat, b: nat, d: nat)
    requires Shows(img, w) && w.bits != [] && a <= b <= |img| && d == 8 * a
    requires d < w.e[0] && w.e[|w.bits| - 1] <= 8 * b
    ensures Shows(img[a..b], From(w, d))
  {
    forall k | 0 <= k < |w.bits|
      ensures Cell(img[a..b], From(w, d), k)
      ensures k + 1 < |w.bits| ==> Joined(img[a..b], From(w, d), k)
    {
      CellFrom(img, w, a, b, d, k);
      if k + 1 < |w.bits| {
        JoinedFrom(img, w, a, b, d, k);
      }
    }
  }

  lemma {:induction false} ShowsWithoutPair(img: Bytes, w: Wave)
    requires Shows(img, w) && |w.bits| >= 2
    ensures Shows(img, LosePairOf(w))
  {
    var x := LosePairOf(w);
    forall k | 0 <= k < |x.bits|
      ensures Cell(img, x, k)
      ensures k + 1 < |x.bits| ==> Joined(img, x, k)
    {
      assert Cell(img, w, k + 2);
      assert k + 1 < |x.bits| ==> Joined(img, w, k + 2);
    }
  }

  // ---- Timing, seen from the run ----

  /** Timing that the address peek, the lock and the tracking need, from bit p on. */
  ghost predicate Followable(w: Wave, p: nat) {
    && 1 <= p && p + 48 <= |w.bits| == |w.m| == |w.e|
    && OpenLoopOk(w, p + 48) && Near(w, AnchorCentre(w, p), p) && Drifts(w, p)
  }

  lemma NearFrom(w: Wave, d: nat, c: int, from: int, j: nat)
    requires 1 <= j < |w.bits| == |w.m| == |w.e| && d <= w.m[j] <= w.e[j] && Near(w, c, j) && from == c - d
    ensures Near(From(w, d), from, j)
  {
  }

  lemma {:induction false} PlacesFrom(img: Bytes, w: Wave, d: nat, k: nat)
    requires Shows(img, w) && k < |w.bits| && d <= w.e[0]
    ensures From(w, d).e[k] == w.e[k] - d
    ensures k > 0 ==> From(w, d).m[k] == w.m[k] - d && d <= w.m[k] <= w.e[k]
  {
    FirstEdgeFirst(img, w, k);
    assert Cell(img, w, k);
  }

  lemma {:induction false} NextNearFrom(img: Bytes, w: Wave, d: nat, k: nat)
    requires Shows(img, w) && k + 1 < |w.bits| && d <= w.e[0] && Near(w, w.e[k] + 6, k + 1)
    ensures Near(From(w, d), From(w, d).e[k] + 6, k + 1)
  {
    PlacesFrom(img, w, d, k);
    PlacesFrom(img, w, d, k + 1);
    NearFrom(w, d, w.e[k] + 6, From(w, d).e[k] + 6, k + 1);
  }

  lemma {:induction false} DriftsFrom(img: Bytes, w: Wave, d: nat, p: nat)
    requires Shows(img, w) && w.bits != [] && d <= w.e[0] && Drifts(w, p)
    ensures Drifts(From(w, d), p)
  {
    var x := From(w, d);
    forall k | p <= k < |x.bits| - 1
      ensures Near(x, x.e[k] + 6, k + 1)
    {
      assert Near(w, w.e[k] + 6, k + 1);
      NextNearFrom(img, w, d, k);
    }
  }

  lemma {:induction false} FollowableFrom(img: Bytes, w: Wave, d: nat, p: nat)
    requires Shows(img, w) && Followable(w, p) && d <= w.e[0]
    ensures Followable(From(w, d), p)
  {
    var x := From(w, d);
    PlacesFrom(img, w, d, 0);
    PlacesFrom(img, w, d, p);
    forall k | 1 <= k < p + 48
      ensures x.m[k] <= x.e[0] + 4 + 6 * (k - 1) < x.e[k]
    {
      PlacesFrom(img, w, d, k);
    }
    NearFrom(w, d, AnchorCentre(w, p), AnchorCentre(x, p), p);
    DriftsFrom(img, w, d, p);
  }

  // ---- Before the first falling edge of the run ----

  /** Between the mid-bit edges of two 1s with a 0 between them nothing falls. */
  lemma {:induction false} NoFallInPair(img: Bytes, w: Wave, i: nat)
    requires Shows(img, w) && |w.bits| >= 3 && w.bits[0] && !w.bits[1] && w.bits[2]
    requires w.e[0] < i < w.e[2] && i < Ns(img)
    ensures !D.Falls(img, i)
  {
    assert Cell(img, w, 1) && Cell(img, w, 2) && Joined(img, w, 0) && Joined(img, w, 1);
    if i <= w.e[1] {
      assert !Sample(img, i - 1);
    } else {
      assert Sample(img, i);
    }
  }

  lemma {:induction false} NoFallInRun(img: Bytes, x: Signal, i: nat)
    requires Burst(img, x) && |x.bits| >= 3 && !x.bits[1] && x.bits[2]
    requires 8 * S.FirstByte(SentWave(x).e[0]) < i < Caught(SentWave(x)).e[0] && i < Ns(img)
    ensures !D.Falls(img, i)
  {
    BurstShows(img, x);
    if SentWave(x).e[0] % 8 == 0 {
      NoFallInPair(img, SentWave(x), i);
    } else {
      HighUntil(img, x, i);
    }
  }

  lemma {:induction false} FallsFrom(img: Bytes, a: nat, b: nat, d: nat, i: nat, j: nat)
    requires a <= b <= |img| && d == 8 * a && 1 <= i < Ns(img[a..b]) && j == d + i
    ensures 1 <= j < Ns(img) && (D.Falls(img[a..b], i) <==> D.Falls(img, j))
  {
    SampleFrom(img, a, b, i);
    SampleFrom(img, a, b, i - 1);
  }

  lemma {:induction false} NothingFallsFrom(img: Bytes, a: nat, b: nat, d: nat, first: nat)
    requires a <= b <= |img| && d == 8 * a && d <= first
    requires forall j :: d < j < first && j < Ns(img) ==> !D.Falls(img, j)
    ensures forall i :: 1 <= i < Min(first - d, Ns(img[a..b])) ==> !D.Falls(img[a..b], i)
  {
    forall i | 1 <= i < Min(first - d, Ns(img[a..b]))
      ensures !D.Falls(img[a..b], i)
    {
      FallsFrom(img, a, b, d, i, d + i);
    }
  }

  lemma {:induction false} RunStartsQuiet(img: Bytes, x: Signal, a: nat, b: nat, d: nat)
    requires Burst(img, x) && |x.bits| >= 3 && !x.bits[1] && x.bits[2]
    requires a == S.FirstByte(SentWave(x).e[0]) && a <= b <= |img| && d == 8 * a
    ensures QuietLead(img[a..b], From(Caught(SentWave(x)), d))
  {
    var first := Caught(SentWave(x)).e[0];
    BurstShows(img, x);
    FirstEdgeFirst(img, SentWave(x), 2);
    forall j | d < j < first && j < Ns(img)
      ensures !D.Falls(img, j)
    {
      NoFallInRun(img, x, j);
    }
    NothingFallsFrom(img, a, b, d, first);
  }

  // ---- The run carries the frame ----

  /** The signal is everything the transmitter emits for this frame, its first 2q preamble bits
      lost. */
  ghost predicate Sends(x: Signal, wire: Bytes, q: nat) {
    q <= 29 && x.bits == LineBits(wire, q) && Coded(x.bits) + x.ending == Emission(wire, q)
  }

  /** Preamble bits not used for locking on, in pairs. */
  ghost function Skipped(x: Signal, q: nat): nat
    requires x.bits != [] && |x.u| == 2 * |x.bits|
  {
    if SentWave(x).e[0] % 8 == 0 then q + 1 else q
  }

  /** The last bit's spacing is at least 6, or three samples of the run follow its edge. */
  ghost predicate EndsWell(w: Wave, t: nat)
    requires 2 <= |w.bits| == |w.m| == |w.e|
  {
    var n := |w.bits|;
    w.e[n - 2] + 6 <= w.e[n - 1] || w.e[n - 1] + 2 < 8 * S.EndByte(t)
  }

  /** These bytes on the line, with timing the receiver can follow. */
  ghost predicate Receivable(img: Bytes, x: Signal, q: nat, wire: Bytes) {
    && Burst(img, x) && Sends(x, wire, q)
    && S.SpacingAtMostSeven(SentWave(x))
    && Followable(Caught(SentWave(x)), DataFrom(Skipped(x, q)))
    && EndsWell(Caught(SentWave(x)), LastChange(x))
  }

  /** A frame whose header does not declare it shorter than it is, and that the decoder has room for. */
  ghost predicate Sendable(body: Bytes) {
    F.Consistent(body) && |F.WireFrame(body)| <= 1600
  }

  lemma {:induction false} CaughtShows(img: Bytes, x: Signal, d: nat)
    requires Burst(img, x) && |x.bits| >= 4 && d == 8 * S.FirstByte(SentWave(x).e[0])
    ensures var w := Caught(SentWave(x));
            && Shows(img, w) && |w.bits| >= 2
            && d < w.e[0] && w.e[|w.bits| - 1] == SentWave(x).e[|x.bits| - 1]
  {
    var w := SentWave(x);
    BurstShows(img, x);
    ShowsWithoutPair(img, w);
    EdgesGrow(img, w, 0);
    EdgesGrow(img, w, 1);
  }

  lemma {:induction false} StartsOneZeroOne(wire: Bytes, q: nat)
    requires q <= 29
    ensures var bits := LineBits(wire, q); |bits| >= 4 && bits[0] && !bits[1] && bits[2]
  {
    LineBitsStart(wire, q);
    assert DataFrom(q) >= 6;
  }

  lemma {:induction false} OneMorePair(wire: Bytes, q: nat, k: nat)
    requires q <= 29 && k == q + 1
    ensures LineBits(wire, k) == LineBits(wire, q)[2..]
  {
  }

  /** The bits caught are those of a line on which k pairs were lost. */
  lemma {:induction false} CaughtBits(x: Signal, wire: Bytes, q: nat, k: nat)
    requires |x.u| == 2 * |x.bits| && Sends(x, wire, q) && |x.bits| >= 2 && k == Skipped(x, q)
    ensures k <= 30 && Caught(SentWave(x)).bits == LineBits(wire, k)
  {
    if k != q {
      OneMorePair(wire, q, k);
    }
  }

  lemma {:induction false} LastEdgeInRun(img: Bytes, x: Signal)
    requires Burst(img, x)
    ensures SentWave(x).e[|x.bits| - 1] <= LastChange(x) <= 8 * S.EndByte(LastChange(x))
  {
    LastChangeIsEdge(img, x);
  }

  /** The run shows a followable wave: preamble and SFD in p bits, then these bytes. */
  ghost predicate Carries(buf: Bytes, w: Wave, p: nat, wire: Bytes) {
    && Shows(buf, w) && Followable(w, p) && QuietLead(buf, w)
    && PreambleThenSfd(w.bits, p) && w.bits[p..] == BitsOfBytes(wire) && p <= 64
  }

  lemma CarriesIsConveyed(buf: Bytes, w: Wave, p: nat, body: Bytes)
    requires Sendable(body)
    requires Carries(buf, w, p, F.WireFrame(body)) && TailOk(buf, w)
    ensures S.Conveys(buf, w, p, body)
  {
  }

  lemma {:induction false} LineCarriesBits(wire: Bytes, k: nat, p: nat)
    requires k <= 30 && p == DataFrom(k)
    ensures PreambleThenSfd(LineBits(wire, k), p) && LineBits(wire, k)[p..] == BitsOfBytes(wire)
    ensures p <= 64
  {
    LineBitsStart(wire, k);
    LineBitsEnd(wire, k);
  }

  lemma {:induction false} RunFollows(img: Bytes, x: Signal, p: nat, w: Wave, a: nat, b: nat, d: nat)
    requires Burst(img, x) && |x.bits| >= 4 && !x.bits[1] && x.bits[2]
    requires w == Caught(SentWave(x)) && Followable(w, p)
    requires a == S.FirstByte(SentWave(x).e[0]) && b == S.EndByte(LastChange(x)) && d == 8 * a
    requires a <= b <= |img|
    ensures Shows(img[a..b], From(w, d)) && Followable(From(w, d), p) && QuietLead(img[a..b], From(w, d))
  {
    CaughtShows(img, x, d);
    LastEdgeInRun(img, x);
    ShowsFrom(img, w, a, b, d);
    FollowableFrom(img, w, d, p);
    RunStartsQuiet(img, x, a, b, d);
  }

  lemma {:induction false} RunCarries(
      img: Bytes, x: Signal, wire: Bytes, q: nat, k: nat, p: nat, w: Wave, a: nat, b: nat, d: nat)
    requires Burst(img, x) && Sends(x, wire, q) && k == Skipped(x, q) && p == DataFrom(k)
    requires w == Caught(SentWave(x)) && Followable(w, p)
    requires a == S.FirstByte(SentWave(x).e[0]) && b == S.EndByte(LastChange(x)) && d == 8 * a
    requires a <= b <= |img|
    ensures Carries(img[a..b], From(w, d), p, wire)
  {
    StartsOneZeroOne(wire, q);
    CaughtBits(x, wire, q, k);
    LineCarriesBits(wire, k, p);
    RunFollows(img, x, p, w, a, b, d);
  }

  lemma TailOkFrom(buf: Bytes, w: Wave, from: Wave, n: nat, d: nat, t: nat)
    requires 2 <= n == |w.bits| == |w.m| == |w.e| == |from.bits| == |from.m| == |from.e| && EndsWell(w, t)
    requires from.e[n - 1] == w.e[n - 1] - d && from.e[n - 2] == w.e[n - 2] - d
    requires Ns(buf) == 8 * S.EndByte(t) - d
    ensures TailOk(buf, from)
  {
  }

  /** The last edges, seen from the run. */
  lemma {:induction false} RunEnds(img: Bytes, x: Signal, w: Wave, a: nat, b: nat, d: nat)
    requires Burst(img, x) && |x.bits| >= 4 && w == Caught(SentWave(x)) && EndsWell(w, LastChange(x))
    requires a == S.FirstByte(SentWave(x).e[0]) && b == S.EndByte(LastChange(x)) && d == 8 * a
    requires a <= b <= |img|
    ensures TailOk(img[a..b], From(w, d))
    ensures LastChange(x) <= d + From(w, d).e[|w.bits| - 1] + 7
  {
    var n := |w.bits|;
    CaughtShows(img, x, d);
    LastChangeIsEdge(img, x);
    PlacesFrom(img, w, d, n - 2);
    PlacesFrom(img, w, d, n - 1);
    SamplesFrom(img, a, b, d);
    TailOkFrom(img[a..b], w, From(w, d), n, d, LastChange(x));
  }

  lemma {:induction false} RunConveys(
      img: Bytes, x: Signal, q: nat, body: Bytes, w: Wave, p: nat, a: nat, b: nat, d: nat)
    requires Sendable(body) && Receivable(img, x, q, F.WireFrame(body))
    requires w == Caught(SentWave(x)) && p == DataFrom(Skipped(x, q))
    requires a == S.FirstByte(SentWave(x).e[0]) && b == S.EndByte(LastChange(x)) && d == 8 * a
    requires a <= b <= |img|
    ensures S.Conveys(img[a..b], From(w, d), p, body)
    ensures LastChange(x) <= d + From(w, d).e[|w.bits| - 1] + 7
  {
    var wire := F.WireFrame(body);
    StartsOneZeroOne(wire, q);
    RunCarries(img, x, wire, q, Skipped(x, q), p, w, a, b, d);
    RunEnds(img, x, w, a, b, d);
    CarriesIsConveyed(img[a..b], From(w, d), p, body);
  }

  lemma {:induction false} RunBounds(img: Bytes, x: Signal)
    requires Burst(img, x) && S.SpacingAtMostSeven(SentWave(x))
    ensures S.FirstByte(SentWave(x).e[0]) < S.EndByte(LastChange(x)) <= |img|
  {
    BurstIsDense(img, x);
    S.OneFrameOneRun(img, SentWave(x).e[0], LastChange(x));
  }

  /** Bytes a..b of the image are one run; exactly these frames are published from it, between what
      is published from the bytes before and from those after. */
  ghost predicate Publishes(img: Bytes, a: nat, b: nat, frames: seq<Bytes>, our: Bytes) {
    && a < b <= |img|
    && S.ProcessAll(R.AtLeast(R.Runs(img), S.MIN_RUN), our)
       == S.ProcessAll(R.AtLeast(R.Runs(img[..a]), S.MIN_RUN), our)
          + frames
          + S.ProcessAll(R.Remaining(img, b, S.MIN_RUN), our)
  }

  lemma {:induction false} PublishedFromRun(
      img: Bytes, x: Signal, q: nat, body: Bytes, our: Bytes, s: nat, t: nat, d: nat)
    requires Sendable(body) && Receivable(img, x, q, F.WireFrame(body))
    requires s == SentWave(x).e[0] && t == LastChange(x) && d == 8 * S.FirstByte(s)
    requires S.FirstByte(s) < S.EndByte(t) <= |img|
    ensures Publishes(img, S.FirstByte(s), S.EndByte(t), S.Passed(body, our), our)
  {
    var w, p := Caught(SentWave(x)), DataFrom(Skipped(x, q));
    BurstIsDense(img, x);
    RunConveys(img, x, q, body, w, p, S.FirstByte(s), S.EndByte(t), d);
    S.FrameInImageIsPublished(img, s, t, From(w, d), p, body, our);
  }

  /** Delivery. Anywhere in an image, at any alignment, among any other samples: a transmission of
      a consistent frame, with timing the receiver can follow, is found as one run, between what is
      published from the bytes before it and after it. It is published as exactly the frame sent
      if that is sent to us or to a group, and a frame to any other address publishes nothing. */
  lemma {:induction false} SentFrameIsPublished(img: Bytes, x: Signal, q: nat, body: Bytes, our: Bytes)
    requires Sendable(body) && Receivable(img, x, q, F.WireFrame(body))
    ensures Publishes(img, S.FirstByte(SentWave(x).e[0]), S.EndByte(LastChange(x)), S.Passed(body, our), our)
  {
    RunBounds(img, x);
    PublishedFromRun(img, x, q, body, our, SentWave(x).e[0], LastChange(x),
                     8 * S.FirstByte(SentWave(x).e[0]));
  }

  // ---- The undistorted line ----

  /** Six samples to the bit, three to the half-bit. */
  ghost predicate Even(w: Wave, at: nat) {
    && |w.bits| == |w.m| == |w.e|
    && forall k :: 0 <= k < |w.bits| ==> w.m[k] == at + 6 * k && w.e[k] == at + 6 * k + 3
  }

  lemma {:induction false} EvenWave(pre: seq<bool>, bits: seq<bool>, u: seq<nat>)
    requires |u| == 2 * |bits| && AllThree(u)
    ensures Even(WaveOf(bits, |pre|, u), |pre|)
  {
    forall k | 0 <= k < |bits|
      ensures Start(u, 2 * k) == 6 * k && Start(u, 2 * k + 1) == 6 * k + 3
    {
      StartOfThrees(u, 2 * k);
      StartOfThrees(u, 2 * k + 1);
    }
  }

  lemma {:induction false} EvenCaught(w: Wave, at: nat) returns (from: nat)
    requires Even(w, at) && |w.bits| >= 4
    ensures Even(Caught(w), from)
  {
    from := if w.e[0] % 8 == 0 then at + 12 else at;
    var x := Caught(w);
    var skip := if w.e[0] % 8 == 0 then 2 else 0;
    forall k | 0 <= k < |x.bits|
      ensures x.m[k] == w.m[k + skip] && x.e[k] == w.e[k + skip]
    {
    }
  }

  lemma EvenIsFollowable(w: Wave, at: nat, p: nat, t: nat)
    requires Even(w, at) && 1 <= p && p + 48 <= |w.bits|
    ensures Followable(w, p) && EndsWell(w, t) && S.SpacingAtMostSeven(w)
  {
  }

  /** A frame at the nominal rate, with any samples before and after it. */
  ghost function NominalSignal(pre: seq<bool>, wire: Bytes, tail: seq<bool>): (x: Signal)
  {
    Signal(pre, LineBits(wire, 0), Threes(2 * |LineBits(wire, 0)|), Ending(), Threes(|Ending()|), tail)
  }

  ghost function Capture(x: Signal): Bytes
    requires |x.u| == 2 * |x.bits| && |x.v| == |x.ending|
  {
    PackBytes(x.pre + Sampled(Coded(x.bits) + x.ending, x.u + x.v) + x.tail)
  }

  /** A sampled nominal transmission, seen whole at least to the end of its end marker. */
  lemma {:induction false} NominalBurst(img: Bytes, x: Signal)
    requires |x.bits| >= 2 && x.bits[0] && |x.u| == 2 * |x.bits|
    requires AllThree(x.u) && AllThree(x.v) && x.ending == Ending() && |x.v| == |x.ending|
    requires HighBefore(x.pre) && Received(img, x.pre, Coded(x.bits) + x.ending, x.u + x.v, x.tail)
    requires |x.pre| + 6 * |x.bits| + 18 <= Ns(img)
    ensures Burst(img, x)
  {
    StartOfThrees(x.u, |x.u|);
    StartOfThrees(x.v, 6);
    EndingStartsLow();
  }

  lemma {:induction false} CaptureIsReceived(x: Signal)
    requires |x.u| == 2 * |x.bits| && |x.v| == |x.ending| == 208 && AllThree(x.u) && AllThree(x.v)
    requires |x.bits| % 8 == 0 && (|x.pre| + |x.tail|) % 8 == 0
    ensures Received(Capture(x), x.pre, Coded(x.bits) + x.ending, x.u + x.v, x.tail)
    ensures |x.pre| + 6 * |x.bits| + 18 <= Ns(Capture(x))
  {
    var levels, widths := Coded(x.bits) + x.ending, x.u + x.v;
    assert AllThree(widths);
    ThreeOfEach(levels, widths);
    PackedIsReceived(x.pre, levels, widths, x.tail);
  }

  lemma WholeBytes(wire: Bytes)
    ensures |LineBits(wire, 0)| % 8 == 0
  {
  }

  lemma {:induction false} NominalTimingHolds(x: Signal, wire: Bytes)
    requires |wire| >= 64 && Sends(x, wire, 0) && |x.u| == 2 * |x.bits| && AllThree(x.u)
    ensures S.SpacingAtMostSeven(SentWave(x))
    ensures Followable(Caught(SentWave(x)), DataFrom(Skipped(x, 0)))
    ensures EndsWell(Caught(SentWave(x)), LastChange(x))
  {
    var w, p := SentWave(x), DataFrom(Skipped(x, 0));
    EvenWave(x.pre, x.bits, x.u);
    EvenIsFollowable(w, |x.pre|, 64, LastChange(x));
    var from := EvenCaught(w, |x.pre|);
    EvenIsFollowable(Caught(w), from, p, LastChange(x));
  }

  lemma {:induction false} NominalSends(x: Signal, wire: Bytes)
    requires x.bits == LineBits(wire, 0) && x.ending == Ending()
    ensures Sends(x, wire, 0)
  {
    EmissionIsCoded(wire, 0);
  }

  lemma {:induction false} NominalIsReceivable(img: Bytes, x: Signal, wire: Bytes)
    requires |wire| >= 64 && x == NominalSignal(x.pre, wire, x.tail) && HighBefore(x.pre)
    requires Received(img, x.pre, Coded(x.bits) + x.ending, x.u + x.v, x.tail)
    requires |x.pre| + 6 * |x.bits| + 18 <= Ns(img)
    ensures Receivable(img, x, 0, wire)
  {
    StartsOneZeroOne(wire, 0);
    NominalSends(x, wire);
    NominalBurst(img, x);
    NominalTimingHolds(x, wire);
  }

  lemma {:induction false} ThreesConcat(a: nat, b: nat)
    ensures Threes(a) + Threes(b) == Threes(a + b)
  {
  }

  lemma {:induction false} EmittedIsCoded(body: Bytes)
    ensures F.LineHalves(F.Emitted(body)) == Coded(LineBits(F.WireFrame(body), 0)) + Ending()
  {
    EmissionIsSent(body);
    EmissionIsCoded(F.WireFrame(body), 0);
  }

  lemma {:induction false} NominalSamples(x: Signal, h: seq<bool>)
    requires h == Coded(x.bits) + x.ending && x.u == Threes(2 * |x.bits|) && x.v == Threes(|x.ending|)
    ensures Sampled(h, Threes(|h|)) == Sampled(Coded(x.bits) + x.ending, x.u + x.v)
  {
    ThreesConcat(|x.u|, |x.v|);
  }

  lemma {:induction false} NominalShape(x: Signal, pre: seq<bool>, wire: Bytes, tail: seq<bool>)
    requires x == NominalSignal(pre, wire, tail)
    ensures x == NominalSignal(x.pre, wire, x.tail) && x.pre == pre && x.tail == tail
    ensures |x.u| == 2 * |x.bits| && |x.v| == |x.ending| == 208 && AllThree(x.u) && AllThree(x.v)
    ensures |x.bits| % 8 == 0
  {
    WholeBytes(wire);
  }

  lemma {:induction false} CaptureIsReceivable(
      img: Bytes, x: Signal, pre: seq<bool>, wire: Bytes, tail: seq<bool>)
    requires x == NominalSignal(pre, wire, tail) && img == Capture(x) && |wire| >= 64
    requires HighBefore(pre) && (|pre| + |tail|) % 8 == 0
    ensures Receivable(img, x, 0, wire)
  {
    NominalShape(x, pre, wire, tail);
    CaptureIsReceived(x);
    NominalIsReceivable(img, x, wire);
  }

  lemma {:induction false} StartsAfter(x: Signal)
    requires x.bits != [] && |x.u| == 2 * |x.bits|
    ensures |x.pre| < 8 * S.FirstByte(SentWave(x).e[0]) + 8
  {
  }

  lemma {:induction false} CaptureIsPublished(
      img: Bytes, x: Signal, pre: seq<bool>, body: Bytes, tail: seq<bool>, our: Bytes)
    returns (a: nat, b: nat)
    requires x == NominalSignal(pre, F.WireFrame(body), tail) && img == Capture(x)
    requires HighBefore(pre) && (|pre| + |tail|) % 8 == 0 && Sendable(body)
    ensures Receivable(img, x, 0, F.WireFrame(body))
    ensures |pre| < 8 * a + 8 && Publishes(img, a, b, S.Passed(body, our), our)
  {
    CaptureIsReceivable(img, x, pre, F.WireFrame(body), tail);
    StartsAfter(x);
    a, b := S.FirstByte(SentWave(x).e[0]), S.EndByte(LastChange(x));
    SentFrameIsPublished(img, x, 0, body, our);
  }

  lemma {:induction false} NominalCapture(h: seq<bool>, pre: seq<bool>, wire: Bytes, tail: seq<bool>)
    requires h == Coded(LineBits(wire, 0)) + Ending()
    ensures PackBytes(pre + Sampled(h, Threes(|h|)) + tail) == Capture(NominalSignal(pre, wire, tail))
  {
    NominalSamples(NominalSignal(pre, wire, tail), h);
  }

  lemma {:induction false} SampledIsPublished(
      img: Bytes, h: seq<bool>, pre: seq<bool>, body: Bytes, tail: seq<bool>, our: Bytes)
    returns (a: nat, b: nat)
    requires h == Coded(LineBits(F.WireFrame(body), 0)) + Ending()
    requires img == PackBytes(pre + Sampled(h, Threes(|h|)) + tail)
    requires HighBefore(pre) && (|pre| + |tail|) % 8 == 0 && Sendable(body)
    ensures Receivable(img, NominalSignal(pre, F.WireFrame(body), tail), 0, F.WireFrame(body))
    ensures |pre| < 8 * a + 8 && Publishes(img, a, b, S.Passed(body, our), our)
  {
    var x := NominalSignal(pre, F.WireFrame(body), tail);
    NominalCapture(h, pre, F.WireFrame(body), tail);
    a, b := CaptureIsPublished(img, x, pre, body, tail, our);
  }

  /** The undistorted case, with no hypothesis on the channel. Whatever samples came before, if the
      line was idle for the last 15, and whatever comes after, at any alignment: three samples
      of every half-bit that `SendRawFrame` emits for a consistent frame make a run of bytes a..b
      in the image, and exactly that frame is published from it if it is for us. */
  lemma {:induction false} NominalFrameIsPublished(
      img: Bytes, h: seq<bool>, pre: seq<bool>, body: Bytes, tail: seq<bool>, our: Bytes)
    returns (a: nat, b: nat)
    requires h == F.LineHalves(F.Emitted(body))
    requires img == PackBytes(pre + Sampled(h, Threes(|h|)) + tail)
    requires HighBefore(pre) && (|pre| + |tail|) % 8 == 0 && Sendable(body)
    ensures Receivable(img, NominalSignal(pre, F.WireFrame(body), tail), 0, F.WireFrame(body))
    ensures |pre| < 8 * a + 8 && Publishes(img, a, b, S.Passed(body, our), our)
  {
    EmittedIsCoded(body);
    a, b := SampledIsPublished(img, h, pre, body, tail, our);
  }
}
