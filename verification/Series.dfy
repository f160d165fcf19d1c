/** A series of frames, one emitted after the other, in one stream of samples. */
module Series {
  import opened Wire
  import opened Samples
  import opened Manchester
  import opened Drift
  import opened Line
  import opened Delivery
  import R = Runs
  import F = Framing
  import D = Dpll
  import S = Receive
  import X = RxStream

  /** A frame and how many samples the line was idle before it, on top of what `SendRawFrame`
      itself leaves after the frame before. */
  datatype Sent = Sent(gap: nat, body: Bytes)

  /** Three samples of every half-bit that `SendRawFrame` emits for this frame. */
  ghost function Airtime(body: Bytes): seq<bool> {
    var h := F.LineHalves(F.Emitted(body));
    Sampled(h, Threes(|h|))
  }

  ghost function Stream(sents: seq<Sent>): seq<bool> {
    if sents == [] then []
    else
      var n := |sents| - 1;
      Stream(sents[..n]) + Repeat(true, sents[n].gap) + Airtime(sents[n].body)
  }

  /** The frames among them that are sent to us or to a group, in order. */
  ghost function AllPassed(sents: seq<Sent>, our: Bytes): seq<Bytes> {
    if sents == [] then []
    else
      var n := |sents| - 1;
      AllPassed(sents[..n], our) + S.Passed(sents[n].body, our)
  }

  ghost predicate AllSendable(sents: seq<Sent>) {
    forall k :: 0 <= k < |sents| ==> Sendable(sents[k].body)
  }

  /** The image holds these samples up to less than a byte before their end, or all of them and then
      the idle line. */
  ghost predicate Records(img: Bytes, stream: seq<bool>) {
    && |stream| <= Ns(img) + 8
    && forall i :: 0 <= i < Ns(img) ==> Sample(img, i) == (i < |stream| ==> stream[i])
  }

  lemma {:induction false} PackedRecords(stream: seq<bool>, n: nat)
    requires (|stream| + n) % 8 == 0
    ensures Records(PackBytes(stream + Repeat(true, n)), stream)
  {
    var s := stream + Repeat(true, n);
    forall i | 0 <= i < |s|
      ensures Sample(PackBytes(s), i) == s[i]
    {
      SampleOfPacked(s, i);
    }
  }

  // ---- Between two frames the line is idle ----

  lemma {:induction false} IdleHalves(n: nat)
    ensures forall i :: 0 <= i < 16 * n ==> F.LineHalves(F.IdleWords(n))[i]
  {
    if n > 0 {
      IdleHalves(n - 1);
      LineHalvesConcat(F.IdleWords(n - 1), [0]);
      IdleCodes(16);
      assert [0 as bv32][1..] == [];
      assert F.LineHalves([0]) == Halves(0, 16);
    }
  }

  /** The end of a transmission: six low half-bits, then the idle level. */
  lemma {:induction false} EndingIs()
    ensures Steady(Ending(), 0, 6, false) && Steady(Ending(), 6, 208, true)
  {
    LineHalvesConcat([F.TP_IDL], F.IdleWords(12));
    EndMarker();
    IdleHalves(12);
  }

  lemma {:induction false} ThirdOf(levels: seq<bool>, n: nat, i: nat)
    requires n == |levels| && i < 3 * n
    ensures |Sampled(levels, Threes(n))| == 3 * n && Sampled(levels, Threes(n))[i] == levels[i / 3]
  {
    var j := i / 3;
    ThreeOfEach(levels, Threes(n));
    StartOfThrees(Threes(n), j);
    StartOfThrees(Threes(n), j + 1);
    SampledAt(levels, Threes(n), j, i);
  }

  /** The last 24 samples are high. */
  ghost predicate EndsHigh(s: seq<bool>) {
    forall i :: 0 <= i < |s| <= i + 24 ==> s[i]
  }

  lemma {:induction false} EmittedEndsHigh(h: seq<bool>, c: seq<bool>)
    requires h == c + Ending()
    ensures Steady(h, |c| + 6, |h|, true)
  {
    EndingIs();
  }

  lemma {:induction false} SampledEndsHigh(h: seq<bool>, n: nat, m: nat)
    requires n == |h| && Steady(h, m, n, true) && m + 8 <= n
    ensures |Sampled(h, Threes(n))| == 3 * n && EndsHigh(Sampled(h, Threes(n)))
  {
    ThreeOfEach(h, Threes(n));
    forall i | 0 <= i < 3 * n <= i + 24
      ensures Sampled(h, Threes(n))[i]
    {
      ThirdOf(h, n, i);
    }
  }

  lemma {:induction false} AirtimeEndsHigh(body: Bytes)
    ensures EndsHigh(Airtime(body)) && |Airtime(body)| >= 24
  {
    var h := F.LineHalves(F.Emitted(body));
    EmittedIsCoded(body);
    EmittedEndsHigh(h, Coded(LineBits(F.WireFrame(body), 0)));
    SampledEndsHigh(h, |h|, |h| - 8);
  }

  lemma {:induction false} StreamEndsHigh(sents: seq<Sent>)
    ensures EndsHigh(Stream(sents))
  {
    if sents != [] {
      AirtimeEndsHigh(sents[|sents| - 1].body);
    }
  }

  lemma {:induction false} HighBeforeNext(before: seq<bool>, gap: nat)
    requires EndsHigh(before)
    ensures HighBefore(before + Repeat(true, gap))
  {
  }

  // ---- The last frame of the series ----

  /** A nominal transmission after which the line stays idle. */
  ghost predicate IsLast(img: Bytes, x: Signal) {
    && Burst(img, x) && AllThree(x.u) && AllThree(x.v) && x.ending == Ending()
    && S.SpacingAtMostSeven(SentWave(x))
    && forall i :: 0 <= i < |x.tail| ==> x.tail[i]
  }

  /** The sample where the line comes back to its idle level. */
  ghost function Rise(x: Signal): nat
    requires |x.v| >= 6
  {
    |x.pre| + Start(x.u, |x.u|) + Start(x.v, 6)
  }

  lemma {:induction false} LowUntilRise(img: Bytes, x: Signal, end: nat, i: nat)
    requires Burst(img, x) && LastChange(x) <= i < Rise(x) && end == |x.pre| + Start(x.u, |x.u|)
    ensures i < Ns(img) && !Sample(img, i)
  {
    if i < end {
      StartGrows(x.u, |x.u| - 1, |x.u|);
      LowInLastHalf(img, x, i);
    } else {
      LowInEnding(img, x, i);
    }
  }

  lemma {:induction false} HighInTail(
      img: Bytes, pre: seq<bool>, ending: seq<bool>, v: seq<nat>, tail: seq<bool>, i: nat)
    requires |ending| == |v| && Received(img, pre, ending, v, tail)
    requires forall k :: 0 <= k < |tail| ==> tail[k]
    requires |pre| + Start(v, |v|) <= i < Ns(img)
    ensures Sample(img, i)
  {
    SampledLength(ending, v);
  }

  lemma {:induction false} HighFromRise(img: Bytes, x: Signal, i: nat)
    requires IsLast(img, x) && Rise(x) <= i < Ns(img)
    ensures Sample(img, i)
  {
    var pre := x.pre + Sampled(Coded(x.bits), x.u);
    BurstParts(img, x);
    if i < |pre| + Start(x.v, 208) {
      EndingIs();
      SteadySamples(img, pre, x.ending, x.v, x.tail, 6, 208, true, i);
    } else {
      HighInTail(img, pre, x.ending, x.v, x.tail, i);
    }
  }

  lemma {:induction false} LevelAfter(img: Bytes, x: Signal, t: nat, rise: nat, i: nat)
    requires IsLast(img, x) && t == LastChange(x) <= i < Ns(img) && rise == Rise(x)
    ensures Sample(img, i) == (i >= rise)
  {
    if i < rise {
      LowUntilRise(img, x, |x.pre| + Start(x.u, |x.u|), i);
    } else {
      HighFromRise(img, x, i);
    }
  }

  lemma SameLevelIsNoEdge(img: Bytes, k: nat, i: nat)
    requires i == k + 1 < Ns(img) && Sample(img, k) == Sample(img, i)
    ensures !S.Edge(img, i)
  {
  }

  lemma {:induction false} SameLevels(img: Bytes, x: Signal, t: nat, rise: nat, k: nat, i: nat)
    requires IsLast(img, x) && t == LastChange(x) && rise == Rise(x)
    requires t <= k && i == k + 1 < Ns(img) && i != rise
    ensures Sample(img, k) == Sample(img, i)
  {
    LevelAfter(img, x, t, rise, k);
    LevelAfter(img, x, t, rise, i);
  }

  /** After the last level change of the frame the only one is the end of the end marker. */
  lemma {:induction false} OneEdgeLeft(img: Bytes, x: Signal, t: nat, rise: nat, i: nat)
    requires IsLast(img, x) && t == LastChange(x) < i && rise == Rise(x) && i != rise
    ensures !S.Edge(img, i)
  {
    if i < Ns(img) {
      var k: nat := i - 1;
      SameLevels(img, x, t, rise, k, i);
      SameLevelIsNoEdge(img, k, i);
    }
  }

  /** One active byte is too short to be scanned. */
  lemma {:induction false} OneByteIsNoRun(img: Bytes, b: nat, c: nat, min: nat)
    requires b <= |img| && min >= 2
    requires forall j :: b <= j < |img| && j != c ==> R.Idle(img[j])
    ensures R.Remaining(img, b, min) == []
  {
    var n := |img|;
    if b <= c < n && !R.Idle(img[c]) {
      R.SkipIdle(img, b, c, min);
      R.SplitRun(img, c, c + 1, min);
      R.SkipIdle(img, c + 1, n, min);
    } else {
      R.SkipIdle(img, b, n, min);
    }
    assert img[n..] == [];
  }

  lemma {:induction false} IdleAfter(img: Bytes, x: Signal, j: nat)
    requires IsLast(img, x) && S.EndByte(LastChange(x)) <= j < |img| && j != S.FirstByte(Rise(x))
    ensures R.Idle(img[j])
  {
    forall i | 8 * j < i < 8 * j + 8
      ensures !S.Edge(img, i)
    {
      OneEdgeLeft(img, x, LastChange(x), Rise(x), i);
    }
    S.NoEdgeMakesIdle(img, j);
  }

  lemma {:induction false} NothingAfter(img: Bytes, x: Signal, b: nat)
    requires IsLast(img, x) && b == S.EndByte(LastChange(x)) <= |img|
    ensures R.Remaining(img, b, S.MIN_RUN) == []
  {
    forall j | b <= j < |img| && j != S.FirstByte(Rise(x))
      ensures R.Idle(img[j])
    {
      IdleAfter(img, x, j);
    }
    OneByteIsNoRun(img, b, S.FirstByte(Rise(x)), S.MIN_RUN);
  }

  // ---- What the image holds before it ----

  lemma {:induction false} RecordsBefore(img: Bytes, x: Signal, before: seq<bool>, gap: nat, a: nat)
    requires Burst(img, x) && AllThree(x.u) && x.pre == before + Repeat(true, gap)
    requires a == S.FirstByte(SentWave(x).e[0]) && a <= |img|
    ensures Records(img[..a], before)
  {
    StartOfThrees(x.u, 1);
    BurstParts(img, x);
    SamplesFrom(img, 0, a, 0);
    assert img[0..a] == img[..a];
    forall i | 0 <= i < Ns(img[..a])
      ensures Sample(img[..a], i) == (i < |before| ==> before[i])
    {
      if i >= |x.pre| {
        HighUntil(img, x, i);
      }
    }
  }

  // ---- Frame by frame ----

  lemma {:induction false} AirtimeIsNominal(body: Bytes, x: Signal)
    requires x == NominalSignal(x.pre, F.WireFrame(body), x.tail)
    ensures Airtime(body) == Sampled(Coded(x.bits) + x.ending, x.u + x.v)
    ensures |Airtime(body)| == 6 * |x.bits| + 624
  {
    var h := F.LineHalves(F.Emitted(body));
    EmittedIsCoded(body);
    NominalSamples(x, h);
    ThreeOfEach(h, Threes(|h|));
  }

  lemma {:induction false} LastIsReceived(img: Bytes, body: Bytes, x: Signal)
    requires x == NominalSignal(x.pre, F.WireFrame(body), Repeat(true, Ns(img)))
    requires Records(img, x.pre + Airtime(body))
    ensures Received(img, x.pre, Coded(x.bits) + x.ending, x.u + x.v, x.tail)
    ensures |x.pre| + 6 * |x.bits| + 18 <= Ns(img)
  {
    AirtimeIsNominal(body, x);
  }

  lemma {:induction false} LastIsReceivable(img: Bytes, body: Bytes, x: Signal)
    requires x == NominalSignal(x.pre, F.WireFrame(body), Repeat(true, Ns(img)))
    requires Records(img, x.pre + Airtime(body)) && HighBefore(x.pre) && F.Consistent(body)
    ensures Receivable(img, x, 0, F.WireFrame(body)) && IsLast(img, x)
  {
    LastIsReceived(img, body, x);
    NominalIsReceivable(img, x, F.WireFrame(body));
  }

  /** What is known about the image once its last frame is taken off: bytes a..b are one run, what
      is before them records the shorter series, and after them nothing is left to find. */
  ghost predicate Splits(img: Bytes, a: nat, b: nat, sents: seq<Sent>) {
    && a < b <= |img| && Records(img[..a], Stream(sents))
    && R.Remaining(img, b, S.MIN_RUN) == []
  }

  lemma {:induction false} LastSplits(img: Bytes, sents: seq<Sent>, gap: nat, body: Bytes, x: Signal, a: nat, b: nat)
    requires Receivable(img, x, 0, F.WireFrame(body)) && IsLast(img, x)
    requires x.pre == Stream(sents) + Repeat(true, gap)
    requires a == S.FirstByte(SentWave(x).e[0]) && b == S.EndByte(LastChange(x))
    ensures Splits(img, a, b, sents)
  {
    RunBounds(img, x);
    RecordsBefore(img, x, Stream(sents), gap, a);
    NothingAfter(img, x, b);
  }

  lemma {:induction false} LastFrame(img: Bytes, sents: seq<Sent>, gap: nat, body: Bytes) returns (x: Signal)
    requires Records(img, Stream(sents) + Repeat(true, gap) + Airtime(body)) && F.Consistent(body)
    ensures x == NominalSignal(Stream(sents) + Repeat(true, gap), F.WireFrame(body), Repeat(true, Ns(img)))
    ensures Receivable(img, x, 0, F.WireFrame(body)) && IsLast(img, x)
  {
    x := NominalSignal(Stream(sents) + Repeat(true, gap), F.WireFrame(body), Repeat(true, Ns(img)));
    StreamEndsHigh(sents);
    HighBeforeNext(Stream(sents), gap);
    LastIsReceivable(img, body, x);
  }

  lemma {:induction false} LastIsPublished(img: Bytes, sents: seq<Sent>, gap: nat, body: Bytes, our: Bytes)
    returns (a: nat, b: nat)
    requires Records(img, Stream(sents) + Repeat(true, gap) + Airtime(body)) && Sendable(body)
    ensures Splits(img, a, b, sents) && Publishes(img, a, b, S.Passed(body, our), our)
  {
    var x := LastFrame(img, sents, gap, body);
    a, b := S.FirstByte(SentWave(x).e[0]), S.EndByte(LastChange(x));
    LastSplits(img, sents, gap, body, x, a, b);
    SentFrameIsPublished(img, x, 0, body, our);
  }

  lemma {:induction false} SilenceIsIdle(img: Bytes)
    requires Records(img, [])
    ensures R.IdleOn(img, 0, |img|)
  {
    forall j | 0 <= j < |img|
      ensures R.Idle(img[j])
    {
      S.NoEdgeMakesIdle(img, j);
    }
  }

  lemma {:induction false} NothingInSilence(img: Bytes)
    requires Records(img, [])
    ensures R.AtLeast(R.Runs(img), S.MIN_RUN) == []
  {
    SilenceIsIdle(img);
    R.SkipIdle(img, 0, |img|, S.MIN_RUN);
    assert img[0..] == img && img[|img|..] == [];
  }

  lemma {:induction false} SeriesStep(
      img: Bytes, sents: seq<Sent>, prev: seq<Sent>, last: Sent, our: Bytes)
    returns (a: nat)
    requires sents != [] && prev == sents[..|sents| - 1] && last == sents[|sents| - 1]
    requires Records(img, Stream(sents)) && Sendable(last.body)
    ensures a <= |img| && Records(img[..a], Stream(prev))
    ensures S.ProcessAll(R.AtLeast(R.Runs(img), S.MIN_RUN), our)
            == S.ProcessAll(R.AtLeast(R.Runs(img[..a]), S.MIN_RUN), our) + S.Passed(last.body, our)
  {
    var b;
    a, b := LastIsPublished(img, prev, last.gap, last.body, our);
  }

  lemma {:induction false} AllButLastSendable(sents: seq<Sent>, prev: seq<Sent>, last: Sent)
    requires sents != [] && prev == sents[..|sents| - 1] && last == sents[|sents| - 1]
    requires AllSendable(sents)
    ensures AllSendable(prev) && Sendable(last.body)
  {
    assert sents == prev + [last];
  }

  /** A series of frames. Any number of consistent frames, whoever they are sent to, emitted one after
      the other at the nominal rate with any silence between them, and captured at any alignment:
      exactly those sent to us or to a group are published, in order. */
  lemma {:induction false} SeriesIsPublished(img: Bytes, sents: seq<Sent>, our: Bytes)
    requires Records(img, Stream(sents)) && AllSendable(sents)
    ensures S.ProcessAll(R.AtLeast(R.Runs(img), S.MIN_RUN), our) == AllPassed(sents, our)
    decreases |sents|
  {
    if sents == [] {
      NothingInSilence(img);
    } else {
      var n := |sents| - 1;
      AllButLastSendable(sents, sents[..n], sents[n]);
      var a := SeriesStep(img, sents, sents[..n], sents[n], our);
      SeriesIsPublished(img[..a], sents[..n], our);
    }
  }

  // ---- No stretch is long enough to hit the carry budget ----

  /** No transmission is an active stretch of this many bytes: 8 + 1600 bytes at 48 samples each. */
  const LONGEST: nat := 9700

  ghost predicate NoLongStretch(img: Bytes) {
    forall lo: nat, hi: nat :: lo <= hi && R.ActiveOn(img, lo, hi) ==> hi - lo < LONGEST
  }

  /** Bytes a..b are less than LONGEST with an idle byte on either side, and after them there is at
      most one active byte, at c. */
  ghost predicate Isolated(img: Bytes, a: nat, b: nat, c: nat) {
    && a < b <= |img| && b - a < LONGEST
    && (a > 0 ==> R.Idle(img[a - 1])) && (b < |img| ==> R.Idle(img[b]))
    && (forall j :: b <= j < |img| && j != c ==> R.Idle(img[j]))
  }

  lemma IdleOutside(img: Bytes, lo: nat, hi: nat, j: nat)
    requires R.ActiveOn(img, lo, hi) && j < |img| && R.Idle(img[j])
    ensures j < lo || hi <= j
  {
  }

  lemma {:induction false} StretchInPart(img: Bytes, a: nat, b: nat, c: nat, lo: nat, hi: nat)
    requires Isolated(img, a, b, c) && NoLongStretch(img[..a])
    requires lo <= hi && R.ActiveOn(img, lo, hi)
    ensures hi - lo < LONGEST
  {
    if a > 0 {
      IdleOutside(img, lo, hi, a - 1);
    }
    if b < |img| {
      IdleOutside(img, lo, hi, b);
    }
    if b <= lo < |img| && lo != c {
      IdleOutside(img, lo, hi, lo);
    }
    if b <= lo && lo + 1 < |img| && lo + 1 != c {
      IdleOutside(img, lo, hi, lo + 1);
    }
    assert hi <= a ==> R.ActiveOn(img[..a], lo, hi);
  }

  lemma {:induction false} StretchesIn(img: Bytes, a: nat, b: nat, c: nat)
    requires Isolated(img, a, b, c) && NoLongStretch(img[..a])
    ensures NoLongStretch(img)
  {
    forall lo: nat, hi: nat | lo <= hi && R.ActiveOn(img, lo, hi)
      ensures hi - lo < LONGEST
    {
      StretchInPart(img, a, b, c, lo, hi);
    }
  }

  lemma {:induction false} FrameIsShort(x: Signal, a: nat, b: nat)
    requires |x.u| == 2 * |x.bits| && AllThree(x.u) && 1 <= |x.bits| <= 12864
    requires a == S.FirstByte(SentWave(x).e[0]) && b == S.EndByte(LastChange(x))
    ensures b - a < LONGEST
  {
    StartOfThrees(x.u, 1);
    StartOfThrees(x.u, |x.u| - 1);
    StartOfThrees(x.u, |x.u|);
  }

  lemma {:induction false} LastIsIsolated(img: Bytes, x: Signal, a: nat, b: nat)
    requires IsLast(img, x) && |x.bits| <= 12864
    requires a == S.FirstByte(SentWave(x).e[0]) && b == S.EndByte(LastChange(x))
    ensures Isolated(img, a, b, S.FirstByte(Rise(x)))
  {
    BurstIsDense(img, x);
    S.OneFrameOneRun(img, SentWave(x).e[0], LastChange(x));
    FrameIsShort(x, a, b);
    forall j | b <= j < |img| && j != S.FirstByte(Rise(x))
      ensures R.Idle(img[j])
    {
      IdleAfter(img, x, j);
    }
  }

  lemma {:induction false} NoStretchInSilence(img: Bytes)
    requires Records(img, [])
    ensures NoLongStretch(img)
  {
    SilenceIsIdle(img);
    forall lo: nat, hi: nat | lo <= hi && R.ActiveOn(img, lo, hi)
      ensures hi - lo < LONGEST
    {
      if lo < |img| {
        IdleOutside(img, lo, hi, lo);
      }
    }
  }

  lemma {:induction false} LastIsShort(img: Bytes, sents: seq<Sent>, gap: nat, body: Bytes)
    returns (a: nat, b: nat, c: nat)
    requires Records(img, Stream(sents) + Repeat(true, gap) + Airtime(body)) && F.Consistent(body)
    requires |F.WireFrame(body)| <= 1600
    ensures Isolated(img, a, b, c) && Records(img[..a], Stream(sents))
  {
    var x := LastFrame(img, sents, gap, body);
    a, b, c := S.FirstByte(SentWave(x).e[0]), S.EndByte(LastChange(x)), S.FirstByte(Rise(x));
    LastSplits(img, sents, gap, body, x, a, b);
    LastIsIsolated(img, x, a, b);
  }

  lemma {:induction false} ShortStep(img: Bytes, sents: seq<Sent>, prev: seq<Sent>, last: Sent)
    returns (a: nat, b: nat, c: nat)
    requires sents != [] && prev == sents[..|sents| - 1] && last == sents[|sents| - 1]
    requires Records(img, Stream(sents)) && F.Consistent(last.body)
    requires |F.WireFrame(last.body)| <= 1600
    ensures Isolated(img, a, b, c) && Records(img[..a], Stream(prev))
  {
    a, b, c := LastIsShort(img, prev, last.gap, last.body);
  }

  lemma {:induction false} SeriesHasNoLongStretch(img: Bytes, sents: seq<Sent>)
    requires Records(img, Stream(sents)) && AllSendable(sents)
    ensures NoLongStretch(img)
    decreases |sents|
  {
    if sents == [] {
      NoStretchInSilence(img);
    } else {
      var n := |sents| - 1;
      AllButLastSendable(sents, sents[..n], sents[n]);
      var a, b, c := ShortStep(img, sents, sents[..n], sents[n]);
      SeriesHasNoLongStretch(img[..a], sents[..n]);
      StretchesIn(img, a, b, c);
    }
  }

  lemma {:induction false} HalfInStream(hs: seq<Bytes>, i: nat)
    requires i < |hs| && R.AllActive(hs[i])
    ensures var at := |X.Concat(hs[..i])|; R.ActiveOn(X.Concat(hs), at, at + |hs[i]|)
    decreases |hs|
  {
    var n := |hs| - 1;
    if i < n {
      assert hs[..n][..i] == hs[..i];
      HalfInStream(hs[..n], i);
    }
  }

  /** Halves longer than any transmission never hit the carry budget. */
  lemma {:induction false} LongHalvesFit(g: X.Geometry, hs: seq<Bytes>)
    requires LONGEST <= g.buf && X.Halves(g, hs) && NoLongStretch(X.Concat(hs))
    ensures X.NoCapHit(g, hs)
  {
    forall i | 0 <= i < |hs|
      ensures !X.CapHit(g, X.Concat(hs[..i]), hs[i])
    {
      if R.AllActive(hs[i]) {
        HalfInStream(hs, i);
      }
    }
  }

  lemma {:induction false} SeriesIsSettled(img: Bytes, sents: seq<Sent>)
    requires Records(img, Stream(sents))
    ensures R.Settled(img)
  {
    if img != [] {
      var j := |img| - 1;
      StreamEndsHigh(sents);
      forall i | 8 * j < i < 8 * j + 8
        ensures !S.Edge(img, i)
      {
        assert Sample(img, i) && Sample(img, i - 1);
      }
      S.NoEdgeMakesIdle(img, j);
    }
  }

  /** Cut into halves longer than any transmission, such a series is never cut short: nothing is
      lost, nothing is left in flight, and the frames of the stream are exactly those sent to us. */
  lemma {:induction false} SeriesSurvives(g: X.Geometry, hs: seq<Bytes>, sents: seq<Sent>, our: Bytes)
    requires LONGEST <= g.buf && X.Halves(g, hs)
    requires Records(X.Concat(hs), Stream(sents)) && AllSendable(sents)
    ensures X.NoCapHit(g, hs) && X.Body(X.Surviving(g, hs)) == X.Concat(hs)
    ensures S.ProcessAll(R.AtLeast(R.Runs(X.Body(X.Surviving(g, hs))), S.MIN_RUN), our) == AllPassed(sents, our)
  {
    var img := X.Concat(hs);
    SeriesHasNoLongStretch(img, sents);
    LongHalvesFit(g, hs);
    X.CutsExactlyAtCaps(g, hs);
    SeriesIsSettled(img, sents);
    X.SettledHasNoTail(img);
    SeriesIsPublished(img, sents, our);
  }
}
