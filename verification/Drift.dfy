/** The decoder on a Manchester waveform whose bit cells jitter and drift. */
module Drift {
  import opened Wire
  import opened Samples
  import opened Dpll

  /** Bits as received: bit k is level `bits[k]` from sample m[k], then the opposite level from
      its mid-bit edge e[k] on. */
  datatype Wave = Wave(bits: seq<bool>, m: seq<nat>, e: seq<nat>)

  ghost predicate Cell(buf: Bytes, w: Wave, k: nat)
    requires k < |w.bits| == |w.m| == |w.e|
  {
    && w.m[k] + (if k == 0 then 1 else 2) <= w.e[k] <= Ns(buf)
    && (forall i :: w.m[k] <= i < w.e[k] ==> Sample(buf, i) == w.bits[k])
    && (forall i :: w.e[k] <= i < Min(w.e[k] + 2, Ns(buf)) ==> Sample(buf, i) != w.bits[k])
  }

  /** The second half of bit k lasts until bit k+1 begins. */
  ghost predicate Joined(buf: Bytes, w: Wave, k: nat)
    requires k + 1 < |w.bits| == |w.m| == |w.e|
  {
    w.e[k] + 2 <= w.m[k + 1] <= Ns(buf)
    && forall i :: w.e[k] <= i < w.m[k + 1] ==> Sample(buf, i) != w.bits[k]
  }

  /** The buffer shows this wave: every half-bit lasts two samples or more, except that the
      buffer may begin one sample before the first mid-bit edge and end any time after the
      last. */
  ghost predicate Shows(buf: Bytes, w: Wave) {
    && |w.bits| == |w.m| == |w.e|
    && (forall k :: 0 <= k < |w.bits| ==> Cell(buf, w, k))
    && (forall k :: 0 <= k < |w.bits| - 1 ==> Joined(buf, w, k))
  }

  /** Edge j can be found from centre c: within one sample, and when it is one late, no boundary
      edge comes before it in the window. */
  ghost predicate Near(w: Wave, c: int, j: nat)
    requires 1 <= j < |w.bits| == |w.m| == |w.e|
  {
    c - 1 <= w.e[j] <= c + 1
    && (w.e[j] == c + 1 ==> w.m[j] + 3 <= w.e[j] || w.bits[j - 1] != w.bits[j])
  }

  /** The tie-low search finds a mid-bit edge exactly when it is near. */
  lemma {:induction false} FindsEdgeExactlyWhenNear(buf: Bytes, w: Wave, c: nat, j: nat)
    requires Shows(buf, w) && 1 <= j < |w.bits|
    requires 2 <= c && c + 1 < Ns(buf)
    ensures FindEdgeW1(buf, c) == w.e[j] <==> Near(w, c, j)
  {
    var e := w.e[j];
    assert Cell(buf, w, j) && Joined(buf, w, j - 1);
    if c - 1 <= e <= c + 1 {
      assert Sample(buf, e - 1) == Sample(buf, e - 2) == w.bits[j];
      if e < Ns(buf) {
        assert Sample(buf, e) != w.bits[j];
      }
      if e == c + 1 && e == w.m[j] + 2 {
        assert Sample(buf, e - 3) != w.bits[j - 1];
      }
    }
  }

  /** Each bit from p on is found from the one before it. */
  ghost predicate Drifts(w: Wave, p: nat)
    requires |w.bits| == |w.m| == |w.e|
  {
    forall k :: p <= k < |w.bits| - 1 ==> Near(w, w.e[k] + 6, k + 1)
  }

  /** The last bit is read: its spacing is at least 6, or three samples follow its edge. */
  ghost predicate TailOk(buf: Bytes, w: Wave)
    requires 2 <= |w.bits| == |w.m| == |w.e|
  {
    var n := |w.bits|;
    w.e[n - 2] + 6 <= w.e[n - 1] || w.e[n - 1] + 2 < Ns(buf)
  }

  lemma {:induction false} EdgesGrow(buf: Bytes, w: Wave, k: nat)
    requires Shows(buf, w) && k + 1 < |w.bits|
    ensures 1 <= w.e[k] && w.e[k] + 4 <= w.e[k + 1] <= Ns(buf)
  {
    assert Cell(buf, w, k) && Cell(buf, w, k + 1) && Joined(buf, w, k);
  }

  /** Before the last bit, tracking moves from mid-bit edge to mid-bit edge exactly. */
  lemma {:induction false} TracksExactly(buf: Bytes, w: Wave, k: nat)
    requires Shows(buf, w) && k + 2 < |w.bits| && Near(w, w.e[k] + 6, k + 1)
    ensures TrackTo(buf, w.e[k] + 6) == w.e[k + 1]
  {
    EdgesGrow(buf, w, k);
    EdgesGrow(buf, w, k + 1);
    FindsEdgeExactlyWhenNear(buf, w, w.e[k] + 6, k + 1);
  }

  lemma {:induction false} ReadsBit(buf: Bytes, w: Wave, k: nat)
    requires Shows(buf, w) && k < |w.bits|
    ensures 1 <= w.e[k] <= Ns(buf) && Sample(buf, w.e[k] - 1) == w.bits[k]
  {
    assert Cell(buf, w, k);
  }

  /** What tracking yields from bit k on: all remaining bits, and at most one more per five
      remaining samples; without the tail condition the last bit is lost or inverted. */
  ghost predicate Yields(buf: Bytes, w: Wave, k: nat, t: seq<bool>, extra: seq<bool>)
    requires k + 1 < |w.bits| == |w.m| == |w.e|
  {
    var n := |w.bits|;
    && (TailOk(buf, w) ==> t == w.bits[k..] + extra && 5 * |extra| <= Ns(buf) - w.e[n - 1])
    && (!TailOk(buf, w) ==> t == w.bits[k..n - 1] || t == w.bits[k..n - 1] + [!w.bits[n - 1]])
  }

  lemma {:induction false} SpuriousBits(buf: Bytes, tr: nat, a: bool) returns (extra: seq<bool>)
    requires 1 <= tr <= Ns(buf) && Sample(buf, tr - 1) == a
    ensures TrackedBits(buf, tr) == [a] + extra && 5 * |extra| <= Ns(buf) - tr
  {
    extra := TrackedBits(buf, TrackTo(buf, tr + 6));
    TrackedBitsBound(buf, TrackTo(buf, tr + 6));
  }

  /** What follows the second-to-last bit. */
  ghost predicate Ends(buf: Bytes, w: Wave, t: seq<bool>, extra: seq<bool>)
    requires 2 <= |w.bits| == |w.m| == |w.e|
  {
    var n := |w.bits|;
    && (TailOk(buf, w) ==> t == [w.bits[n - 1]] + extra && 5 * |extra| <= Ns(buf) - w.e[n - 1])
    && (!TailOk(buf, w) ==> t == [] || t == [!w.bits[n - 1]])
  }

  /** The last edge j, sought from centre c inside the buffer. */
  lemma {:induction false} LastBitTracked(buf: Bytes, w: Wave, c: nat, j: nat) returns (extra: seq<bool>)
    requires Shows(buf, w) && j == |w.bits| - 1 >= 1 && c == w.e[j - 1] + 6
    requires Near(w, c, j) && c + 1 < Ns(buf)
    ensures Ends(buf, w, TrackedBits(buf, TrackTo(buf, c)), extra)
  {
    EdgesGrow(buf, w, j - 1);
    ReadsBit(buf, w, j);
    FindsEdgeExactlyWhenNear(buf, w, c, j);
    extra := SpuriousBits(buf, w.e[j], w.bits[j]);
  }

  /** The last edge, coasted to because the window leaves the buffer. */
  lemma {:induction false} LastBitCoasted(buf: Bytes, w: Wave, c: nat, j: nat)
    requires Shows(buf, w) && j == |w.bits| - 1 >= 1 && c == w.e[j - 1] + 6
    requires Near(w, c, j) && c + 1 >= Ns(buf)
    ensures Ends(buf, w, TrackedBits(buf, TrackTo(buf, c)), [])
  {
    EdgesGrow(buf, w, j - 1);
    assert Cell(buf, w, j);
    assert TrackTo(buf, c) == c;
    if c <= Ns(buf) {
      assert TrackedBits(buf, TrackTo(buf, c + 6)) == [];
      assert TrackedBits(buf, c) == [Sample(buf, c - 1)];
    }
  }

  lemma {:induction false} LastBit(buf: Bytes, w: Wave, c: nat, j: nat) returns (extra: seq<bool>)
    requires Shows(buf, w) && j == |w.bits| - 1 >= 1 && c == w.e[j - 1] + 6 && Near(w, c, j)
    ensures Ends(buf, w, TrackedBits(buf, TrackTo(buf, c)), extra)
  {
    if c + 1 < Ns(buf) {
      extra := LastBitTracked(buf, w, c, j);
    } else {
      LastBitCoasted(buf, w, c, j);
      extra := [];
    }
  }

  lemma FirstBit(buf: Bytes, tr: nat, a: bool)
    requires 1 <= tr <= Ns(buf) && Sample(buf, tr - 1) == a
    ensures TrackedBits(buf, tr) == [a] + TrackedBits(buf, TrackTo(buf, tr + 6))
  {
  }

  lemma {:induction false} PrependLast(buf: Bytes, w: Wave, t: seq<bool>, extra: seq<bool>)
    requires 2 <= |w.bits| == |w.m| == |w.e| && Ends(buf, w, t, extra)
    ensures Yields(buf, w, |w.bits| - 2, [w.bits[|w.bits| - 2]] + t, extra)
  {
    var n := |w.bits|;
    assert w.bits[n - 2..] == [w.bits[n - 2]] + [w.bits[n - 1]];
    assert w.bits[n - 2..n - 1] == [w.bits[n - 2]];
  }

  lemma {:induction false} LastBits(buf: Bytes, w: Wave) returns (extra: seq<bool>)
    requires Shows(buf, w) && 2 <= |w.bits| && Near(w, w.e[|w.bits| - 2] + 6, |w.bits| - 1)
    ensures Yields(buf, w, |w.bits| - 2, TrackedBits(buf, w.e[|w.bits| - 2]), extra)
  {
    var n := |w.bits|;
    ReadsBit(buf, w, n - 2);
    var c := w.e[n - 2] + 6;
    extra := LastBit(buf, w, c, n - 1);
    FirstBit(buf, w.e[n - 2], w.bits[n - 2]);
    var t := TrackedBits(buf, TrackTo(buf, c));
    assert w.bits[n - 2..] == [w.bits[n - 2], w.bits[n - 1]];
    assert w.bits[n - 2..n - 1] == [w.bits[n - 2]];
    PrependLast(buf, w, t, extra);
  }

  lemma {:induction false} PrependBit(buf: Bytes, w: Wave, k: nat, t: seq<bool>, extra: seq<bool>)
    requires k + 2 < |w.bits| == |w.m| == |w.e| && Yields(buf, w, k + 1, t, extra)
    ensures Yields(buf, w, k, [w.bits[k]] + t, extra)
  {
    var n := |w.bits|;
    assert w.bits[k..] == [w.bits[k]] + w.bits[k + 1..];
    assert w.bits[k..n - 1] == [w.bits[k]] + w.bits[k + 1..n - 1];
  }

  /** Exact tracking with no bound on accumulated drift: from the edge of any bit on, the
      decoder reads exactly the remaining bits. */
  lemma {:induction false} TracksAll(buf: Bytes, w: Wave, k: nat) returns (extra: seq<bool>)
    requires Shows(buf, w) && k + 1 < |w.bits| && Drifts(w, k)
    ensures Yields(buf, w, k, TrackedBits(buf, w.e[k]), extra)
    decreases |w.bits| - k
  {
    if k + 2 == |w.bits| {
      extra := LastBits(buf, w);
    } else {
      assert Near(w, w.e[k] + 6, k + 1);
      TracksExactly(buf, w, k);
      ReadsBit(buf, w, k);
      extra := TracksAll(buf, w, k + 1);
      FirstBit(buf, w.e[k], w.bits[k]);
      PrependBit(buf, w, k, TrackedBits(buf, w.e[k + 1]), extra);
    }
  }

  // ---- Preamble and SFD ----

  /** The first p bits: 1 0 1 0 ... 1 and a second 1. */
  ghost predicate PreambleThenSfd(bits: seq<bool>, p: nat) {
    && 4 <= p <= |bits| && p % 2 == 0 && p < 1600
    && (forall i :: 0 <= i < p - 1 ==> bits[i] == (i % 2 == 0))
    && bits[p - 1]
  }

  /** The open-loop sample points stay in the first half of bits 1..q-1. */
  ghost predicate OpenLoopOk(w: Wave, q: nat)
    requires q <= |w.bits| == |w.m| == |w.e|
  {
    forall k :: 1 <= k < q ==> w.m[k] <= w.e[0] + 4 + 6 * (k - 1) < w.e[k]
  }

  /** Nothing falls before the first mid-bit edge. */
  ghost predicate QuietLead(buf: Bytes, w: Wave)
    requires |w.e| > 0
  {
    forall i :: 1 <= i < Min(w.e[0], Ns(buf)) ==> !Falls(buf, i)
  }

  lemma {:induction false} FirstFallIs(buf: Bytes, i: nat, f: nat)
    requires 1 <= i <= f < Ns(buf) && Falls(buf, f)
    requires forall j :: i <= j < f ==> !Falls(buf, j)
    ensures FirstFall(buf, i) == Some(f)
    decreases f - i
  {
    if i < f {
      FirstFallIs(buf, i + 1, f);
    }
  }

  lemma {:induction false} OpenLoopReads(buf: Bytes, w: Wave, q: nat, k: nat)
    requires Shows(buf, w) && 1 <= k < q <= |w.bits| && OpenLoopOk(w, q)
    ensures ReadBit(buf, w.e[0], k - 1) == Some(w.bits[k])
  {
    assert Cell(buf, w, k);
  }

  lemma {:induction false} FindsPair(buf: Bytes, w: Wave, p: nat, k: nat)
    requires Shows(buf, w) && PreambleThenSfd(w.bits, p) && OpenLoopOk(w, p)
    requires 1 <= k <= p - 2 && p < |w.bits|
    ensures ReadBit(buf, w.e[0], k - 1).Some?
    ensures forall max :: p <= max ==> FirstPair(buf, w.e[0], k, max) == Some(p - 2)
    decreases p - k
  {
    OpenLoopReads(buf, w, p, k);
    OpenLoopReads(buf, w, p, k + 1);
    if k < p - 2 {
      FindsPair(buf, w, p, k + 1);
    }
  }

  /** Before the SFD ends there is no pair of ones to find. */
  lemma {:induction false} NoPairBefore(buf: Bytes, w: Wave, p: nat, k: nat, max: nat)
    requires Shows(buf, w) && PreambleThenSfd(w.bits, p) && OpenLoopOk(w, p)
    requires 1 <= k && max <= p - 2 && k <= p - 2 && p < |w.bits|
    ensures ReadBit(buf, w.e[0], k - 1).Some? && FirstPair(buf, w.e[0], k, max) == None
    decreases p - k
  {
    OpenLoopReads(buf, w, p, k);
    if k < max {
      OpenLoopReads(buf, w, p, k + 1);
      NoPairBefore(buf, w, p, k + 1, max);
    }
  }

  /** Centre from which the first data bit's edge is sought. */
  ghost function AnchorCentre(w: Wave, p: nat): nat
    requires |w.e| > 0 && p >= 1
  {
    w.e[0] + 5 + 6 * (p - 1)
  }

  /** Everything up to the first data bit goes right. */
  ghost predicate LocksOn(buf: Bytes, w: Wave, p: nat) {
    && Shows(buf, w) && PreambleThenSfd(w.bits, p) && p + 1 < |w.bits|
    && QuietLead(buf, w) && OpenLoopOk(w, p)
    && Near(w, AnchorCentre(w, p), p)
  }

  lemma {:induction false} FirstEdge(buf: Bytes, w: Wave)
    requires Shows(buf, w) && 2 <= |w.bits| && w.bits[0] && QuietLead(buf, w)
    ensures 1 <= w.e[0] < Ns(buf) && FirstFall(buf, 1) == Some(w.e[0])
  {
    EdgesGrow(buf, w, 0);
    assert Cell(buf, w, 0);
    FirstFallIs(buf, 1, w.e[0]);
  }

  lemma {:induction false} AnchorIsFirstDataEdge(buf: Bytes, w: Wave, p: nat)
    requires LocksOn(buf, w, p)
    ensures Anchor(buf) == Some(w.e[p])
  {
    FirstEdge(buf, w);
    OpenLoopReads(buf, w, p, 1);
    FindsPair(buf, w, p, 1);
    assert SfdEnd(buf, w.e[0], 1600) == Some(p - 2);
    EdgesGrow(buf, w, p);
    EdgesGrow(buf, w, p - 1);
    FindsEdgeExactlyWhenNear(buf, w, AnchorCentre(w, p), p);
  }

  // ---- The round trip ----

  /** Everything after the lock goes right: the bits from p on are those of `body`, in any
      number, each found from the one before, and the samples after the last edge are too few
      for another byte. */
  ghost predicate Carried(buf: Bytes, w: Wave, p: nat, body: Bytes) {
    && LocksOn(buf, w, p) && Drifts(w, p)
    && body != [] && w.bits[p..] == BitsOfBytes(body)
    && Ns(buf) < w.e[|w.bits| - 1] + 40
  }

  lemma {:induction false} DecodesFromAnchor(buf: Bytes, w: Wave, p: nat)
    requires LocksOn(buf, w, p)
    ensures Decode(buf) == Some(Cut(PackBytes(TrackedBits(buf, w.e[p]))))
  {
    AnchorIsFirstDataEdge(buf, w, p);
  }

  /** Nothing of what is kept hangs on the last bit, or the last bit is read. */
  ghost predicate Readable(buf: Bytes, w: Wave, body: Bytes)
    requires 2 <= |w.bits| == |w.m| == |w.e|
  {
    TailOk(buf, w) || Declared(body) < |body|
  }

  lemma {:induction false} RoundTripWithTail(buf: Bytes, w: Wave, p: nat, body: Bytes)
    requires Carried(buf, w, p, body) && TailOk(buf, w)
    ensures Decode(buf) == Some(Cut(body))
  {
    DecodesFromAnchor(buf, w, p);
    var extra := TracksAll(buf, w, p);
    PackBytesInverts(body, extra);
  }

  /** A frame that its own cap shortens does not need its last byte. */
  lemma {:induction false} CutWithoutLast(got: Bytes, body: Bytes)
    requires |body| > CapOf(body) && body[..|body| - 1] <= got
    ensures Cut(got) == Cut(body)
  {
    assert forall i :: 0 <= i < 64 ==> got[i] == body[..|body| - 1][i] == body[i];
    assert CapOf(got) == CapOf(body);
    var cap := CapOf(body);
    assert body[..|body| - 1][..cap] == body[..cap] && got[..cap] == body[..|body| - 1][..cap];
  }

  lemma {:induction false} AllButLast(sent: seq<bool>, got: seq<bool>, body: Bytes)
    requires body != [] && sent == BitsOfBytes(body) && sent[..|sent| - 1] <= got
    ensures body[..|body| - 1] <= PackBytes(got)
  {
    var init := sent[..|sent| - 1];
    PackBytesInverts(body, []);
    assert sent + [] == sent;
    PackBytesPrefix(init, sent);
    PackBytesPrefix(init, got);
    assert |PackBytes(init)| == |body| - 1;
  }

  lemma {:induction false} YieldsAllButLast(
      buf: Bytes, w: Wave, p: nat, got: seq<bool>, extra: seq<bool>, body: Bytes)
    requires p + 1 < |w.bits| == |w.m| == |w.e| && Yields(buf, w, p, got, extra) && !TailOk(buf, w)
    requires body != [] && w.bits[p..] == BitsOfBytes(body)
    ensures body[..|body| - 1] <= PackBytes(got)
  {
    var n := |w.bits|;
    assert w.bits[p..][..n - p - 1] == w.bits[p..n - 1];
    AllButLast(w.bits[p..], got, body);
  }

  lemma {:induction false} RoundTripWhenCut(buf: Bytes, w: Wave, p: nat, body: Bytes)
    requires Carried(buf, w, p, body) && !TailOk(buf, w) && |body| > CapOf(body)
    ensures Decode(buf) == Some(Cut(body))
  {
    DecodesFromAnchor(buf, w, p);
    var extra := TracksAll(buf, w, p);
    YieldsAllButLast(buf, w, p, TrackedBits(buf, w.e[p]), extra, body);
    CutWithoutLast(PackBytes(TrackedBits(buf, w.e[p])), body);
  }

  /** Drift round trip. For every byte sequence on any waveform whose jitter meets the stated
      conditions, with no bound on accumulated drift, the decoder returns the bytes sent, up
      to the length their own header declares and no further. */
  lemma {:induction false} DriftRoundTrip(buf: Bytes, w: Wave, p: nat, body: Bytes)
    requires Carried(buf, w, p, body) && Readable(buf, w, body)
    ensures Decode(buf) == Some(body[..Declared(body)])
  {
    CutIsDeclared(body);
    if TailOk(buf, w) {
      RoundTripWithTail(buf, w, p, body);
    } else {
      RoundTripWhenCut(buf, w, p, body);
    }
  }

  lemma {:induction false} LostOrInverted(sent: seq<bool>, got: seq<bool>, body: Bytes)
    requires body != [] && sent == BitsOfBytes(body)
    requires var n := |sent|; got == sent[..n - 1] || got == sent[..n - 1] + [!sent[n - 1]]
    ensures PackBytes(got) != body && |PackBytes(got)| <= |body|
  {
    var n := |sent|;
    if |got| == n {
      assert got[n - 1] != sent[n - 1];
      UnpackBytes(got);
    }
  }

  lemma CutDiffers(got: Bytes, body: Bytes)
    requires got != body && |got| <= |body|
    ensures Cut(got) != body
  {
  }

  lemma {:induction false} YieldsMisread(
      buf: Bytes, w: Wave, p: nat, got: seq<bool>, extra: seq<bool>, body: Bytes)
    requires p + 1 < |w.bits| == |w.m| == |w.e| && Yields(buf, w, p, got, extra) && !TailOk(buf, w)
    requires body != [] && w.bits[p..] == BitsOfBytes(body)
    ensures Cut(PackBytes(got)) != body
  {
    var n := |w.bits|;
    assert w.bits[p..][..n - p - 1] == w.bits[p..n - 1];
    LostOrInverted(w.bits[p..], got, body);
    CutDiffers(PackBytes(got), body);
  }

  lemma {:induction false} MisreadsWithoutTail(buf: Bytes, w: Wave, p: nat, body: Bytes)
    requires Carried(buf, w, p, body) && !TailOk(buf, w)
    ensures Cut(PackBytes(TrackedBits(buf, w.e[p]))) != body
  {
    var extra := TracksAll(buf, w, p);
    YieldsMisread(buf, w, p, TrackedBits(buf, w.e[p]), extra, body);
  }

  /** The condition is exact. Every frame comes back, cut to its declared length, if and only if
      that length leaves out its end, or the last spacing is at least 6, or three samples follow
      the last edge. Otherwise the decoder coasts past a last edge that came early. */
  lemma {:induction false} RoundTripExactlyWhenTailOk(buf: Bytes, w: Wave, p: nat, body: Bytes)
    requires Carried(buf, w, p, body)
    ensures Decode(buf) == Some(body[..Declared(body)]) <==> TailOk(buf, w) || Declared(body) < |body|
  {
    CutIsDeclared(body);
    if Readable(buf, w, body) {
      DriftRoundTrip(buf, w, p, body);
    } else {
      DecodesFromAnchor(buf, w, p);
      MisreadsWithoutTail(buf, w, p, body);
      assert Cut(body) == body;
    }
  }
}
