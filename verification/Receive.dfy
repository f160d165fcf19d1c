/** From sample images to published frames: one run per frame, the address filter, the scan. */
module Receive {
  import opened Wire
  import opened Samples
  import opened R = Runs
  import opened Drift
  import D = Dpll
  import F = Framing
  import X = RxStream
  import E = Ieee
  import Crc

  // ---- The address peek ----

  /** n open-loop bits from bit k on, if the samples are there. */
  function ReadBits(buf: Bytes, f: nat, k: nat, n: nat): (r: Option<seq<bool>>)
    ensures r.Some? ==> |r.value| == n
    decreases n
  {
    if n == 0 then Some([])
    else
      var init := ReadBits(buf, f, k, n - 1);
      var last := D.ReadBit(buf, f, k + n - 1);
      if init.None? || last.None? then None else Some(init.value + [last.value])
  }

  const PEEK_BITS: nat := 200

  /** The destination address by open-loop decoding, if it can be read. */
  function PeekDstMac(buf: Bytes): (r: Option<Bytes>)
    ensures r.Some? ==> |r.value| == 6
  {
    var f := D.FirstFall(buf, 1);
    if f.None? then None
    else
      var sfd := D.SfdEnd(buf, f.value, PEEK_BITS);
      if sfd.None? || sfd.value + 1 + 48 > PEEK_BITS then None
      else
        var bits := ReadBits(buf, f.value, sfd.value + 1, 48);
        if bits.None? then None else Some(PackBytes(bits.value))
  }

  lemma {:induction false} MissingBit(buf: Bytes, f: nat, k: nat, m: nat, n: nat)
    requires m <= n && ReadBits(buf, f, k, m).None?
    ensures ReadBits(buf, f, k, n).None?
    decreases n
  {
    if m < n {
      MissingBit(buf, f, k, m, n - 1);
    }
  }

  /** The bit loop, stopping at the first bit that is not there. */
  method ReadAll(buf: Bytes, f: nat, start: nat, n: nat) returns (r: Option<seq<bool>>)
    ensures r == ReadBits(buf, f, start, n)
  {
    var bits := [];
    for k := 0 to n
      invariant ReadBits(buf, f, start, k) == Some(bits)
    {
      var b := D.ReadBit(buf, f, start + k);
      if b.None? {
        MissingBit(buf, f, start, k + 1, n);
        return None;
      }
      bits := bits + [b.value];
    }
    r := Some(bits);
  }

  /** `peek_dst_mac`: bit by bit into six bytes. */
  method Peek(buf: Bytes) returns (r: Option<Bytes>)
    requires |buf| > 0
    ensures r == PeekDstMac(buf)
  {
    var f := D.FindF(buf);
    if f.None? {
      return None;
    }
    var sfd := D.FindSfd(buf, f.value, PEEK_BITS);
    if sfd.None? {
      return None;
    }
    var start := sfd.value + 1;
    if start + 48 > PEEK_BITS {
      return None;
    }
    var bits := ReadAll(buf, f.value, start, 48);
    r := if bits.None? then None else Some(PackBytes(bits.value));
  }

  /** Unicast to us, or a group address. */
  predicate MacAccept(dst: Bytes, our: Bytes)
    requires |dst| == 6
  {
    dst == our || dst[0] & 0x01 != 0
  }

  /** The frame is sent to this address, or to a group: the first bit of the address to be sent is
      set (IEEE 802.3 clause 3.2.3). */
  ghost predicate IsForUs(frame: Bytes, our: Bytes) {
    |frame| >= 6 && (frame[..6] == our || BitsOfBytes(frame)[0])
  }

  lemma {:induction false} AcceptsExactlyForUs(frame: Bytes, our: Bytes)
    requires |frame| >= 6
    ensures MacAccept(frame[..6], our) <==> IsForUs(frame, our)
  {
    BitsOfBytesAt(frame, 0);
    BitsOf(frame[0]);
  }

  // ---- The filter agrees with the decoder ----

  lemma {:induction false} ReadsDataBits(buf: Bytes, w: Wave, start: nat, p: nat, n: nat, end: nat)
    requires Shows(buf, w) && start + 1 == p && end == p + n <= |w.bits| && OpenLoopOk(w, end)
    ensures ReadBits(buf, w.e[0], start, n) == Some(w.bits[p..end])
    decreases n
  {
    if n == 0 {
      assert w.bits[p..p] == [];
    } else {
      var k: nat := end - 1;
      ReadsDataBits(buf, w, start, p, n - 1, k);
      OpenLoopReads(buf, w, end, k);
      assert start + n - 1 == k - 1;
      assert w.bits[p..end] == w.bits[p..k] + [w.bits[k]];
    }
  }

  lemma {:induction false} FirstBytes(body: Bytes, n: nat)
    requires n <= |body|
    ensures BitsOfBytes(body)[..8 * n] == BitsOfBytes(body[..n])
  {
    assert body == body[..n] + body[n..];
    BitsOfBytesConcat(body[..n], body[n..]);
  }

  lemma {:induction false} PeekFindsSfd(buf: Bytes, w: Wave, p: nat)
    requires LocksOn(buf, w, p) && p <= PEEK_BITS
    ensures D.FirstFall(buf, 1) == Some(w.e[0]) && D.SfdEnd(buf, w.e[0], PEEK_BITS) == Some(p - 2)
  {
    FirstEdge(buf, w);
    OpenLoopReads(buf, w, p, 1);
    FindsPair(buf, w, p, 1);
  }

  lemma {:induction false} FirstSix(bits: seq<bool>, p: nat, end: nat, body: Bytes)
    requires p <= |bits| && |body| >= 6 && bits[p..] == BitsOfBytes(body) && end == p + 48
    ensures end <= |bits| && bits[p..end] == BitsOfBytes(body[..6])
  {
    FirstBytes(body, 6);
    assert bits[p..end] == bits[p..][..48];
  }

  lemma {:induction false} PeekReadsBits(buf: Bytes, w: Wave, p: nat, start: nat, end: nat, body: Bytes)
    requires Shows(buf, w) && start + 1 == p <= |w.bits| && end == p + 48 && |body| >= 6
    requires w.bits[p..] == BitsOfBytes(body) && end <= |w.bits| && OpenLoopOk(w, end)
    ensures ReadBits(buf, w.e[0], start, 48) == Some(BitsOfBytes(body[..6]))
  {
    ReadsDataBits(buf, w, start, p, 48, end);
    FirstSix(w.bits, p, end, body);
  }

  lemma {:induction false} PeekIs(buf: Bytes, f: nat, sfd: nat, bits: seq<bool>)
    requires D.FirstFall(buf, 1) == Some(f) && D.SfdEnd(buf, f, PEEK_BITS) == Some(sfd)
    requires sfd + 1 + 48 <= PEEK_BITS && ReadBits(buf, f, sfd + 1, 48) == Some(bits)
    ensures PeekDstMac(buf) == Some(PackBytes(bits))
  {
  }

  lemma {:induction false} PeekReads(buf: Bytes, w: Wave, p: nat, body: Bytes)
    requires LocksOn(buf, w, p) && |body| >= 6 && w.bits[p..] == BitsOfBytes(body)
    requires p + 47 <= PEEK_BITS && OpenLoopOk(w, p + 48)
    ensures PeekDstMac(buf) == Some(body[..6])
  {
    var sfd, bits := p - 2, BitsOfBytes(body[..6]);
    PeekFindsSfd(buf, w, p);
    PeekReadsBits(buf, w, p, sfd + 1, p + 48, body);
    PeekIs(buf, w.e[0], sfd, bits);
    PackBytesInverts(body[..6], []);
    assert bits + [] == bits;
  }

  /** When the open-loop sample points stay in the first half-bit through the destination address,
      the peek reads exactly the first six bytes that the tracking decoder returns, so the
      filter never discards a frame whose decode it would accept. */
  lemma {:induction false} FilterAgreesWithDecoder(buf: Bytes, w: Wave, p: nat, body: Bytes)
    requires Carried(buf, w, p, body) && Readable(buf, w, body) && |body| >= 6
    requires p + 47 <= PEEK_BITS && OpenLoopOk(w, p + 48)
    ensures PeekDstMac(buf) == Some(body[..6])
    ensures D.Decode(buf).Some? && |D.Decode(buf).value| >= 6 && D.Decode(buf).value[..6] == body[..6]
  {
    PeekReads(buf, w, p, body);
    DriftRoundTrip(buf, w, p, body);
    assert body[..D.Declared(body)][..6] == body[..6];
  }

  /** What `scan_runs` publishes for one run: nothing, or one checked frame. */
  function Process(run: Bytes, our: Bytes): seq<Bytes> {
    var dst := PeekDstMac(run);
    if dst.None? || !MacAccept(dst.value, our) then []
    else
      var d := D.Decode(run);
      if d.None? then []
      else
        var f := F.Accept(d.value);
        if f.None? then [] else [f.value]
  }

  /** A preamble so long that the address ends after bit 200 is not peeked into. */
  lemma {:induction false} LateAddressIsDropped(buf: Bytes, w: Wave, p: nat, our: Bytes)
    requires LocksOn(buf, w, p) && p + 47 > 200
    ensures PeekDstMac(buf) == None && Process(buf, our) == []
  {
    FirstEdge(buf, w);
    OpenLoopReads(buf, w, p, 1);
    if p <= 200 {
      FindsPair(buf, w, p, 1);
    } else {
      NoPairBefore(buf, w, p, 1, 200);
    }
  }

  // ---- One frame, one run ----

  lemma AllAlike(b: bv8)
    requires (b >> 1) & 1 == b & 1 && (b >> 2) & 1 == b & 1 && (b >> 3) & 1 == b & 1
             && (b >> 4) & 1 == b & 1 && (b >> 5) & 1 == b & 1 && (b >> 6) & 1 == b & 1
             && (b >> 7) & 1 == b & 1
    ensures b == 0x00 || b == 0xFF
  {
  }

  lemma BytesAllAlike(b: bv8)
    ensures Idle(b) <==> forall k :: 0 <= k < 8 ==> BitOf(b, k) == BitOf(b, 0)
  {
    BitsOf(b);
    if forall k :: 0 <= k < 8 ==> BitOf(b, k) == BitOf(b, 0) {
      assert BitOf(b, 1) == BitOf(b, 0) && BitOf(b, 2) == BitOf(b, 0) && BitOf(b, 3) == BitOf(b, 0)
             && BitOf(b, 4) == BitOf(b, 0) && BitOf(b, 5) == BitOf(b, 0) && BitOf(b, 6) == BitOf(b, 0)
             && BitOf(b, 7) == BitOf(b, 0);
      AllAlike(b);
    }
  }

  /** A level change between samples i-1 and i. */
  ghost predicate Edge(img: Bytes, i: nat) {
    1 <= i < Ns(img) && Sample(img, i - 1) != Sample(img, i)
  }

  ghost predicate NextEdge(img: Bytes, i: nat, t: nat) {
    exists j :: i < j <= i + 7 && j <= t && Edge(img, j)
  }

  /** From the edge at s to the edge at t, never more than seven samples without one. */
  ghost predicate Dense(img: Bytes, s: nat, t: nat) {
    && Edge(img, s) && Edge(img, t) && s < t
    && forall i :: s <= i < t ==> NextEdge(img, i, t)
  }

  /** No edge within fifteen samples before s or after t. */
  ghost predicate QuietAround(img: Bytes, s: nat, t: nat) {
    && (forall i :: 0 <= i < s < i + 15 ==> !Edge(img, i))
    && (forall i :: t < i < t + 15 ==> !Edge(img, i))
  }

  lemma {:induction false} SampleInByte(img: Bytes, j: nat, k: nat)
    requires j < |img| && k < 8
    ensures Sample(img, 8 * j + k) == BitOf(img[j], k)
  {
    assert (8 * j + k) / 8 == j && (8 * j + k) % 8 == k;
  }

  /** A byte is active exactly when there is an edge inside it. */
  lemma {:induction false} EdgeMakesActive(img: Bytes, j: nat, i: nat)
    requires j < |img| && 8 * j < i < 8 * j + 8 && Edge(img, i)
    ensures !Idle(img[j])
  {
    SampleInByte(img, j, i - 8 * j);
    SampleInByte(img, j, i - 1 - 8 * j);
    BytesAllAlike(img[j]);
  }

  lemma {:induction false} SameFromStart(img: Bytes, j: nat, k: nat)
    requires j < |img| && k < 8 && forall i :: 8 * j < i < 8 * j + 8 ==> !Edge(img, i)
    ensures BitOf(img[j], k) == BitOf(img[j], 0)
    decreases k
  {
    if k > 0 {
      SameFromStart(img, j, k - 1);
      SampleInByte(img, j, k);
      SampleInByte(img, j, k - 1);
      assert !Edge(img, 8 * j + k);
    }
  }

  lemma {:induction false} NoEdgeMakesIdle(img: Bytes, j: nat)
    requires j < |img| && forall i :: 8 * j < i < 8 * j + 8 ==> !Edge(img, i)
    ensures Idle(img[j])
  {
    forall k | 0 <= k < 8
      ensures BitOf(img[j], k) == BitOf(img[j], 0)
    {
      SameFromStart(img, j, k);
    }
    BytesAllAlike(img[j]);
  }

  function FirstByte(s: nat): nat { s / 8 }

  function EndByte(t: nat): nat { (t + 7) / 8 }

  /** One frame, one run: a dense stretch of edges with quiet around it is a single maximal
      active run of bytes, whatever its alignment, ending less than a byte after the last edge. */
  lemma {:induction false} OneFrameOneRun(img: Bytes, s: nat, t: nat)
    requires Dense(img, s, t) && QuietAround(img, s, t)
    ensures var a, b := FirstByte(s), EndByte(t);
            && a < b <= |img| && 8 * a <= s && t <= 8 * b < t + 8
            && ActiveOn(img, a, b)
            && (b < |img| ==> Idle(img[b])) && (a > 0 ==> Idle(img[a - 1]))
  {
    var a, b := FirstByte(s), EndByte(t);
    forall j | a <= j < b
      ensures !Idle(img[j])
    {
      if 8 * j < s {
        EdgeMakesActive(img, j, s);
      } else {
        assert NextEdge(img, 8 * j, t);
        var e :| 8 * j < e <= 8 * j + 7 && e <= t && Edge(img, e);
        EdgeMakesActive(img, j, e);
      }
    }
    assert 8 * a <= s < 8 * a + 8 && t <= 8 * b < t + 8;
    if b < |img| {
      forall i | 8 * b < i < 8 * b + 8
        ensures !Edge(img, i)
      {
      }
      NoEdgeMakesIdle(img, b);
    }
    if a > 0 {
      forall i | 8 * (a - 1) < i < 8 * (a - 1) + 8
        ensures !Edge(img, i)
      {
      }
      NoEdgeMakesIdle(img, a - 1);
    }
  }

  // ---- A wave is dense ----

  ghost predicate SpacingAtMostSeven(w: Wave)
    requires |w.bits| == |w.m| == |w.e|
  {
    forall k :: 0 <= k < |w.bits| - 1 ==> w.e[k + 1] <= w.e[k] + 7
  }

  lemma {:induction false} MidBitEdge(img: Bytes, w: Wave, k: nat)
    requires Shows(img, w) && k < |w.bits| && w.e[k] < Ns(img)
    ensures Edge(img, w.e[k])
  {
    assert Cell(img, w, k);
  }

  lemma {:induction false} LastEdgeLast(img: Bytes, w: Wave, k: nat)
    requires Shows(img, w) && k < |w.bits|
    ensures w.e[k] <= w.e[|w.bits| - 1]
    decreases |w.bits| - k
  {
    if k + 1 < |w.bits| {
      EdgesGrow(img, w, k);
      LastEdgeLast(img, w, k + 1);
    }
  }

  lemma {:induction false} NextMidBit(img: Bytes, w: Wave, i: nat, k: nat)
    requires Shows(img, w) && SpacingAtMostSeven(w) && k < |w.bits| && w.e[|w.bits| - 1] < Ns(img)
    requires w.e[0] <= i < w.e[k]
    ensures NextEdge(img, i, w.e[k])
    decreases k
  {
    EdgesGrow(img, w, k - 1);
    if i < w.e[k - 1] {
      NextMidBit(img, w, i, k - 1);
      var j :| i < j <= i + 7 && j <= w.e[k - 1] && Edge(img, j);
    } else {
      LastEdgeLast(img, w, k);
      MidBitEdge(img, w, k);
    }
  }

  /** A wave whose mid-bit spacing is at most seven is dense from its first level change to its
      last: its first mid-bit edge or a boundary at most seven samples before it, its last
      mid-bit edge or a boundary at most seven samples after it. */
  lemma {:induction false} WaveIsDense(img: Bytes, w: Wave, s: nat, t: nat)
    requires Shows(img, w) && |w.bits| >= 2 && SpacingAtMostSeven(w) && w.e[|w.bits| - 1] < Ns(img)
    requires Edge(img, s) && s <= w.e[0] <= s + 7
    requires Edge(img, t) && w.e[|w.bits| - 1] <= t <= w.e[|w.bits| - 1] + 7
    ensures Dense(img, s, t)
  {
    var n := |w.bits|;
    EdgesGrow(img, w, 0);
    LastEdgeLast(img, w, 1);
    forall i | s <= i < t
      ensures NextEdge(img, i, t)
    {
      if i < w.e[0] {
        MidBitEdge(img, w, 0);
      } else if i < w.e[n - 1] {
        NextMidBit(img, w, i, n - 1);
        var j :| i < j <= i + 7 && j <= w.e[n - 1] && Edge(img, j);
      } else {
        assert i < t <= i + 7;
      }
    }
  }

  // ---- Images to published frames ----

  /** At least 18 bytes, the last four the frame check sequence of the others. */
  ghost predicate Checked(frame: Bytes) {
    |frame| >= 18
    && E.IsFcs(BitsOfBytes(frame[..|frame| - 4]), BitsOfBytes(frame[|frame| - 4..]))
  }

  lemma {:induction false} WholeIsChecked(frame: Bytes, kept: Bytes, n: nat, m: nat)
    requires 18 <= n <= |frame| && m == n - 4 && kept == frame[..n]
    requires E.IsFcs(BitsOfBytes(frame[..m]), BitsOfBytes(frame[m..n]))
    ensures Checked(kept)
  {
    assert kept[..m] == frame[..m] && kept[m..] == frame[m..n];
  }

  lemma AcceptedVerifies(frame: Bytes, n: nat)
    requires F.Accept(frame).Some? && n == F.DeriveFrameLen(frame)
    ensures 18 <= n <= |frame| && Crc.VerifyFcs(frame, n) && F.Accept(frame) == Some(frame[..n])
  {
  }

  lemma {:induction false} ChecksOut(frame: Bytes, n: nat, m: nat)
    requires 18 <= n <= |frame| && m == n - 4 && Crc.VerifyFcs(frame, n)
    ensures Checked(frame[..n])
  {
    E.AcceptsExactlyIeeeFcs(frame, n);
    WholeIsChecked(frame, frame[..n], n, m);
  }

  lemma {:induction false} AcceptedIsChecked(frame: Bytes, n: nat)
    requires F.Accept(frame).Some? && n == F.DeriveFrameLen(frame)
    ensures Checked(frame[..n])
  {
    AcceptedVerifies(frame, n);
    ChecksOut(frame, n, n - 4);
  }

  lemma {:induction false} ProcessedIsChecked(run: Bytes, our: Bytes)
    ensures forall k :: 0 <= k < |Process(run, our)| ==> Checked(Process(run, our)[k])
  {
    if D.Decode(run).Some? && F.Accept(D.Decode(run).value).Some? {
      AcceptedIsChecked(D.Decode(run).value, F.DeriveFrameLen(D.Decode(run).value));
    }
  }

  ghost function ProcessAll(runs: seq<Bytes>, our: Bytes): seq<Bytes> {
    if runs == [] then []
    else ProcessAll(runs[..|runs| - 1], our) + Process(runs[|runs| - 1], our)
  }

  /** Nothing is published that fails its check, whatever the samples are. */
  lemma {:induction false} PublishedIsChecked(runs: seq<Bytes>, our: Bytes)
    ensures forall k :: 0 <= k < |ProcessAll(runs, our)| ==> Checked(ProcessAll(runs, our)[k])
  {
    if runs != [] {
      PublishedIsChecked(runs[..|runs| - 1], our);
      ProcessedIsChecked(runs[|runs| - 1], our);
    }
  }

  const MIN_RUN: nat := 100

  lemma {:induction false} LongRuns(rs: seq<Bytes>, min: nat)
    ensures forall i :: 0 <= i < |AtLeast(rs, min)| ==> |AtLeast(rs, min)[i]| >= min
  {
    if rs != [] {
      LongRuns(rs[1..], min);
    }
  }

  method ProcessRun(run: Bytes, our: Bytes) returns (frames: seq<Bytes>)
    requires |run| > 0
    ensures frames == Process(run, our)
  {
    var dst := Peek(run);
    if dst.None? || !MacAccept(dst.value, our) {
      return [];
    }
    var d := D.DecodeFrameEdgeTrack(run);
    if d.None? {
      return [];
    }
    var f := F.Accept(d.value);
    frames := if f.None? then [] else [f.value];
  }

  lemma {:induction false} ProcessAllNext(runs: seq<Bytes>, i: nat, our: Bytes)
    requires i < |runs|
    ensures ProcessAll(runs[..i + 1], our) == ProcessAll(runs[..i], our) + Process(runs[i], our)
  {
    assert runs[..i + 1][..i] == runs[..i];
  }

  method ProcessRuns(runs: seq<Bytes>, our: Bytes) returns (published: seq<Bytes>)
    requires forall i :: 0 <= i < |runs| ==> |runs[i]| > 0
    ensures published == ProcessAll(runs, our)
  {
    published := [];
    for i := 0 to |runs|
      invariant published == ProcessAll(runs[..i], our)
    {
      var frame := ProcessRun(runs[i], our);
      ProcessAllNext(runs, i, our);
      published := published + frame;
    }
    assert runs[..|runs|] == runs;
  }

  /** `scan_runs`: the frames published from one image, in order. */
  method ScanImage(bytes: Bytes, our: Bytes) returns (published: seq<Bytes>)
    ensures published == ProcessAll(AtLeast(Runs(bytes), 100), our)
  {
    var runs := ScanRuns(bytes, MIN_RUN);
    LongRuns(Runs(bytes), MIN_RUN);
    published := ProcessRuns(runs, our);
  }

  /** The frames published image by image. */
  ghost function PublishedFrom(images: seq<Bytes>, our: Bytes): seq<Bytes> {
    if images == [] then []
    else
      PublishedFrom(images[..|images| - 1], our)
      + ProcessAll(AtLeast(Runs(images[|images| - 1]), MIN_RUN), our)
  }

  lemma {:induction false} ProcessAllConcat(a: seq<Bytes>, b: seq<Bytes>, our: Bytes)
    ensures ProcessAll(a + b, our) == ProcessAll(a, our) + ProcessAll(b, our)
    decreases |b|
  {
    if b == [] {
      assert a + b == a;
    } else {
      assert (a + b)[..|a + b| - 1] == a + b[..|b| - 1];
      ProcessAllConcat(a, b[..|b| - 1], our);
    }
  }

  lemma {:induction false} PublishedIsProcessed(images: seq<Bytes>, our: Bytes)
    ensures PublishedFrom(images, our) == ProcessAll(X.FoundIn(images, MIN_RUN), our)
  {
    if images != [] {
      var prev := images[..|images| - 1];
      PublishedIsProcessed(prev, our);
      ProcessAllConcat(X.FoundIn(prev, MIN_RUN), AtLeast(Runs(images[|images| - 1]), MIN_RUN), our);
    }
  }

  /** What is published does not depend on where the DMA halves fall: over any halves, the frames
      published are those of what survives the carry budget, which is the uncut stream when no
      half hits it. */
  lemma {:induction false} PublishedIgnoresBoundaries(g: X.Geometry, hs: seq<Bytes>, our: Bytes)
    requires 0 < g.buf <= g.maxCarry && X.Halves(g, hs)
    ensures PublishedFrom(X.Images(g, hs), our)
            == ProcessAll(AtLeast(Runs(X.Body(X.Surviving(g, hs))), MIN_RUN), our)
    ensures X.NoCapHit(g, hs) ==> X.Surviving(g, hs) == X.Concat(hs)
  {
    X.SurvivorsArrive(g, hs, MIN_RUN);
    X.CutsExactlyAtCaps(g, hs);
    PublishedIsProcessed(X.Images(g, hs), our);
  }

  // ---- A transmitted frame is published ----

  lemma {:induction false} DriftSpan(buf: Bytes, w: Wave, p: nat, k: nat)
    requires Shows(buf, w) && Drifts(w, p) && p <= k < |w.bits|
    ensures w.e[k] >= w.e[p] + 5 * (k - p)
    decreases k
  {
    if k > p {
      DriftSpan(buf, w, p, k - 1);
      assert Near(w, w.e[k - 1] + 6, k);
    }
  }

  /** What a run must show for its frame to be read: a wave the receiver can lock on and track,
      whose data bits are those of a consistent frame. */
  ghost predicate Conveys(buf: Bytes, w: Wave, p: nat, body: Bytes) {
    && F.Consistent(body) && |F.WireFrame(body)| <= 1600
    && LocksOn(buf, w, p) && Drifts(w, p) && TailOk(buf, w)
    && w.bits[p..] == BitsOfBytes(F.WireFrame(body))
    && p + 47 <= PEEK_BITS && OpenLoopOk(w, p + 48)
  }

  lemma {:induction false} ManyBitsTakeLong(buf: Bytes, w: Wave, p: nat)
    requires Shows(buf, w) && p + 512 <= |w.bits| && Drifts(w, p)
    ensures |buf| >= MIN_RUN
  {
    DriftSpan(buf, w, p, |w.bits| - 1);
    assert Cell(buf, w, |w.bits| - 1);
  }

  /** A frame of at least 64 bytes makes a run long enough to be scanned. */
  lemma {:induction false} FrameIsLongEnough(buf: Bytes, w: Wave, p: nat, body: Bytes)
    requires Conveys(buf, w, p, body)
    ensures |buf| >= MIN_RUN
  {
    assert |w.bits[p..]| == 8 * |F.WireFrame(body)| >= 512;
    ManyBitsTakeLong(buf, w, p);
  }

  /** What is to be published of this frame: the frame, if it is sent to us or to a group. */
  ghost function Passed(body: Bytes, our: Bytes): seq<Bytes> {
    if IsForUs(F.WireFrame(body), our) then [F.WireFrame(body)] else []
  }

  lemma {:induction false} ConveyedIsProcessed(buf: Bytes, w: Wave, p: nat, body: Bytes, our: Bytes)
    requires Conveys(buf, w, p, body) && Ns(buf) < w.e[|w.bits| - 1] + 40
    ensures Process(buf, our) == Passed(body, our)
  {
    var wire := F.WireFrame(body);
    F.ConsistentFrameAccepted(body);
    assert Carried(buf, w, p, wire) && wire[..|wire|] == wire;
    DriftRoundTrip(buf, w, p, wire);
    FilterAgreesWithDecoder(buf, w, p, wire);
    AcceptsExactlyForUs(wire, our);
  }

  /** A maximal run anywhere in the bytes is found between those before it and those after it. */
  lemma {:induction false} RunAnywhere(bytes: Bytes, a: nat, b: nat, min: nat)
    requires a < b <= |bytes| && ActiveOn(bytes, a, b) && b - a >= min
    requires (b < |bytes| ==> Idle(bytes[b])) && (a > 0 ==> Idle(bytes[a - 1]))
    ensures AtLeast(Runs(bytes), min)
            == AtLeast(Runs(bytes[..a]), min) + ([bytes[a..b]] + Remaining(bytes, b, min))
  {
    assert bytes == bytes[..a] + bytes[a..];
    RunsConcat(bytes[..a], bytes[a..]);
    AtLeastConcat(Runs(bytes[..a]), Runs(bytes[a..]), min);
    SplitRun(bytes, a, b, min);
  }

  lemma {:induction false} ProcessAllAround(before: seq<Bytes>, run: Bytes, after: seq<Bytes>, our: Bytes)
    ensures ProcessAll(before + ([run] + after), our)
            == ProcessAll(before, our) + Process(run, our) + ProcessAll(after, our)
  {
    ProcessAllConcat([run], after, our);
    ProcessAllConcat(before, [run] + after, our);
    assert [run][..0] == [] && ProcessAll([run], our) == Process(run, our);
  }

  /** From samples to the inbox. Anywhere in an image, whatever else it holds, a dense stretch of
      edges with quiet around it that carries a consistent frame: that frame is published from it
      if it is sent to us or to a group, and nothing otherwise, between what is published from
      the bytes before and from those after. */
  lemma {:induction false} FrameInImageIsPublished(
      img: Bytes, s: nat, t: nat, w: Wave, p: nat, body: Bytes, our: Bytes)
    requires Dense(img, s, t) && QuietAround(img, s, t) && EndByte(t) <= |img|
    requires Conveys(img[FirstByte(s)..EndByte(t)], w, p, body)
    requires t <= 8 * FirstByte(s) + w.e[|w.bits| - 1] + 7
    ensures ProcessAll(AtLeast(Runs(img), MIN_RUN), our)
            == ProcessAll(AtLeast(Runs(img[..FirstByte(s)]), MIN_RUN), our)
               + Passed(body, our)
               + ProcessAll(Remaining(img, EndByte(t), MIN_RUN), our)
  {
    var a, b := FirstByte(s), EndByte(t);
    FrameIsLongEnough(img[a..b], w, p, body);
    OneFrameOneRun(img, s, t);
    RunAnywhere(img, a, b, MIN_RUN);
    ConveyedIsProcessed(img[a..b], w, p, body, our);
    ProcessAllAround(AtLeast(Runs(img[..a]), MIN_RUN), img[a..b], Remaining(img, b, MIN_RUN), our);
  }
}
