/** From half-bits with jittering widths to sampled buffers, and the transmitted frame back. */
module Line {
  import opened Wire
  import opened Samples
  import opened Manchester
  import opened Drift
  import F = Framing
  import D = Dpll

  ghost function Repeat(x: bool, n: nat): (r: seq<bool>)
    ensures |r| == n && forall i :: 0 <= i < n ==> r[i] == x
  {
    if n == 0 then [] else Repeat(x, n - 1) + [x]
  }

  /** Sum of the first i widths. */
  ghost function Start(widths: seq<nat>, i: nat): nat
    requires i <= |widths|
  {
    if i == 0 then 0 else Start(widths, i - 1) + widths[i - 1]
  }

  /** Each level sampled as many times as its width says. */
  ghost function Sampled(levels: seq<bool>, widths: seq<nat>): (r: seq<bool>)
    requires |levels| == |widths|
  {
    if levels == [] then []
    else
      var n := |levels| - 1;
      Sampled(levels[..n], widths[..n]) + Repeat(levels[n], widths[n])
  }

  lemma {:induction false} StartPrefix(widths: seq<nat>, n: nat, i: nat)
    requires i <= n <= |widths|
    ensures Start(widths[..n], i) == Start(widths, i)
  {
    if i > 0 {
      StartPrefix(widths, n, i - 1);
    }
  }

  lemma {:induction false} SampledLength(levels: seq<bool>, widths: seq<nat>)
    requires |levels| == |widths|
    ensures |Sampled(levels, widths)| == Start(widths, |widths|)
    decreases |levels|
  {
    if levels != [] {
      var n := |levels| - 1;
      SampledLength(levels[..n], widths[..n]);
      StartPrefix(widths, n, n);
    }
  }

  lemma {:induction false} SampledAt(levels: seq<bool>, widths: seq<nat>, j: nat, i: nat)
    requires |levels| == |widths| && j < |levels|
    requires Start(widths, j) <= i < Start(widths, j + 1)
    ensures i < |Sampled(levels, widths)| && Sampled(levels, widths)[i] == levels[j]
    decreases |levels|
  {
    var n := |levels| - 1;
    SampledLength(levels[..n], widths[..n]);
    StartPrefix(widths, n, n);
    if j < n {
      StartPrefix(widths, n, j);
      StartPrefix(widths, n, j + 1);
      SampledAt(levels[..n], widths[..n], j, i);
    }
  }

  /** Positions at + Start(widths, 2k + half) for k < n. */
  ghost function Marks(at: nat, widths: seq<nat>, half: nat, n: nat): (r: seq<nat>)
    requires half < 2 && 2 * n <= |widths|
    ensures |r| == n && forall k :: 0 <= k < n ==> r[k] == at + Start(widths, 2 * k + half)
  {
    if n == 0 then [] else Marks(at, widths, half, n - 1) + [at + Start(widths, 2 * (n - 1) + half)]
  }

  /** The wave of these bits when half-bits have these widths and begin at sample `at`. */
  ghost function WaveOf(bits: seq<bool>, at: nat, widths: seq<nat>): Wave
    requires |widths| == 2 * |bits|
  {
    Wave(bits, Marks(at, widths, 0, |bits|), Marks(at, widths, 1, |bits|))
  }

  /** The buffer holds the samples of lead, half-bits and tail, as far as it goes. */
  ghost predicate Received(buf: Bytes, lead: seq<bool>, levels: seq<bool>, widths: seq<nat>, tail: seq<bool>)
    requires |levels| == |widths|
  {
    var stream := lead + Sampled(levels, widths) + tail;
    Ns(buf) <= |stream| && forall i :: 0 <= i < Ns(buf) ==> Sample(buf, i) == stream[i]
  }

  ghost predicate AtLeastTwo(widths: seq<nat>) { forall j :: 0 <= j < |widths| ==> widths[j] >= 2 }

  lemma {:induction false} CodedAt(bits: seq<bool>, k: nat)
    requires k < |bits|
    ensures Coded(bits)[2 * k] == bits[k] && Coded(bits)[2 * k + 1] == !bits[k]
    decreases k
  {
    if k > 0 {
      CodedAt(bits[1..], k - 1);
    }
  }

  lemma {:induction false} CodedDrop(bits: seq<bool>, k: nat)
    requires k <= |bits|
    ensures Coded(bits)[2 * k..] == Coded(bits[k..])
    decreases k
  {
    if k > 0 {
      CodedDrop(bits[1..], k - 1);
      assert bits[1..][k - 1..] == bits[k..];
      assert Coded(bits)[2 * k..] == Coded(bits[1..])[2 * k - 2..];
    } else {
      assert bits[0..] == bits;
    }
  }

  lemma {:induction false} ReceivedAt(
      buf: Bytes, lead: seq<bool>, levels: seq<bool>, widths: seq<nat>, tail: seq<bool>, j: nat, i: nat)
    requires |levels| == |widths| && Received(buf, lead, levels, widths, tail)
    requires j < |levels| && |lead| + Start(widths, j) <= i < |lead| + Start(widths, j + 1) && i < Ns(buf)
    ensures Sample(buf, i) == levels[j]
  {
    SampledAt(levels, widths, j, i - |lead|);
  }

  lemma {:induction false} StartGrows(widths: seq<nat>, i: nat, j: nat)
    requires i <= j <= |widths|
    ensures Start(widths, i) <= Start(widths, j)
    decreases j
  {
    if i < j {
      StartGrows(widths, i, j - 1);
    }
  }

  lemma {:induction false} HalfShows(
      buf: Bytes, lead: seq<bool>, bits: seq<bool>, widths: seq<nat>, tail: seq<bool>, k: nat)
    requires |widths| == 2 * |bits| && AtLeastTwo(widths) && k < |bits|
    requires Received(buf, lead, Coded(bits), widths, tail)
    requires |lead| + Start(widths, |widths| - 1) <= Ns(buf)
    ensures var w := WaveOf(bits, |lead|, widths);
            && w.m[k] + 2 <= w.e[k] <= Ns(buf)
            && (forall i :: w.m[k] <= i < w.e[k] ==> Sample(buf, i) == bits[k])
            && (forall i :: w.e[k] <= i < Min(w.e[k] + 2, Ns(buf)) ==> Sample(buf, i) != bits[k])
            && (k < |bits| - 1 ==> Joined(buf, w, k))
  {
    var w, at := WaveOf(bits, |lead|, widths), |lead|;
    CodedAt(bits, k);
    StartGrows(widths, 2 * k + 1, |widths| - 1);
    if k < |bits| - 1 {
      StartGrows(widths, 2 * k + 2, |widths| - 1);
    }
    assert w.m[k] == at + Start(widths, 2 * k) && w.e[k] == at + Start(widths, 2 * k + 1);
    var z := at + Start(widths, 2 * k + 2);
    forall i | w.m[k] <= i < w.e[k]
      ensures Sample(buf, i) == bits[k]
    {
      ReceivedAt(buf, lead, Coded(bits), widths, tail, 2 * k, i);
    }
    forall i | w.e[k] <= i < Min(z, Ns(buf))
      ensures Sample(buf, i) != bits[k]
    {
      ReceivedAt(buf, lead, Coded(bits), widths, tail, 2 * k + 1, i);
    }
  }

  /** Jittered half-bits of two samples or more make a wave. */
  lemma {:induction false} WaveShows(
      buf: Bytes, lead: seq<bool>, bits: seq<bool>, widths: seq<nat>, tail: seq<bool>)
    requires bits != [] && |widths| == 2 * |bits| && AtLeastTwo(widths)
    requires Received(buf, lead, Coded(bits), widths, tail)
    requires |lead| + Start(widths, |widths| - 1) <= Ns(buf)
    ensures Shows(buf, WaveOf(bits, |lead|, widths))
  {
    var w := WaveOf(bits, |lead|, widths);
    forall k | 0 <= k < |bits|
      ensures Cell(buf, w, k)
      ensures k < |bits| - 1 ==> Joined(buf, w, k)
    {
      HalfShows(buf, lead, bits, widths, tail, k);
      StartGrows(widths, 2 * k + 1, |widths| - 1);
    }
  }

  // ---- Preamble ----

  lemma {:induction false} PreambleByte(k: nat)
    requires k < 8
    ensures BitOf(0x55, k) == (k % 2 == 0)
    ensures BitOf(0xD5, k) == (k % 2 == 0 || k == 7)
  {
    BitsOf(0x55);
    BitsOf(0xD5);
  }

  lemma {:induction false} PreambleBit(rest: Bytes, i: nat)
    requires i < 64
    ensures BitsOfBytes(F.PREAMBLE + rest)[i] == (i % 2 == 0 || i == 63)
  {
    BitsOfBytesAt(F.PREAMBLE + rest, i);
    PreambleByte(i % 8);
  }

  /** The bits that arrive when the first 2q preamble bits are lost. */
  ghost function LineBits(bytes: Bytes, q: nat): (r: seq<bool>)
    requires q <= 30
    ensures |r| == 8 * (8 + |bytes|) - 2 * q
    decreases q
  {
    if q == 0 then BitsOfBytes(F.PREAMBLE + bytes) else LineBits(bytes, q - 1)[2..]
  }

  /** Index of the first data bit: preamble and SFD are 64 bits. */
  ghost function DataFrom(q: nat): (p: nat)
    requires q <= 30
  {
    64 - 2 * q
  }

  lemma {:induction false} WholePreamble(bytes: Bytes)
    ensures PreambleThenSfd(BitsOfBytes(F.PREAMBLE + bytes), 64)
  {
    forall i | 0 <= i < 64
      ensures BitsOfBytes(F.PREAMBLE + bytes)[i] == (i % 2 == 0 || i == 63)
    {
      PreambleBit(bytes, i);
    }
  }

  lemma LosePair(bits: seq<bool>, p: nat)
    requires PreambleThenSfd(bits, p) && p >= 6
    ensures PreambleThenSfd(bits[2..], p - 2)
  {
  }

  lemma {:induction false} LineBitsStart(bytes: Bytes, q: nat)
    requires q <= 30
    ensures PreambleThenSfd(LineBits(bytes, q), DataFrom(q))
    decreases q
  {
    if q == 0 {
      WholePreamble(bytes);
    } else {
      LineBitsStart(bytes, q - 1);
      LosePair(LineBits(bytes, q - 1), DataFrom(q - 1));
    }
  }

  lemma {:induction false} LineBitsEnd(bytes: Bytes, q: nat)
    requires q <= 30
    ensures LineBits(bytes, q)[DataFrom(q)..] == BitsOfBytes(bytes)
    decreases q
  {
    if q == 0 {
      BitsOfBytesConcat(F.PREAMBLE, bytes);
      assert |BitsOfBytes(F.PREAMBLE)| == 64;
    } else {
      LineBitsEnd(bytes, q - 1);
    }
  }

  // ---- Transmitter to receiver ----

  /** No high-to-low step within the lead. */
  ghost predicate NoFall(lead: seq<bool>) {
    forall i :: 1 <= i < |lead| ==> !(lead[i - 1] && !lead[i])
  }

  lemma {:induction false} LeadIsQuiet(
      buf: Bytes, lead: seq<bool>, bits: seq<bool>, widths: seq<nat>, tail: seq<bool>)
    requires bits != [] && bits[0] && |widths| == 2 * |bits| && AtLeastTwo(widths)
    requires Received(buf, lead, Coded(bits), widths, tail) && NoFall(lead)
    ensures QuietLead(buf, WaveOf(bits, |lead|, widths))
  {
    var w := WaveOf(bits, |lead|, widths);
    CodedAt(bits, 0);
    assert w.e[0] == |lead| + Start(widths, 1);
    forall i | 1 <= i < Min(w.e[0], Ns(buf))
      ensures !D.Falls(buf, i)
    {
      if i >= |lead| {
        ReceivedAt(buf, lead, Coded(bits), widths, tail, 0, i);
      }
    }
  }

  /** Timing the receiver needs: open-loop sampling up to the SFD, the anchor, bit-to-bit drift,
      the last bit unless the frame's cap leaves it out, and too few samples after it for another
      byte. */
  ghost predicate Timing(buf: Bytes, w: Wave, p: nat, bytes: Bytes) {
    && 1 <= p && p + 1 < |w.bits| == |w.m| == |w.e|
    && OpenLoopOk(w, p) && Near(w, AnchorCentre(w, p), p) && Drifts(w, p)
    && Readable(buf, w, bytes) && Ns(buf) < w.e[|w.bits| - 1] + 40
  }

  /** The half-bits on the line when a frame is sent and the first 2q preamble bits are lost. */
  ghost function LineLevels(bytes: Bytes, q: nat): (r: seq<bool>)
    requires q <= 30
    ensures |r| == 16 * (8 + |bytes|) - 4 * q
    decreases q
  {
    if q == 0 then F.LineHalves(F.Words(F.PREAMBLE + bytes)) else LineLevels(bytes, q - 1)[4..]
  }

  lemma {:induction false} LevelsAreCoded(bytes: Bytes, q: nat)
    requires q <= 30
    ensures LineLevels(bytes, q) == Coded(LineBits(bytes, q))
    decreases q
  {
    if q == 0 {
      F.WordsAreManchester(F.PREAMBLE + bytes);
    } else {
      LevelsAreCoded(bytes, q - 1);
      CodedDrop(LineBits(bytes, q - 1), 2);
    }
  }

  /** These levels, sampled with these widths, with timing to read these bytes from bit p on. */
  ghost predicate Heard(buf: Bytes, bytes: Bytes, levels: seq<bool>, bits: seq<bool>, p: nat,
                        lead: seq<bool>, widths: seq<nat>, tail: seq<bool>)
  {
    && |widths| == |levels| == 2 * |bits| && bits != []
    && AtLeastTwo(widths) && NoFall(lead)
    && Received(buf, lead, levels, widths, tail)
    && |lead| + Start(widths, |widths| - 1) <= Ns(buf)
    && Timing(buf, WaveOf(bits, |lead|, widths), p, bytes)
  }

  /** The buffer holds that transmission, sampled with these half-bit widths after a quiet lead,
      at least up to its last mid-bit edge, with timing the receiver can follow. */
  ghost predicate Transmission(
      buf: Bytes, bytes: Bytes, q: nat, lead: seq<bool>, widths: seq<nat>, tail: seq<bool>)
  {
    q <= 30 && Heard(buf, bytes, LineLevels(bytes, q), LineBits(bytes, q), DataFrom(q), lead, widths, tail)
  }

  ghost predicate AllThree(widths: seq<nat>) { forall j :: 0 <= j < |widths| ==> widths[j] == 3 }

  lemma {:induction false} StartOfThrees(widths: seq<nat>, i: nat)
    requires AllThree(widths) && i <= |widths|
    ensures Start(widths, i) == 3 * i
  {
    if i > 0 {
      StartOfThrees(widths, i - 1);
    }
  }

  /** The nominal rate, three samples to every half-bit, meets `Timing`. */
  lemma {:induction false} NominalTiming(
      buf: Bytes, bytes: Bytes, bits: seq<bool>, p: nat, at: nat, widths: seq<nat>)
    requires 1 <= p && p + 1 < |bits| && |widths| == 2 * |bits| && AllThree(widths)
    requires Ns(buf) < at + 6 * |bits| + 37
    ensures Timing(buf, WaveOf(bits, at, widths), p, bytes)
  {
    var w := WaveOf(bits, at, widths);
    forall k | 0 <= k < |bits|
      ensures w.m[k] == at + 6 * k && w.e[k] == at + 6 * k + 3
    {
      StartOfThrees(widths, 2 * k);
      StartOfThrees(widths, 2 * k + 1);
    }
  }

  /** These levels are the Manchester code of a preamble, SFD and these bytes. */
  ghost predicate Codes(levels: seq<bool>, bits: seq<bool>, p: nat, bytes: Bytes) {
    levels == Coded(bits) && PreambleThenSfd(bits, p) && bits[p..] == BitsOfBytes(bytes)
  }

  lemma {:induction false} LineCarries(bytes: Bytes, q: nat)
    requires q <= 30
    ensures Codes(LineLevels(bytes, q), LineBits(bytes, q), DataFrom(q), bytes)
  {
    LevelsAreCoded(bytes, q);
    LineBitsStart(bytes, q);
    LineBitsEnd(bytes, q);
  }

  lemma {:induction false} CodedBitsDecode(
      buf: Bytes, bytes: Bytes, levels: seq<bool>, bits: seq<bool>, p: nat,
      lead: seq<bool>, widths: seq<nat>, tail: seq<bool>)
    requires bytes != [] && Codes(levels, bits, p, bytes)
    requires Heard(buf, bytes, levels, bits, p, lead, widths, tail)
    ensures D.Decode(buf) == Some(bytes[..D.Declared(bytes)])
  {
    WaveShows(buf, lead, bits, widths, tail);
    LeadIsQuiet(buf, lead, bits, widths, tail);
    DriftRoundTrip(buf, WaveOf(bits, |lead|, widths), p, bytes);
  }

  /** Transmit, sample, decode. A frame sent by `send_raw_frame`, its first 2q preamble bits lost
      or not, sampled with any half-bit widths that meet `Timing`, is decoded to exactly its
      bytes, cut to the length its header declares. */
  lemma {:induction false} SentFrameDecodes(
      buf: Bytes, bytes: Bytes, q: nat, lead: seq<bool>, widths: seq<nat>, tail: seq<bool>)
    requires bytes != [] && Transmission(buf, bytes, q, lead, widths, tail)
    ensures D.Decode(buf) == Some(bytes[..D.Declared(bytes)])
  {
    LineCarries(bytes, q);
    CodedBitsDecode(buf, bytes, LineLevels(bytes, q), LineBits(bytes, q), DataFrom(q), lead, widths, tail);
  }

  /** The whole link. For every body with a consistent header and a wire length of at most 1600
      bytes, what the transmitter emits is, after sampling within `Timing`, decoded,
      length-derived, FCS-checked and published as exactly the frame sent. */
  lemma {:induction false} LinkRoundTrip(
      buf: Bytes, body: Bytes, q: nat, lead: seq<bool>, widths: seq<nat>, tail: seq<bool>)
    requires F.Consistent(body) && |F.WireFrame(body)| <= 1600
    requires Transmission(buf, F.WireFrame(body), q, lead, widths, tail)
    ensures D.Decode(buf) == Some(F.WireFrame(body))
    ensures F.Accept(D.Decode(buf).value) == Some(F.WireFrame(body))
  {
    var wire := F.WireFrame(body);
    F.ConsistentFrameAccepted(body);
    SentFrameDecodes(buf, wire, q, lead, widths, tail);
    assert wire[..|wire|] == wire;
  }

  // ---- The undistorted line ----

  ghost function Threes(n: nat): (r: seq<nat>)
    ensures |r| == n && AllThree(r)
  {
    if n == 0 then [] else Threes(n - 1) + [3]
  }

  /** Three samples of every half-bit, packed as the receiver packs them, and nothing else. */
  ghost function NominalBuffer(bytes: Bytes): Bytes {
    PackBytes(Sampled(LineLevels(bytes, 0), Threes(|LineLevels(bytes, 0)|)))
  }

  lemma {:induction false} SampleOfPacked(s: seq<bool>, i: nat)
    requires |s| % 8 == 0 && i < |s|
    ensures Sample(PackBytes(s), i) == s[i]
  {
    UnpackBytes(s);
    BitsOfBytesAt(PackBytes(s), i);
  }

  lemma {:induction false} ThreeOfEach(levels: seq<bool>, widths: seq<nat>)
    requires |levels| == |widths| && AllThree(widths)
    ensures |Sampled(levels, widths)| == 3 * |levels|
  {
    SampledLength(levels, widths);
    StartOfThrees(widths, |widths|);
  }

  lemma {:induction false} PackedIsReceived(pre: seq<bool>, levels: seq<bool>, widths: seq<nat>, tail: seq<bool>)
    requires |levels| == |widths| && |pre + Sampled(levels, widths) + tail| % 8 == 0
    ensures var stream := pre + Sampled(levels, widths) + tail;
            Ns(PackBytes(stream)) == |stream| && Received(PackBytes(stream), pre, levels, widths, tail)
  {
    var stream := pre + Sampled(levels, widths) + tail;
    forall i | 0 <= i < |stream|
      ensures Sample(PackBytes(stream), i) == stream[i]
    {
      SampleOfPacked(stream, i);
    }
  }

  lemma ThriceWhole(n: nat, m: nat, k: nat)
    requires n == 8 * k && m == 3 * n
    ensures m % 8 == 0
  {
    assert m == 8 * (3 * k);
  }

  lemma {:induction false} NominalIsReceived(levels: seq<bool>, widths: seq<nat>)
    requires |levels| == |widths| && AllThree(widths) && |levels| % 8 == 0
    ensures var buf := PackBytes(Sampled(levels, widths));
            Ns(buf) == 3 * |levels| && Received(buf, [], levels, widths, [])
  {
    var s := Sampled(levels, widths);
    ThreeOfEach(levels, widths);
    ThriceWhole(|levels|, |s|, |levels| / 8);
    assert [] + s + [] == s;
    PackedIsReceived([], levels, widths, []);
  }

  lemma {:induction false} NominalIsHeard(
      bytes: Bytes, levels: seq<bool>, bits: seq<bool>, p: nat, widths: seq<nat>)
    requires |levels| == 2 * |bits| == |widths| && AllThree(widths) && |levels| % 8 == 0
    requires 1 <= p && p + 1 < |bits|
    ensures Heard(PackBytes(Sampled(levels, widths)), bytes, levels, bits, p, [], widths, [])
  {
    var buf := PackBytes(Sampled(levels, widths));
    NominalIsReceived(levels, widths);
    StartOfThrees(widths, |widths| - 1);
    NominalTiming(buf, bytes, bits, p, 0, widths);
  }

  /** Every frame has a transmission that meets the conditions, and on it the round trip needs no
      hypothesis: for every non-empty byte sequence, encoding and sampling at the nominal rate
      and decoding gives the bytes back, cut to the length their header declares. */
  lemma {:induction false} NominalRoundTrip(bytes: Bytes)
    requires bytes != []
    ensures Transmission(NominalBuffer(bytes), bytes, 0, [], Threes(|LineLevels(bytes, 0)|), [])
    ensures D.Decode(NominalBuffer(bytes)) == Some(bytes[..D.Declared(bytes)])
  {
    var levels := LineLevels(bytes, 0);
    NominalIsHeard(bytes, levels, LineBits(bytes, 0), DataFrom(0), Threes(|levels|));
    SentFrameDecodes(NominalBuffer(bytes), bytes, 0, [], Threes(|levels|), []);
  }

  // ---- A last edge that comes early ----

  /** Half-bits of three samples, but for the first half of the last bit, which has two. */
  ghost function EarlyWidths(n: nat): (r: seq<nat>)
    requires n >= 1
    ensures |r| == 2 * n && AtLeastTwo(r)
  {
    Threes(2 * n - 2) + [2, 3]
  }

  lemma {:induction false} StartOfPrefix(a: seq<nat>, b: seq<nat>, i: nat)
    requires i <= |a|
    ensures Start(a + b, i) == Start(a, i)
  {
    assert (a + b)[..|a|] == a;
    StartPrefix(a + b, |a|, i);
  }

  lemma {:induction false} EarlyStart(n: nat, i: nat)
    requires n >= 1 && i <= 2 * n - 1
    ensures Start(EarlyWidths(n), i) == if i == 2 * n - 1 then 6 * n - 4 else 3 * i
  {
    var j := if i == 2 * n - 1 then i - 1 else i;
    StartOfPrefix(Threes(2 * n - 2), [2, 3], j);
    StartOfThrees(Threes(2 * n - 2), j);
  }

  /** The first m samples. */
  ghost function Upto(stream: seq<bool>, m: nat): seq<bool> { stream[..Min(|stream|, m)] }

  /** Four idle samples, then the frame. */
  ghost function EarlyStream(bits: seq<bool>): seq<bool>
    requires bits != []
  {
    Repeat(true, 4) + Sampled(Coded(bits), EarlyWidths(|bits|))
  }

  ghost function EarlyEnd(bits: seq<bool>): nat { 6 * |bits| }

  /** The same, ending with its last mid-bit edge. */
  ghost function EarlyBuffer(bits: seq<bool>): Bytes
    requires bits != []
  {
    PackBytes(Upto(EarlyStream(bits), EarlyEnd(bits)))
  }

  lemma {:induction false} PackedPrefix(stream: seq<bool>, m: nat)
    requires m <= |stream| && m % 8 == 0
    ensures Ns(PackBytes(stream[..m])) == m
    ensures forall i :: 0 <= i < m ==> Sample(PackBytes(stream[..m]), i) == stream[i]
  {
    forall i | 0 <= i < m
      ensures Sample(PackBytes(stream[..m]), i) == stream[i]
    {
      SampleOfPacked(stream[..m], i);
    }
  }

  lemma {:induction false} EarlyLength(bits: seq<bool>)
    requires bits != []
    ensures |EarlyStream(bits)| == EarlyEnd(bits) + 3
  {
    SampledLength(Coded(bits), EarlyWidths(|bits|));
    EarlyStart(|bits|, 2 * |bits| - 1);
  }

  lemma {:induction false} EarlyEndIsWhole(bits: seq<bool>, k: nat)
    requires |bits| == 8 * k
    ensures EarlyEnd(bits) % 8 == 0
  {
    assert EarlyEnd(bits) == 8 * (6 * k);
  }

  lemma {:induction false} UptoIsReceived(
      lead: seq<bool>, levels: seq<bool>, widths: seq<nat>, stream: seq<bool>, m: nat)
    requires |levels| == |widths| && stream == lead + Sampled(levels, widths)
    requires m <= |stream| && m % 8 == 0
    ensures Ns(PackBytes(Upto(stream, m))) == m
    ensures Received(PackBytes(Upto(stream, m)), lead, levels, widths, [])
  {
    PackedPrefix(stream, m);
    assert Upto(stream, m) == stream[..m];
    assert stream + [] == stream;
  }

  lemma {:induction false} EarlyReceived(bits: seq<bool>)
    requires bits != [] && |bits| % 8 == 0
    ensures Ns(EarlyBuffer(bits)) == EarlyEnd(bits)
    ensures Received(EarlyBuffer(bits), Repeat(true, 4), Coded(bits), EarlyWidths(|bits|), [])
  {
    EarlyLength(bits);
    EarlyEndIsWhole(bits, |bits| / 8);
    UptoIsReceived(Repeat(true, 4), Coded(bits), EarlyWidths(|bits|), EarlyStream(bits), EarlyEnd(bits));
  }

  /** Where the last edge is, and that it fails the tail condition and no other. */
  lemma {:induction false} EarlyTiming(bits: seq<bool>, p: nat)
    requires 4 <= p && p + 1 < |bits| && Ns(EarlyBuffer(bits)) == EarlyEnd(bits)
    ensures var w, buf := WaveOf(bits, 4, EarlyWidths(|bits|)), EarlyBuffer(bits);
            && OpenLoopOk(w, p) && Near(w, AnchorCentre(w, p), p) && Drifts(w, p)
            && w.e[|bits| - 1] == Ns(buf) && !TailOk(buf, w)
  {
    var n := |bits|;
    var w := WaveOf(bits, 4, EarlyWidths(n));
    forall k | 0 <= k < n
      ensures w.m[k] == 4 + 6 * k && w.e[k] == (if k == n - 1 then 6 * n else 7 + 6 * k)
    {
      EarlyStart(n, 2 * k);
      EarlyStart(n, 2 * k + 1);
    }
  }

  lemma {:induction false} EarlyShows(bits: seq<bool>)
    requires bits != [] && bits[0] && |bits| % 8 == 0
    ensures var w := WaveOf(bits, 4, EarlyWidths(|bits|));
            Shows(EarlyBuffer(bits), w) && QuietLead(EarlyBuffer(bits), w)
  {
    EarlyReceived(bits);
    EarlyStart(|bits|, 2 * |bits| - 1);
    WaveShows(EarlyBuffer(bits), Repeat(true, 4), bits, EarlyWidths(|bits|), []);
    LeadIsQuiet(EarlyBuffer(bits), Repeat(true, 4), bits, EarlyWidths(|bits|), []);
  }

  lemma {:induction false} EarlyCarried(bytes: Bytes, bits: seq<bool>, p: nat)
    requires bytes != [] && PreambleThenSfd(bits, p) && bits[p..] == BitsOfBytes(bytes)
    requires |bits| % 8 == 0 && p + 1 < |bits|
    ensures var buf, w := EarlyBuffer(bits), WaveOf(bits, 4, EarlyWidths(|bits|));
            Carried(buf, w, p, bytes) && !TailOk(buf, w)
  {
    EarlyReceived(bits);
    EarlyTiming(bits, p);
    EarlyShows(bits);
  }

  /** For every frame that its declared length keeps whole there is a waveform, nominal but for its last
      bit one sample early, that meets every condition but the last, and on it the frame does
      not come back. */
  lemma {:induction false} EarlyLastEdgeMisreads(bytes: Bytes)
    requires bytes != [] && D.Declared(bytes) == |bytes|
    ensures var bits := LineBits(bytes, 0);
            var buf, w := EarlyBuffer(bits), WaveOf(bits, 4, EarlyWidths(|bits|));
            && Carried(buf, w, DataFrom(0), bytes) && !TailOk(buf, w)
            && D.Decode(buf) != Some(bytes)
  {
    var bits := LineBits(bytes, 0);
    LineBitsStart(bytes, 0);
    LineBitsEnd(bytes, 0);
    EarlyCarried(bytes, bits, DataFrom(0));
    assert bytes[..|bytes|] == bytes;
    RoundTripExactlyWhenTailOk(EarlyBuffer(bits), WaveOf(bits, 4, EarlyWidths(|bits|)), DataFrom(0), bytes);
  }
}
