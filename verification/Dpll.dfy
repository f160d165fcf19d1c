/** The edge-tracking Manchester decoder: what it computes, the per-sample loop, and the
    table-driven fast path, both loops proved against the same specification. */
module Dpll {
  import opened Wire
  import opened Samples

  const MAX_FRAME_BYTES: nat := 1600

  // ---- Locking on ----

  predicate Falls(buf: Bytes, i: nat)
    requires 1 <= i < Ns(buf)
  {
    Sample(buf, i - 1) && !Sample(buf, i)
  }

  /** First high-to-low edge at or after i. */
  function FirstFall(buf: Bytes, i: nat): (r: Option<nat>)
    requires i >= 1
    ensures r.Some? ==> i <= r.value < Ns(buf) && Falls(buf, r.value)
    ensures forall j :: i <= j < (if r.Some? then r.value else Ns(buf)) ==> !Falls(buf, j)
    decreases Ns(buf) - i
  {
    if i >= Ns(buf) then None
    else if Falls(buf, i) then Some(i)
    else FirstFall(buf, i + 1)
  }

  /** Open-loop sample of bit k after anchor f. */
  function ReadBit(buf: Bytes, f: nat, k: nat): Option<bool> {
    if f + 4 + 6 * k < Ns(buf) then Some(Sample(buf, f + 4 + 6 * k)) else None
  }

  /** First k in k0..max with open-loop bits k-1 and k both 1. */
  function FirstPair(buf: Bytes, f: nat, k0: nat, max: nat): (r: Option<nat>)
    requires k0 >= 1 && ReadBit(buf, f, k0 - 1).Some?
    ensures r.Some? ==> k0 <= r.value < max
    decreases max - k0
  {
    if k0 >= max || ReadBit(buf, f, k0).None? then None
    else if ReadBit(buf, f, k0).value && ReadBit(buf, f, k0 - 1).value then Some(k0)
    else FirstPair(buf, f, k0 + 1, max)
  }

  function SfdEnd(buf: Bytes, f: nat, max: nat): Option<nat> {
    if ReadBit(buf, f, 0).None? then None else FirstPair(buf, f, 1, max)
  }

  // ---- Tracking ----

  /** Nearest edge to `c` within one sample, ties low; `c` if there is none. */
  function FindEdgeW1(buf: Bytes, c: nat): (r: nat)
    requires 2 <= c && c + 1 < Ns(buf)
    ensures c - 1 <= r <= c + 1
  {
    if Sample(buf, c - 1) != Sample(buf, c) then c
    else if Sample(buf, c - 2) != Sample(buf, c - 1) then c - 1
    else if Sample(buf, c) != Sample(buf, c + 1) then c + 1
    else c
  }

  /** Track the edge near `c`, or coast where the window would leave the buffer. */
  function TrackTo(buf: Bytes, c: nat): (r: nat)
    ensures c - 1 <= r <= c + 1
  {
    if c < 2 || c + 1 >= Ns(buf) then c else FindEdgeW1(buf, c)
  }

  /** The data bits read one sample before each tracked edge, from edge `tr` on. */
  function TrackedBits(buf: Bytes, tr: nat): seq<bool>
    decreases Ns(buf) + 1 - tr
  {
    if tr == 0 || tr > Ns(buf) then []
    else [Sample(buf, tr - 1)] + TrackedBits(buf, TrackTo(buf, tr + 6))
  }

  // ---- Length cap ----

  function Be(hi: bv8, lo: bv8): nat { 0x100 * (hi as nat) + (lo as nat) }

  /** The cap the first 18 bytes impose: the IPv4 total length plus header and FCS. */
  function DeriveCap(bytes: Bytes): (cap: nat)
    requires |bytes| >= 18
    ensures 64 <= cap <= MAX_FRAME_BYTES
  {
    if Be(bytes[12], bytes[13]) == 0x0800
    then Min(Max(14 + Be(bytes[16], bytes[17]) + 4, 64), MAX_FRAME_BYTES)
    else MAX_FRAME_BYTES
  }

  function CapOf(bytes: Bytes): (cap: nat)
    ensures 64 <= cap <= MAX_FRAME_BYTES
  {
    if |bytes| >= 18 then DeriveCap(bytes) else MAX_FRAME_BYTES
  }

  /** What is kept of a byte stream: as much as its cap allows. */
  function Cut(bytes: Bytes): Bytes { bytes[..Min(|bytes|, CapOf(bytes))] }

  /** How many of these bytes are to be kept. A frame of EtherType 08 00 keeps what its IPv4 total
      length (RFC 791) says, with 14 bytes of header and 4 of FCS, but at least 64; no frame keeps
      more than 1600. */
  ghost function Declared(bytes: Bytes): (n: nat)
    ensures n <= |bytes|
  {
    var total := if |bytes| >= 18 && bytes[12] == 0x08 && bytes[13] == 0x00
                 then 256 * (bytes[16] as nat) + (bytes[17] as nat) + 18 else 1600;
    var limit := if total < 64 then 64 else if total > 1600 then 1600 else total;
    if |bytes| < limit then |bytes| else limit
  }

  /** The cap kept while decoding comes to exactly that. */
  lemma CutIsDeclared(bytes: Bytes)
    ensures Cut(bytes) == bytes[..Declared(bytes)]
    ensures Declared(bytes) < |bytes| <==> CapOf(bytes) < |bytes|
  {
  }

  /** Where tracking starts: the edge of the first bit after the SFD. */
  function Anchor(buf: Bytes): Option<nat> {
    var f := FirstFall(buf, 1);
    if f.None? then None
    else
      var sfd := SfdEnd(buf, f.value, 1600);
      if sfd.None? then None else Some(TrackTo(buf, f.value + 5 + 6 * (sfd.value + 1)))
  }

  /** The decoder's result, as one expression. */
  function Decode(buf: Bytes): Option<Bytes> {
    match Anchor(buf)
    case None => None
    case Some(tr) => Some(Cut(PackBytes(TrackedBits(buf, tr))))
  }

  // ---- One data bit ----

  /** Partial byte, its fill, bytes so far, cap in force. */
  datatype Regs = Regs(byte: bv8, bitIdx: nat, frame: Bytes, cap: nat)

  const CLEAR := Regs(0, 0, [], MAX_FRAME_BYTES)

  /** The registers after n bits of the stream, the frame not yet complete. */
  ghost predicate Holds(r: Regs, bits: seq<bool>, n: nat) {
    && n <= |bits| && r.bitIdx < 8 && n == 8 * |r.frame| + r.bitIdx
    && |r.frame| <= |PackBytes(bits)| && r.frame == PackBytes(bits)[..|r.frame|]
    && r.byte == PackByte(bits[n - r.bitIdx..n])
    && r.cap == CapOf(r.frame) && |r.frame| < r.cap
  }

  lemma {:induction false} PackByteGrows(bits: seq<bool>, a: nat, n: nat)
    requires a <= n < |bits| && n - a < 8
    ensures PackByte(bits[a..n + 1]) == PutBit(PackByte(bits[a..n]), n - a, bits[n])
  {
    assert bits[a..n + 1][..n - a] == bits[a..n];
  }

  lemma {:induction false} ByteGrows(r: Regs, bits: seq<bool>, n: nat)
    requires Holds(r, bits, n) && n < |bits|
    ensures PutBit(r.byte, r.bitIdx, bits[n]) == PackByte(bits[n - r.bitIdx..n + 1])
  {
    PackByteGrows(bits, n - r.bitIdx, n);
  }

  lemma {:induction false} MoreInByte(r: Regs, s: Regs, bits: seq<bool>, n: nat)
    requires Holds(r, bits, n) && n < |bits| && r.bitIdx < 7
    requires s == r.(byte := s.byte, bitIdx := r.bitIdx + 1)
    requires s.byte == PackByte(bits[n - r.bitIdx..n + 1])
    ensures Holds(s, bits, n + 1)
  {
    assert n + 1 - s.bitIdx == n - r.bitIdx;
  }

  lemma {:induction false} FrameGrows(bits: seq<bool>, frame: Bytes)
    requires 8 * |frame| + 8 <= |bits|
    requires |frame| <= |PackBytes(bits)| && frame == PackBytes(bits)[..|frame|]
    ensures frame + [PackByte(bits[8 * |frame|..8 * |frame| + 8])] <= PackBytes(bits)
  {
    PackBytesAt(bits, |frame|);
  }

  lemma {:induction false} ByteFull(r: Regs, byte: bv8, bits: seq<bool>, n: nat)
    requires Holds(r, bits, n) && n < |bits| && r.bitIdx == 7
    requires byte == PackByte(bits[n - 7..n + 1])
    ensures r.frame + [byte] <= PackBytes(bits)
  {
    FrameGrows(bits, r.frame);
  }

  /** The cap after one more byte. */
  method UpdateCap(frame: Bytes, cap0: nat) returns (cap: nat)
    requires frame != [] && cap0 == CapOf(frame[..|frame| - 1])
    ensures cap == CapOf(frame)
  {
    cap := cap0;
    if |frame| == 18 && cap == MAX_FRAME_BYTES {
      if Be(frame[12], frame[13]) == 0x0800 {
        cap := Min(Max(14 + Be(frame[16], frame[17]) + 4, 64), MAX_FRAME_BYTES);
      }
    }
  }

  /** A cap derived from a prefix is the cap of the whole. */
  lemma CapOfPrefix(a: Bytes, b: Bytes)
    requires a <= b && |a| >= 18
    ensures CapOf(a) == CapOf(b)
  {
  }

  lemma {:induction false} CapSettles(a: Bytes, b: Bytes, all: Bytes)
    requires a <= b <= all && |b| == |a| + 1 && |a| < CapOf(a)
    ensures |b| >= CapOf(b) ==> b == Cut(all)
  {
    if |b| >= 18 {
      CapOfPrefix(b, all);
      if |a| >= 18 {
        CapOfPrefix(a, all);
      }
    }
  }

  /** Append a finished byte. The push into the 1600-byte frame cannot fail. */
  method PushByte(frame0: Bytes, cap0: nat, byte: bv8, ghost all: Bytes)
    returns (frame: Bytes, cap: nat, done: bool)
    requires frame0 + [byte] <= all && cap0 == CapOf(frame0) && |frame0| < cap0
    ensures frame == frame0 + [byte] && cap == CapOf(frame)
    ensures done ==> frame == Cut(all)
    ensures !done ==> |frame| < cap
  {
    assert |frame0| < MAX_FRAME_BYTES;
    frame := frame0 + [byte];
    cap := UpdateCap(frame, cap0);
    done := |frame| >= cap;
    CapSettles(frame0, frame, all);
  }

  lemma {:induction false} FreshByte(r: Regs, bits: seq<bool>, n: nat)
    requires n <= |bits| && r.byte == 0 && r.bitIdx == 0 && n == 8 * |r.frame|
    requires r.frame <= PackBytes(bits) && r.cap == CapOf(r.frame) && |r.frame| < r.cap
    ensures Holds(r, bits, n)
  {
    assert bits[n..n] == [];
  }

  method EndByte(r: Regs, byte: bv8, ghost bits: seq<bool>, ghost n: nat) returns (s: Regs, done: bool)
    requires n <= |bits| && n == 8 * |r.frame| + 8 && r.cap == CapOf(r.frame) && |r.frame| < r.cap
    requires r.frame + [byte] <= PackBytes(bits)
    ensures done ==> s.frame == Cut(PackBytes(bits))
    ensures !done ==> Holds(s, bits, n)
  {
    var frame, cap;
    frame, cap, done := PushByte(r.frame, r.cap, byte, PackBytes(bits));
    s := Regs(0, 0, frame, cap);
    if !done {
      FreshByte(s, bits, n);
    }
  }

  /** Shift a bit into the registers; `done` once the frame has reached its cap. */
  method TakeBit(r: Regs, bit: bool, ghost bits: seq<bool>, ghost n: nat) returns (s: Regs, done: bool)
    requires Holds(r, bits, n) && n < |bits| && bit == bits[n]
    ensures done ==> s.frame == Cut(PackBytes(bits))
    ensures !done ==> Holds(s, bits, n + 1)
  {
    var byte := PutBit(r.byte, r.bitIdx, bit);
    ByteGrows(r, bits, n);
    if r.bitIdx + 1 < 8 {
      s, done := r.(byte := byte, bitIdx := r.bitIdx + 1), false;
      MoreInByte(r, s, bits, n);
    } else {
      ByteFull(r, byte, bits, n);
      s, done := EndByte(r, byte, bits, n + 1);
    }
  }

  lemma {:induction false} Exhausted(r: Regs, bits: seq<bool>)
    requires Holds(r, bits, |bits|)
    ensures r.frame == Cut(PackBytes(bits))
  {
    assert |r.frame| == |PackBytes(bits)|;
    assert r.frame == PackBytes(bits);
  }

  // ---- The per-sample loop ----

  /** `bit`, if already extracted, is the data bit at edge `tr`. */
  ghost predicate Carries(buf: Bytes, tr: nat, pending: Option<bool>) {
    pending.Some? ==> 1 <= tr <= Ns(buf) && pending.value == Sample(buf, tr - 1)
  }

  /** Stand at edge `tr` having taken n of the bits. */
  ghost predicate At(buf: Bytes, tr: nat, bits: seq<bool>, n: nat) {
    n <= |bits| && TrackedBits(buf, tr) == bits[n..]
  }

  lemma {:induction false} NextBit(buf: Bytes, tr: nat, bits: seq<bool>, n: nat)
    requires At(buf, tr, bits, n)
    ensures tr == 0 || tr > Ns(buf) ==> n == |bits|
    ensures 1 <= tr <= Ns(buf) ==>
              n < |bits| && bits[n] == Sample(buf, tr - 1) && At(buf, TrackTo(buf, tr + 6), bits, n + 1)
  {
    if 1 <= tr <= Ns(buf) {
      var rest := TrackedBits(buf, TrackTo(buf, tr + 6));
      assert TrackedBits(buf, tr)[1..] == rest;
      assert bits[n..][1..] == bits[n + 1..];
    }
  }

  /** The next edge near tr + 6, coasting near the buffer end. */
  method NextEdge(buf: Bytes, tr: nat) returns (next: nat)
    ensures next == TrackTo(buf, tr + 6)
  {
    var nextCenter := tr + 6;
    if nextCenter < 2 || nextCenter + 1 >= Ns(buf) {
      next := nextCenter;
    } else {
      next := FindEdgeW1(buf, nextCenter);
    }
  }

  /** The per-sample loop, from any edge and registers. */
  method SimpleLoop(buf: Bytes, tr0: nat, r0: Regs, pending0: Option<bool>,
                    ghost bits: seq<bool>, ghost n0: nat) returns (frame: Bytes)
    requires At(buf, tr0, bits, n0) && Holds(r0, bits, n0) && Carries(buf, tr0, pending0)
    ensures frame == Cut(PackBytes(bits))
  {
    var tr, r, pending := tr0, r0, pending0;
    ghost var n := n0;
    while true
      invariant At(buf, tr, bits, n) && Holds(r, bits, n) && Carries(buf, tr, pending)
      decreases Ns(buf) + 1 - tr
    {
      NextBit(buf, tr, bits, n);
      if tr == 0 || tr > Ns(buf) {
        break;
      }
      var bit := if pending.Some? then pending.value else Sample(buf, tr - 1);
      pending := None;
      var done;
      r, done := TakeBit(r, bit, bits, n);
      if done {
        return r.frame;
      }
      tr := NextEdge(buf, tr);
      n := n + 1;
    }
    Exhausted(r, bits);
    frame := r.frame;
  }

  // ---- The fast path ----

  /** Branchless edge offset, indexed by three pairwise differences. */
  const EDGE_DELTA: seq<int> := [0, -1, 0, 0, 1, -1, 0, 0]

  function EdgeIndex(w: bv32): (e: nat)
    ensures e < 8
  {
    ((w ^ (w >> 1)) & 7) as nat
  }

  /** The table agrees with the comparisons, whatever the four samples are. */
  lemma TableIsNearestEdge(w: bv32)
    ensures EDGE_DELTA[EdgeIndex(w)]
            == if (w >> 1) & 1 != (w >> 2) & 1 then 0
               else if w & 1 != (w >> 1) & 1 then -1
               else if (w >> 2) & 1 != (w >> 3) & 1 then 1
               else 0
  {
    var e := (w ^ (w >> 1)) & 7;
    assert e == 0 || e == 1 || e == 2 || e == 3 || e == 4 || e == 5 || e == 6 || e == 7;
    assert (e & 1 == 1) <==> w & 1 != (w >> 1) & 1;
    assert (e & 2 == 2) <==> (w >> 1) & 1 != (w >> 2) & 1;
    assert (e & 4 == 4) <==> (w >> 2) & 1 != (w >> 3) & 1;
  }

  lemma BitIsBit(w: bv32)
    ensures w & 1 == 0 || w & 1 == 1
    ensures (w >> 1) & 1 == 0 || (w >> 1) & 1 == 1
    ensures (w >> 2) & 1 == 0 || (w >> 2) & 1 == 1
    ensures (w >> 3) & 1 == 0 || (w >> 3) & 1 == 1
  {
  }

  /** Two-byte window, table lookup, next data bit from the same window. */
  method FastNext(buf: Bytes, tr: nat) returns (next: nat, bit: bool)
    requires 1 <= tr && tr + 20 <= Ns(buf)
    ensures next == TrackTo(buf, tr + 6) && 1 <= next <= Ns(buf)
    ensures bit == Sample(buf, next - 1)
  {
    var lo := tr + 4;
    var w := Pair(buf[lo / 8], buf[lo / 8 + 1], lo % 8);
    PairBits(buf[lo / 8], buf[lo / 8 + 1], lo % 8);
    SampleOffset(buf, lo, 0);
    SampleOffset(buf, lo, 1);
    SampleOffset(buf, lo, 2);
    SampleOffset(buf, lo, 3);
    TableIsNearestEdge(w);
    BitIsBit(w);
    var delta := EDGE_DELTA[EdgeIndex(w)];
    next := tr + 6 + delta;
    bit := (w >> (1 + delta)) & 1 == 1;
    if delta == -1 {
    } else if delta == 0 {
    } else {
    }
  }

  /** The two-byte-window loop; stops near the buffer end, or done. */
  method FastLoop(buf: Bytes, tr0: nat, ghost bits: seq<bool>)
    returns (tr: nat, r: Regs, pending: Option<bool>, done: bool, ghost n: nat)
    requires At(buf, tr0, bits, 0)
    ensures done ==> r.frame == Cut(PackBytes(bits))
    ensures !done ==> At(buf, tr, bits, n) && Holds(r, bits, n) && Carries(buf, tr, pending)
  {
    tr, r, pending, n := tr0, CLEAR, None, 0;
    assert bits[0..0] == [];
    while tr >= 1 && tr + 20 <= Ns(buf)
      invariant At(buf, tr, bits, n) && Holds(r, bits, n) && Carries(buf, tr, pending)
      decreases Ns(buf) - tr
    {
      NextBit(buf, tr, bits, n);
      var bit := if pending.Some? then pending.value else Sample(buf, tr - 1);
      r, done := TakeBit(r, bit, bits, n);
      if done {
        return;
      }
      var next, b := FastNext(buf, tr);
      tr, pending, n := next, Some(b), n + 1;
    }
    done := false;
  }

  // ---- The decoder ----

  method FindF(buf: Bytes) returns (r: Option<nat>)
    requires |buf| > 0
    ensures r == FirstFall(buf, 1)
  {
    var prev := Sample(buf, 0);
    var i := 1;
    while i < Ns(buf)
      invariant 1 <= i <= Ns(buf) && prev == Sample(buf, i - 1)
      invariant FirstFall(buf, i) == FirstFall(buf, 1)
    {
      var s := Sample(buf, i);
      if prev && !s {
        return Some(i);
      }
      prev := s;
      i := i + 1;
    }
    r := None;
  }

  method FindSfd(buf: Bytes, f: nat, max: nat) returns (r: Option<nat>)
    ensures r == SfdEnd(buf, f, max)
  {
    var prev := ReadBit(buf, f, 0);
    if prev.None? {
      return None;
    }
    var k := 1;
    while k < max
      invariant 1 <= k && prev.Some? && prev == ReadBit(buf, f, k - 1)
      invariant FirstPair(buf, f, k, max) == SfdEnd(buf, f, max)
    {
      var c := ReadBit(buf, f, k);
      if c.None? {
        return None;
      }
      if c.value && prev.value {
        return Some(k);
      }
      prev := c;
      k := k + 1;
    }
    r := None;
  }

  /** The anchor: the first data bit's edge. */
  method Lock(buf: Bytes) returns (tr: Option<nat>)
    requires |buf| > 0
    ensures tr == Anchor(buf)
  {
    var f := FindF(buf);
    if f.None? {
      return None;
    }
    var sfd := FindSfd(buf, f.value, 1600);
    if sfd.None? {
      return None;
    }
    var c := f.value + 5 + 6 * (sfd.value + 1);
    tr := Some(if c >= 2 && c + 1 < Ns(buf) then FindEdgeW1(buf, c) else c);
  }

  /** The decoder with the per-sample loop alone. */
  method DecodeSimple(buf: Bytes) returns (r: Option<Bytes>)
    requires |buf| > 0
    ensures r == Decode(buf)
  {
    var tr := Lock(buf);
    if tr.None? {
      return None;
    }
    ghost var bits := TrackedBits(buf, tr.value);
    assert bits[0..0] == [];
    var frame := SimpleLoop(buf, tr.value, CLEAR, None, bits, 0);
    r := Some(frame);
  }

  /** Fast path refines simple path: for every non-empty buffer, the table-driven loop followed by
      the per-sample loop for the last bits returns what the per-sample loop alone returns. */
  method DecodeFrameEdgeTrack(buf: Bytes) returns (r: Option<Bytes>)
    requires |buf| > 0
    ensures r == Decode(buf)
  {
    var anchor := Lock(buf);
    if anchor.None? {
      return None;
    }
    ghost var bits := TrackedBits(buf, anchor.value);
    var tr, regs, pending, done, n := FastLoop(buf, anchor.value, bits);
    if done {
      return Some(regs.frame);
    }
    var frame := SimpleLoop(buf, tr, regs, pending, bits, n);
    r := Some(frame);
  }

  // ---- Bounds ----

  /** Every step advances by 5, 6 or 7 samples, so there is at most one bit per five. */
  lemma {:induction false} TrackedBitsBound(buf: Bytes, tr: nat)
    ensures 5 * |TrackedBits(buf, tr)| <= if 1 <= tr <= Ns(buf) then Ns(buf) - tr + 5 else 0
    decreases Ns(buf) + 1 - tr
  {
    if 1 <= tr <= Ns(buf) {
      TrackedBitsBound(buf, TrackTo(buf, tr + 6));
    }
  }

  lemma {:induction false} DeclaredOfPrefix(bytes: Bytes, kept: Bytes)
    requires kept == bytes[..Declared(bytes)]
    ensures |kept| <= 1600 && Declared(kept) == |kept|
    ensures |kept| >= 18 && kept[12] == 0x08 && kept[13] == 0x00 ==>
              |kept| <= 64 || |kept| <= 14 + 256 * (kept[16] as nat) + (kept[17] as nat) + 4
  {
  }

  /** Whatever the samples are: the decoded length is at most 1600 and at most one byte per eight
      five-sample bits, and a frame that shows EtherType 08 00 is no longer than the larger of 64
      and its total length with header and FCS. */
  lemma {:induction false} DecodedLengthBound(buf: Bytes)
    requires |buf| > 0 && Decode(buf).Some?
    ensures var frame := Decode(buf).value;
            && |frame| <= 1600 && |frame| <= (Ns(buf) / 5 + 1) / 8
            && (|frame| >= 18 && frame[12] == 0x08 && frame[13] == 0x00 ==>
                  |frame| <= 64 || |frame| <= 14 + 256 * (frame[16] as nat) + (frame[17] as nat) + 4)
  {
    var bytes := PackBytes(TrackedBits(buf, Anchor(buf).value));
    CutIsDeclared(bytes);
    DeclaredOfPrefix(bytes, Cut(bytes));
    var f := FirstFall(buf, 1).value;
    var tr := TrackTo(buf, f + 5 + 6 * (SfdEnd(buf, f, 1600).value + 1));
    TrackedBitsBound(buf, tr);
  }
}
