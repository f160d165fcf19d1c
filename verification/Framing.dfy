/** What the transmitter puts on the wire, and what the receiver makes of the bytes. */
module Framing {
  import opened Wire
  import opened Samples
  import opened Crc
  import opened Manchester
  import D = Dpll

  const PREAMBLE: Bytes := [0x55, 0x55, 0x55, 0x55, 0x55, 0x55, 0x55, 0xD5]

  const TP_IDL: bv32 := 0x0000_0AAA

  /** Zero padding to the 60-byte minimum. */
  function PadLen(body: Bytes): nat { if |body| < 60 then 60 - |body| else 0 }

  ghost function Padded(body: Bytes): (p: Bytes)
    ensures |p| >= 60
  {
    body + Zeros(PadLen(body))
  }

  /** The frame from destination address to FCS. */
  ghost function WireFrame(body: Bytes): (f: Bytes)
    ensures |f| == |Padded(body)| + 4
  {
    Padded(body) + LeBytes(Crc32(Padded(body)), 4)
  }

  ghost function Words(bytes: Bytes): (r: seq<bv32>)
    ensures |r| == |bytes|
    decreases |bytes|
  {
    if bytes == [] then [] else [TableWord(bytes[0])] + Words(bytes[1..])
  }

  ghost function IdleWords(n: nat): (r: seq<bv32>)
    ensures |r| == n
  {
    if n == 0 then [] else IdleWords(n - 1) + [0]
  }

  lemma {:induction false} WordsConcat(a: Bytes, b: Bytes)
    ensures Words(a + b) == Words(a) + Words(b)
    decreases |a|
  {
    if a == [] {
      assert a + b == b;
    } else {
      assert (a + b)[1..] == a[1..] + b;
      WordsConcat(a[1..], b);
    }
  }

  lemma {:induction false} WordsAppend(a: Bytes, b: bv8)
    ensures Words(a + [b]) == Words(a) + [TableWord(b)]
  {
    WordsConcat(a, [b]);
    assert [b][1..] == [];
  }

  lemma ZerosAppend(n: nat)
    ensures Zeros(n + 1) == Zeros(n) + [0]
  {
  }

  /** Emit the words of these bytes after `words`. */
  method EmitBytes(words: seq<bv32>, bytes: Bytes) returns (out: seq<bv32>)
    ensures out == words + Words(bytes)
  {
    out := words;
    for i := 0 to |bytes|
      invariant out == words + Words(bytes[..i])
    {
      assert bytes[..i + 1] == bytes[..i] + [bytes[i]];
      WordsAppend(bytes[..i], bytes[i]);
      out := out + [TableWord(bytes[i])];
    }
    assert bytes[..|bytes|] == bytes;
  }

  method FrameCrc(body: Bytes, padLen: nat) returns (crc: bv32)
    requires padLen == PadLen(body)
    ensures crc == Crc32(Padded(body))
  {
    if padLen == 0 {
      assert body + Zeros(0) == body;
      crc := Crc32Loop(body);
    } else {
      crc := Crc32Padded(body, padLen);
    }
  }

  lemma SeqAssoc<T>(a: seq<T>, b: seq<T>, c: seq<T>, d: seq<T>)
    ensures a + b + c + d == a + ((b + c) + d)
  {
  }

  lemma {:induction false} WordsOfFrame(body: Bytes, fcs: Bytes)
    requires fcs == LeBytes(Crc32(Padded(body)), 4)
    ensures Words(PREAMBLE) + Words(body) + Words(Zeros(PadLen(body))) + Words(fcs)
            == Words(PREAMBLE + WireFrame(body))
  {
    var z := Zeros(PadLen(body));
    WordsConcat(body, z);
    WordsConcat(Padded(body), fcs);
    WordsConcat(PREAMBLE, WireFrame(body));
    SeqAssoc(Words(PREAMBLE), Words(body), Words(z), Words(fcs));
  }

  method EmitPreamble() returns (words: seq<bv32>)
    ensures words == Words(PREAMBLE)
  {
    words := [];
    for i := 0 to 7
      invariant words == Words(PREAMBLE[..i])
    {
      assert PREAMBLE[..i + 1] == PREAMBLE[..i] + [0x55];
      WordsAppend(PREAMBLE[..i], 0x55);
      words := words + [TableWord(0x55)];
    }
    assert PREAMBLE == PREAMBLE[..7] + [0xD5];
    WordsAppend(PREAMBLE[..7], 0xD5);
    words := words + [TableWord(0xD5)];
  }

  method EmitPadding(words: seq<bv32>, n: nat) returns (out: seq<bv32>)
    ensures out == words + Words(Zeros(n))
  {
    out := words;
    for i := 0 to n
      invariant out == words + Words(Zeros(i))
    {
      ZerosAppend(i);
      WordsAppend(Zeros(i), 0);
      out := out + [TableWord(0x00)];
    }
  }

  method EmitIdle(words: seq<bv32>, n: nat) returns (out: seq<bv32>)
    ensures out == words + IdleWords(n)
  {
    out := words;
    for i := 0 to n
      invariant out == words + IdleWords(i)
    {
      out := out + [0];
    }
  }

  /** Preamble and SFD, the frame, TP_IDL and the interframe gap. */
  ghost function Emitted(body: Bytes): seq<bv32> {
    Words(PREAMBLE + WireFrame(body)) + [TP_IDL] + IdleWords(12)
  }

  /** `send_raw_frame`: the sequence of words written to the transmit FIFO. */
  method SendRawFrame(body: Bytes) returns (words: seq<bv32>)
    ensures words == Emitted(body)
  {
    var padLen := if |body| < 60 then 60 - |body| else 0;
    var crc := FrameCrc(body, padLen);
    var crcBytes := LeBytes(crc, 4);
    words := EmitPreamble();
    words := EmitBytes(words, body);
    words := EmitPadding(words, padLen);
    words := EmitBytes(words, crcBytes);
    WordsOfFrame(body, crcBytes);
    words := EmitIdle(words + [TP_IDL], 12);
  }

  // ---- The receiver's view of the bytes ----

  /** How long the frame says it is: for IPv4 what its total-length field gives with header and FCS,
      at least 64; for ARP 64; all that was received where that is less or the type another. */
  function DeriveFrameLen(frame: Bytes): (n: nat)
    ensures n <= |frame|
  {
    if |frame| < 18 then |frame|
    else if D.Be(frame[12], frame[13]) == 0x0800 then
      var computed := Max(14 + D.Be(frame[16], frame[17]) + 4, 64);
      if computed <= |frame| then computed else |frame|
    else if D.Be(frame[12], frame[13]) == 0x0806 && |frame| >= 64 then 64
    else |frame|
  }

  /** Truncate to the derived length and check the FCS: the frame published, if any. */
  function Accept(frame: Bytes): Option<Bytes> {
    var n := DeriveFrameLen(frame);
    if VerifyFcs(frame, n) then Some(frame[..n]) else None
  }

  function EtherType(p: Bytes): nat
    requires |p| >= 14
  {
    D.Be(p[12], p[13])
  }

  /** The length its header implies is not shorter than the frame: an IPv4 total length that
      covers the body, an ARP body of at most 60 bytes, or any other EtherType. */
  ghost predicate Consistent(body: Bytes) {
    var p := Padded(body);
    && (EtherType(p) == 0x0800 ==> |p| == 60 || 14 + D.Be(p[16], p[17]) >= |p|)
    && (EtherType(p) == 0x0806 ==> |p| == 60)
  }

  lemma HeaderOfWire(body: Bytes)
    ensures var p, f := Padded(body), WireFrame(body);
            f[12] == p[12] && f[13] == p[13] && f[16] == p[16] && f[17] == p[17]
  {
  }

  /** End-to-end framing. Every emitted frame passes the FCS check at its full length, and the
      derived length is the full length exactly when the header is consistent. */
  lemma {:induction false} FramingRoundTrip(body: Bytes)
    ensures var f := WireFrame(body);
            && VerifyFcs(f, |f|)
            && (DeriveFrameLen(f) == |f| <==> Consistent(body))
  {
    HeaderOfWire(body);
    OwnFcsAccepted(Padded(body), LeBytes(Crc32(Padded(body)), 4));
  }

  /** A consistent frame is published whole, and the decoder's length cap does not shorten it. */
  lemma {:induction false} ConsistentFrameAccepted(body: Bytes)
    requires Consistent(body)
    ensures Accept(WireFrame(body)) == Some(WireFrame(body))
    ensures |WireFrame(body)| <= 1600 ==> D.Declared(WireFrame(body)) == |WireFrame(body)|
  {
    FramingRoundTrip(body);
    HeaderOfWire(body);
    var f := WireFrame(body);
    assert f[..|f|] == f;
  }

  /** What comes after a frame in its run does not hurt where the header says how long it is: ARP in
      a minimal frame, or IPv4 whose total length is that of the body before padding. */
  ghost predicate SaysItsLength(body: Bytes) {
    |body| >= 18 && body[12] == 0x08
    && ((body[13] == 0x06 && |body| <= 60)
        || (body[13] == 0x00 && var total := 256 * (body[16] as nat) + (body[17] as nat);
            14 + total == |body| || (14 + total <= 60 && |body| <= 60)))
  }

  lemma {:induction false} LengthSaid(body: Bytes, junk: Bytes)
    requires SaysItsLength(body)
    ensures DeriveFrameLen(WireFrame(body) + junk) == |WireFrame(body)|
  {
    var p := Padded(body);
    assert p[12] == body[12] && p[13] == body[13] && p[16] == body[16] && p[17] == body[17];
  }

  lemma {:induction false} CheckLooksNoFurther(f: Bytes, junk: Bytes, n: nat, m: nat)
    requires 18 <= n == |f| && m == n - 4
    ensures VerifyFcs(f + junk, n) <==> VerifyFcs(f, n)
  {
    assert (f + junk)[..m] == f[..m] && (f + junk)[m..n] == f[m..n];
  }

  lemma {:induction false} JunkIsDropped(body: Bytes, junk: Bytes)
    requires SaysItsLength(body)
    ensures Accept(WireFrame(body) + junk) == Some(WireFrame(body))
  {
    var f := WireFrame(body);
    LengthSaid(body, junk);
    FramingRoundTrip(body);
    CheckLooksNoFurther(f, junk, |f|, |f| - 4);
    assert (f + junk)[..|f|] == f;
  }

  // ---- Bits on the line ----

  ghost function LineHalves(words: seq<bv32>): (r: seq<bool>)
    ensures |r| == 16 * |words|
    decreases |words|
  {
    if words == [] then [] else Halves(words[0], 16) + LineHalves(words[1..])
  }

  lemma {:induction false} ManchesterConcat(a: seq<bool>, b: seq<bool>)
    ensures Coded(a + b) == Coded(a) + Coded(b)
    decreases |a|
  {
    if a == [] {
      assert a + b == b;
    } else {
      assert (a + b)[1..] == a[1..] + b;
      ManchesterConcat(a[1..], b);
    }
  }

  /** The emitted words, as received, are the Manchester code of the bytes' bits. */
  lemma {:induction false} WordsAreManchester(bytes: Bytes)
    ensures LineHalves(Words(bytes)) == Coded(BitsOfBytes(bytes))
    decreases |bytes|
  {
    if bytes != [] {
      TableIsManchester(bytes[0]);
      WordsAreManchester(bytes[1..]);
      ManchesterConcat(BitsOfByte(bytes[0]), BitsOfBytes(bytes[1..]));
      assert Words(bytes)[1..] == Words(bytes[1..]);
    }
  }
}
