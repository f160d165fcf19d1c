/** Single samples, packed eight to a byte, least significant bit first. */
module Samples {
  import opened Wire

  function Ns(buf: Bytes): nat { 8 * |buf| }

  /** Bit k of a byte: `(b >> k) & 1`, one place at a time. */
  predicate BitOf(b: bv8, k: nat)
    requires k < 8
    decreases k
  {
    if k == 0 then b & 1 == 1 else BitOf(b >> 1, k - 1)
  }

  /** Sample `off` of the buffer. */
  predicate Sample(buf: Bytes, off: nat)
    requires off < Ns(buf)
  {
    BitOf(buf[off / 8], off % 8)
  }

  lemma {:induction false} ShiftTwice(b: bv8, k: nat)
    requires 1 <= k < 8
    ensures (b >> 1) >> (k - 1) == b >> k
  {
    if k == 1 {
    } else if k == 2 {
    } else if k == 3 {
    } else if k == 4 {
    } else if k == 5 {
    } else if k == 6 {
    } else {
    }
  }

  lemma {:induction false} BitsDown(b: bv8, k: nat)
    requires k < 8
    ensures BitOf(b, k) <==> (b >> k) & 1 == 1
    decreases k
  {
    if k > 0 {
      BitsDown(b >> 1, k - 1);
      ShiftTwice(b, k);
    }
  }

  lemma BitsOf(b: bv8)
    ensures BitOf(b, 0) <==> b & 1 == 1
    ensures BitOf(b, 1) <==> (b >> 1) & 1 == 1
    ensures BitOf(b, 2) <==> (b >> 2) & 1 == 1
    ensures BitOf(b, 3) <==> (b >> 3) & 1 == 1
    ensures BitOf(b, 4) <==> (b >> 4) & 1 == 1
    ensures BitOf(b, 5) <==> (b >> 5) & 1 == 1
    ensures BitOf(b, 6) <==> (b >> 6) & 1 == 1
    ensures BitOf(b, 7) <==> (b >> 7) & 1 == 1
  {
    if BitOf(b, 0) {}
    BitsDown(b, 1);
    BitsDown(b, 2);
    BitsDown(b, 3);
    BitsDown(b, 4);
    BitsDown(b, 5);
    BitsDown(b, 6);
    BitsDown(b, 7);
  }

  /** Two neighbouring bytes as one word, shifted so that bit 0 is bit k of the first. */
  function Pair(b0: bv8, b1: bv8, k: nat): bv32
    requires k < 8
  {
    ((b0 as bv32) | ((b1 as bv32) << 8)) >> k
  }

  /** Bit k+j of the two bytes laid end to end. */
  predicate PairBit(b0: bv8, b1: bv8, k: nat, j: nat)
    requires k < 8 && j < 8
  {
    if k + j < 8 then BitOf(b0, k + j) else BitOf(b1, k + j - 8)
  }

  /** Bits 0..3 of a shifted byte pair are four consecutive bits. */
  lemma {:induction false} PairBits(b0: bv8, b1: bv8, k: nat)
    requires k < 8
    ensures var w := Pair(b0, b1, k);
            && (w & 1 == 1 <==> PairBit(b0, b1, k, 0))
            && ((w >> 1) & 1 == 1 <==> PairBit(b0, b1, k, 1))
            && ((w >> 2) & 1 == 1 <==> PairBit(b0, b1, k, 2))
            && ((w >> 3) & 1 == 1 <==> PairBit(b0, b1, k, 3))
  {
    BitsOf(b0);
    BitsOf(b1);
    if k == 0 {
    } else if k == 1 {
    } else if k == 2 {
    } else if k == 3 {
    } else if k == 4 {
    } else if k == 5 {
    } else if k == 6 {
    } else {
    }
  }

  lemma Offset(lo: nat, j: nat)
    requires j < 8
    ensures (lo + j) / 8 == (if lo % 8 + j < 8 then lo / 8 else lo / 8 + 1)
    ensures (lo + j) % 8 == (if lo % 8 + j < 8 then lo % 8 + j else lo % 8 + j - 8)
  {
  }

  lemma {:induction false} SampleOffset(buf: Bytes, lo: nat, j: nat)
    requires lo / 8 + 1 < |buf| && j < 8
    ensures lo + j < Ns(buf)
    ensures Sample(buf, lo + j) == PairBit(buf[lo / 8], buf[lo / 8 + 1], lo % 8, j)
  {
    Offset(lo, j);
  }

  // ---- Bits to bytes and back ----

  function Mask(k: nat): bv8
    requires k < 8
    decreases k
  {
    if k == 0 then 1 else Mask(k - 1) << 1
  }

  /** `byte |= bit << k`. */
  function PutBit(byte: bv8, k: nat, bit: bool): bv8
    requires k < 8
  {
    if bit then byte | Mask(k) else byte
  }

  /** Up to eight bits, least significant first. */
  function PackByte(bits: seq<bool>): bv8
    requires |bits| <= 8
    decreases |bits|
  {
    if bits == [] then 0
    else PutBit(PackByte(bits[..|bits| - 1]), |bits| - 1, bits[|bits| - 1])
  }

  /** Whole bytes only; up to seven bits at the end are left over. */
  function PackBytes(bits: seq<bool>): (r: Bytes)
    ensures |r| == |bits| / 8
    decreases |bits|
  {
    if |bits| < 8 then [] else [PackByte(bits[..8])] + PackBytes(bits[8..])
  }

  lemma {:induction false} PackBytesAt(bits: seq<bool>, i: nat)
    requires i < |bits| / 8
    ensures PackBytes(bits)[i] == PackByte(bits[8 * i..8 * i + 8])
    decreases i
  {
    if i == 0 {
      assert bits[0..8] == bits[..8];
    } else {
      PackBytesAt(bits[8..], i - 1);
      assert bits[8..][8 * (i - 1)..8 * (i - 1) + 8] == bits[8 * i..8 * i + 8];
    }
  }

  /** More bits only add bytes. */
  lemma {:induction false} PackBytesPrefix(a: seq<bool>, b: seq<bool>)
    requires a <= b
    ensures PackBytes(a) <= PackBytes(b)
  {
    forall i | 0 <= i < |a| / 8
      ensures PackBytes(a)[i] == PackBytes(b)[i]
    {
      PackBytesAt(a, i);
      PackBytesAt(b, i);
      assert a[8 * i..8 * i + 8] == b[8 * i..8 * i + 8];
    }
  }

  lemma {:induction false} PackStep(s: seq<bool>, k: nat)
    requires k < |s| <= 8
    ensures PackByte(s[..k + 1]) == PutBit(PackByte(s[..k]), k, s[k])
  {
    assert s[..k + 1][..k] == s[..k];
  }

  lemma {:induction false} PackEight(s: seq<bool>)
    requires |s| == 8
    ensures PackByte(s)
            == PutBit(PutBit(PutBit(PutBit(PutBit(PutBit(PutBit(PutBit(0, 0, s[0]), 1, s[1]), 2, s[2]),
                 3, s[3]), 4, s[4]), 5, s[5]), 6, s[6]), 7, s[7])
  {
    PackStep(s, 0);
    PackStep(s, 1);
    PackStep(s, 2);
    PackStep(s, 3);
    PackStep(s, 4);
    PackStep(s, 5);
    PackStep(s, 6);
    PackStep(s, 7);
    assert s[..8] == s && s[..0] == [];
  }

  /** The n low bits of a byte, lowest first. */
  ghost function ByteBits(b: bv8, n: nat): (r: seq<bool>)
    ensures |r| == n
    decreases n
  {
    if n == 0 then [] else [b & 1 == 1] + ByteBits(b >> 1, n - 1)
  }

  ghost function BitsOfByte(b: bv8): (bits: seq<bool>)
    ensures |bits| == 8
  {
    ByteBits(b, 8)
  }

  lemma Masks()
    ensures Mask(0) == 1 && Mask(1) == 2 && Mask(2) == 4 && Mask(3) == 8
    ensures Mask(4) == 16 && Mask(5) == 32 && Mask(6) == 64 && Mask(7) == 128
  {
    assert Mask(2) == Mask(1) << 1;
    assert Mask(4) == Mask(3) << 1;
    assert Mask(6) == Mask(5) << 1;
  }

  lemma {:induction false} BitsOfPacked(s: seq<bool>)
    requires |s| == 8
    ensures forall k :: 0 <= k < 8 ==> BitOf(PackByte(s), k) == s[k]
  {
    PackEight(s);
    Masks();
    BitsOf(PackByte(s));
  }

  lemma {:induction false} ByteBitsAt(b: bv8, n: nat, k: nat)
    requires k < n <= 8
    ensures ByteBits(b, n)[k] == BitOf(b, k)
    decreases k
  {
    if k > 0 {
      ByteBitsAt(b >> 1, n - 1, k - 1);
    }
  }

  lemma BitsOfByteAt(b: bv8)
    ensures forall k :: 0 <= k < 8 ==> BitsOfByte(b)[k] == BitOf(b, k)
  {
    forall k | 0 <= k < 8
      ensures BitsOfByte(b)[k] == BitOf(b, k)
    {
      ByteBitsAt(b, 8, k);
    }
  }

  lemma {:induction false} UnpackByte(s: seq<bool>)
    requires |s| == 8
    ensures BitsOfByte(PackByte(s)) == s
  {
    BitsOfPacked(s);
    BitsOfByteAt(PackByte(s));
  }

  ghost function BitsOfBytes(bytes: Bytes): (bits: seq<bool>)
    ensures |bits| == 8 * |bytes|
  {
    if bytes == [] then [] else BitsOfByte(bytes[0]) + BitsOfBytes(bytes[1..])
  }

  lemma {:induction false} UnpackBytes(s: seq<bool>)
    requires |s| % 8 == 0
    ensures BitsOfBytes(PackBytes(s)) == s
    decreases |s|
  {
    if s != [] {
      UnpackByte(s[..8]);
      UnpackBytes(s[8..]);
      assert s == s[..8] + s[8..];
      assert PackBytes(s)[1..] == PackBytes(s[8..]);
    }
  }

  lemma PackInverts(b: bv8)
    ensures PackByte(BitsOfByte(b)) == b
  {
    PackEight(BitsOfByte(b));
    BitsOfByteAt(b);
    BitsOf(b);
    Masks();
  }

  lemma {:induction false} PackHead(head: seq<bool>, rest: seq<bool>)
    requires |head| == 8
    ensures PackBytes(head + rest) == [PackByte(head)] + PackBytes(rest)
  {
    assert (head + rest)[..8] == head && (head + rest)[8..] == rest;
  }

  lemma {:induction false} PackFirst(b: bv8, rest: seq<bool>)
    ensures PackBytes(BitsOfByte(b) + rest) == [b] + PackBytes(rest)
  {
    PackHead(BitsOfByte(b), rest);
    PackInverts(b);
  }

  lemma {:induction false} BitsFirst(bytes: Bytes, extra: seq<bool>)
    requires bytes != []
    ensures BitsOfBytes(bytes) + extra == BitsOfByte(bytes[0]) + (BitsOfBytes(bytes[1..]) + extra)
  {
  }

  lemma {:induction false} PackBytesInverts(bytes: Bytes, extra: seq<bool>)
    requires |extra| < 8
    ensures PackBytes(BitsOfBytes(bytes) + extra) == bytes
  {
    if bytes != [] {
      BitsFirst(bytes, extra);
      PackFirst(bytes[0], BitsOfBytes(bytes[1..]) + extra);
      PackBytesInverts(bytes[1..], extra);
      assert bytes == [bytes[0]] + bytes[1..];
    }
  }

  lemma {:induction false} SampleWithoutFirst(bytes: Bytes, i: nat)
    requires 8 <= i < Ns(bytes)
    ensures Sample(bytes[1..], i - 8) == Sample(bytes, i)
  {
    assert (i - 8) / 8 == i / 8 - 1 && (i - 8) % 8 == i % 8;
  }

  /** The bits of a buffer are its samples. */
  lemma {:induction false} BitsOfBytesAt(bytes: Bytes, i: nat)
    requires i < Ns(bytes)
    ensures BitsOfBytes(bytes)[i] == Sample(bytes, i)
    decreases i
  {
    if i < 8 {
      BitsOfByteAt(bytes[0]);
    } else {
      SampleWithoutFirst(bytes, i);
      BitsOfBytesAt(bytes[1..], i - 8);
    }
  }

  lemma {:induction false} BitsOfBytesConcat(a: Bytes, b: Bytes)
    ensures BitsOfBytes(a + b) == BitsOfBytes(a) + BitsOfBytes(b)
    decreases |a|
  {
    if a == [] {
      assert a + b == b;
    } else {
      assert (a + b)[1..] == a[1..] + b;
      BitsOfBytesConcat(a[1..], b);
    }
  }
}
