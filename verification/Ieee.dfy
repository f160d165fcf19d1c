/** The frame check sequence as IEEE 802.3 clause 3.2.9 defines it: polynomial division over GF(2)
    on bit strings, the coefficient of the highest power first, which is wire order. */
module Ieee {
  import opened Wire
  import opened Samples
  import opened Crc
  import F = Framing

  // ---- Polynomials over GF(2) ----

  /** The exponents of the generator polynomial G(x). */
  const GENERATOR: set<int> := {32, 26, 23, 22, 16, 12, 11, 10, 8, 7, 5, 4, 2, 1, 0}

  /** n zero coefficients. */
  ghost function Nothing(n: nat): (r: seq<bool>)
    ensures |r| == n && forall i :: 0 <= i < n ==> !r[i]
  {
    if n == 0 then [] else [false] + Nothing(n - 1)
  }

  /** Sum of two polynomials with as many coefficients. */
  ghost function Plus(a: seq<bool>, b: seq<bool>): (r: seq<bool>)
    requires |a| == |b|
    ensures |r| == |a| && forall i :: 0 <= i < |a| ==> r[i] == (a[i] != b[i])
  {
    if a == [] then [] else [a[0] != b[0]] + Plus(a[1..], b[1..])
  }

  ghost function Complement(a: seq<bool>): (r: seq<bool>)
    ensures |r| == |a| && forall i :: 0 <= i < |a| ==> r[i] == !a[i]
  {
    if a == [] then [] else [!a[0]] + Complement(a[1..])
  }

  /** The n+1 highest coefficients of x^(n-32) G(x), n being at least 32. */
  ghost function Generator(n: nat): (r: seq<bool>)
    requires n >= 32
    ensures |r| == n + 1 && forall i :: 0 <= i <= n ==> r[i] == (i <= 32 && 32 - i in GENERATOR)
  {
    if n > 32 then Generator(n - 1) + [false]
    else seq(33, i requires 0 <= i < 33 => 32 - i in GENERATOR)
  }

  /** The product q(x) G(x). */
  ghost function TimesG(q: seq<bool>): (r: seq<bool>)
    ensures |r| == |q| + 32
  {
    if q == [] then Nothing(32)
    else
      var rest := [false] + TimesG(q[1..]);
      if q[0] then Plus(Generator(|q| + 31), rest) else rest
  }

  /** m(x) = q(x) G(x) + r(x), where r has degree at most 31. */
  ghost predicate Division(m: seq<bool>, q: seq<bool>, r: seq<bool>) {
    |r| == 32 && |m| == |q| + 32 && m == Plus(TimesG(q), Nothing(|q|) + r)
  }

  lemma {:induction false} TimesGLeads(q: seq<bool>)
    requires q != []
    ensures TimesG(q)[0] == q[0]
  {
  }

  /** One step of long division. */
  ghost function Reduce(m: seq<bool>): (r: seq<bool>)
    requires |m| >= 33
    ensures |r| == |m| - 1
  {
    if m[0] then Plus(m, Generator(|m| - 1))[1..] else m[1..]
  }

  /** The remainder on division by G. */
  ghost function Remainder(m: seq<bool>): (r: seq<bool>)
    requires |m| >= 32
    ensures |r| == 32
    decreases |m|
  {
    if |m| == 32 then m else Remainder(Reduce(m))
  }

  lemma {:induction false} DivisionStep(m: seq<bool>, q: seq<bool>, r: seq<bool>)
    requires |m| >= 33 && Division(Reduce(m), q, r)
    ensures Division(m, [m[0]] + q, r)
  {
    var all := [m[0]] + q;
    assert all[1..] == q;
    var sum := Plus(TimesG(all), Nothing(|all|) + r);
    forall i | 0 <= i < |m|
      ensures m[i] == sum[i]
    {
      if i > 0 {
        assert Reduce(m)[i - 1] == (TimesG(q)[i - 1] != (Nothing(|q|) + r)[i - 1]);
      }
    }
  }

  /** Long division finds a quotient and a remainder. */
  lemma {:induction false} RemainderDivides(m: seq<bool>) returns (q: seq<bool>)
    requires |m| >= 32
    ensures Division(m, q, Remainder(m))
    decreases |m|
  {
    if |m| == 32 {
      q := [];
      assert m == Plus(Nothing(32), m);
      assert Nothing(0) + m == m;
    } else {
      q := RemainderDivides(Reduce(m));
      DivisionStep(m, q, Remainder(m));
      q := [m[0]] + q;
    }
  }

  lemma {:induction false} DivisionHead(m: seq<bool>, q: seq<bool>, r: seq<bool>)
    requires q != [] && Division(m, q, r)
    ensures q[0] == m[0] && Division(Reduce(m), q[1..], r)
  {
    TimesGLeads(q);
    var sum := Plus(TimesG(q[1..]), Nothing(|q| - 1) + r);
    forall i | 0 <= i < |m| - 1
      ensures Reduce(m)[i] == sum[i]
    {
      assert m[i + 1] == (TimesG(q)[i + 1] != (Nothing(|q|) + r)[i + 1]);
    }
  }

  /** They are the only ones. */
  lemma {:induction false} RemainderIsUnique(m: seq<bool>, q: seq<bool>, r: seq<bool>)
    requires Division(m, q, r)
    ensures r == Remainder(m)
    decreases |q|
  {
    if q == [] {
      assert m == Plus(Nothing(32), Nothing(0) + r);
      assert m == r;
    } else {
      DivisionHead(m, q, r);
      RemainderIsUnique(Reduce(m), q[1..], r);
    }
  }

  // ---- The shift register divides ----

  lemma XorBit(x: bv32, a: bv32, b: bv32)
    requires x == a ^ b
    ensures (x & 1 == 1) == ((a & 1 == 1) != (b & 1 == 1)) && x >> 1 == (a >> 1) ^ (b >> 1)
  {
  }

  lemma {:induction false} PlusHead(p: bool, a: seq<bool>, q: bool, b: seq<bool>)
    requires |a| == |b|
    ensures Plus([p] + a, [q] + b) == [p != q] + Plus(a, b)
  {
    assert ([p] + a)[1..] == a && ([q] + b)[1..] == b;
  }

  lemma {:induction false} WordHead(w: bv32, n: nat, k: nat, x: bool, rest: seq<bool>)
    requires n == k + 1 && x == (w & 1 == 1) && rest == WordBits(w >> 1, k)
    ensures WordBits(w, n) == [x] + rest
  {
  }

  /** Bit by bit, n bits far, x is the exclusive or of a and b. */
  ghost predicate Xored(x: bv32, a: bv32, b: bv32, n: nat)
    decreases n
  {
    n == 0 || ((x & 1 == 1) == ((a & 1 == 1) != (b & 1 == 1)) && Xored(x >> 1, a >> 1, b >> 1, n - 1))
  }

  lemma {:induction false} XorIsXored(x: bv32, a: bv32, b: bv32, n: nat)
    requires x == a ^ b
    ensures Xored(x, a, b, n)
    decreases n
  {
    if n > 0 {
      XorBit(x, a, b);
      XorIsXored(x >> 1, a >> 1, b >> 1, n - 1);
    }
  }

  lemma {:induction false} XoredBits(x: bv32, a: bv32, b: bv32, n: nat)
    requires Xored(x, a, b, n)
    ensures WordBits(x, n) == Plus(WordBits(a, n), WordBits(b, n))
    decreases n
  {
    if n > 0 {
      var k, p, q := n - 1, a & 1 == 1, b & 1 == 1;
      var u, v := WordBits(a >> 1, k), WordBits(b >> 1, k);
      XoredBits(x >> 1, a >> 1, b >> 1, k);
      WordHead(a, n, k, p, u);
      WordHead(b, n, k, q, v);
      WordHead(x, n, k, p != q, Plus(u, v));
      PlusHead(p, u, q, v);
    }
  }

  lemma {:induction false} XorBits(x: bv32, a: bv32, b: bv32, n: nat)
    requires x == a ^ b
    ensures WordBits(x, n) == Plus(WordBits(a, n), WordBits(b, n))
  {
    XorIsXored(x, a, b, n);
    XoredBits(x, a, b, n);
  }

  lemma {:induction false} FitsIsLe(w: bv32, n: nat)
    requires FitsBytes(w, n)
    ensures IsLe(w, LeBytes(w, n))
    decreases n
  {
    if n > 0 {
      FitsIsLe(w >> 8, n - 1);
      assert LeBytes(w, n)[1..] == LeBytes(w >> 8, n - 1);
    }
  }

  /** The bits of a register, lowest first, are those of its bytes sent low byte first. */
  lemma {:induction false} RegisterBits(w: bv32)
    ensures WordBits(w, 32) == BitsOfBytes(LeBytes(w, 4)) && Drop(w, 32) == 0
  {
    FourFit(w);
    FitsIsLe(w, 4);
    LeBits(w, LeBytes(w, 4));
  }

  ghost predicate AllTrue(a: seq<bool>) { forall i :: 0 <= i < |a| ==> a[i] }

  ghost predicate OnesIn(w: bv32, n: nat)
    decreases n
  {
    n == 0 || (w & 1 == 1 && OnesIn(w >> 1, n - 1))
  }

  lemma {:induction false} OnesAreTrue(w: bv32, n: nat)
    requires OnesIn(w, n)
    ensures AllTrue(WordBits(w, n))
    decreases n
  {
    if n > 0 {
      OnesAreTrue(w >> 1, n - 1);
    }
  }

  lemma {:induction false} OnesWord()
    ensures AllTrue(WordBits(0xFFFF_FFFF, 32))
  {
    assert OnesIn(0x7, 3);
    assert OnesIn(0x3F, 6);
    assert OnesIn(0x1FF, 9);
    assert OnesIn(0xFFF, 12);
    assert OnesIn(0x7FFF, 15);
    assert OnesIn(0x3FFFF, 18);
    assert OnesIn(0x1FFFFF, 21);
    assert OnesIn(0xFFFFFF, 24);
    assert OnesIn(0x7FFFFFF, 27);
    assert OnesIn(0x3FFFFFFF, 30);
    OnesAreTrue(0xFFFF_FFFF, 32);
  }

  /** Shifting a register down multiplies by x. */
  lemma {:induction false} HalfBits(c: bv32)
    ensures WordBits(c >> 1, 32) == WordBits(c, 32)[1..] + [false]
  {
    SplitBits(c >> 1, 31, 1);
    SplitBits(c, 1, 31);
    RegisterBits(c);
    assert Drop(c, 32) == Drop(c >> 1, 31);
    assert WordBits(0, 1) == [false];
  }

  /** The n low bits of w are the coefficients of G from x^high down. */
  ghost predicate Coefficients(w: bv32, high: int, n: nat)
    decreases n
  {
    n == 0 || ((w & 1 == 1) == (high in GENERATOR) && Coefficients(w >> 1, high - 1, n - 1))
  }

  lemma {:induction false} CoefficientsAre(w: bv32, high: int, n: nat)
    requires Coefficients(w, high, n)
    ensures forall i :: 0 <= i < n ==> WordBits(w, n)[i] == (high - i in GENERATOR)
    decreases n
  {
    if n > 0 {
      CoefficientsAre(w >> 1, high - 1, n - 1);
      forall i | 0 <= i < n
        ensures WordBits(w, n)[i] == (high - i in GENERATOR)
      {
        assert i > 0 ==> WordBits(w, n)[i] == WordBits(w >> 1, n - 1)[i - 1];
      }
    }
  }

  lemma HighCoefficients()
    ensures Coefficients(0xEDB8, 15, 16)
  {
    assert Coefficients(0xE, 3, 4);
    assert Coefficients(0xED, 7, 8);
    assert Coefficients(0xEDB, 11, 12);
  }

  lemma RegisterCoefficients()
    ensures Coefficients(0xEDB8_8320, 31, 32)
  {
    HighCoefficients();
    assert Coefficients(0xEDB88, 19, 20);
    assert Coefficients(0xEDB883, 23, 24);
    assert Coefficients(0xEDB8832, 27, 28);
  }

  /** The register's constant is G without its leading term. */
  lemma {:induction false} GeneratorWord(g: seq<bool>, w: bv32, n: nat)
    requires n == 32 && g == Generator(n) && w == 0xEDB8_8320
    ensures g[0] && WordBits(w, n) == g[1..]
  {
    RegisterCoefficients();
    CoefficientsAre(w, 31, n);
    assert 32 in GENERATOR;
  }

  // ---- The register is the remainder ----

  /** The first 32 coefficients complemented. */
  ghost function FirstComplemented(m: seq<bool>): (r: seq<bool>)
    requires |m| >= 32
    ensures |r| == |m|
  {
    Complement(m[..32]) + m[32..]
  }

  /** The word's bits added to the first 32 coefficients. */
  ghost function AddedInFront(m: seq<bool>, c: bv32): (r: seq<bool>)
    requires |m| >= 32
    ensures |r| == |m|
  {
    Plus(m[..32], WordBits(c, 32)) + m[32..]
  }

  lemma FeedStepIsXor(c: bv32, x: bool)
    ensures ((c & 1 == 1) != x) ==> FeedStep(c, x) == (c >> 1) ^ 0xEDB8_8320
    ensures ((c & 1 == 1) == x) ==> FeedStep(c, x) == c >> 1
  {
  }

  lemma {:induction false} StepBits(c: bv32, x: bool, g: seq<bool>)
    requires g == Generator(32)
    ensures var half := WordBits(c, 32)[1..] + [false];
            WordBits(FeedStep(c, x), 32)
            == if WordBits(c, 32)[0] != x then Plus(half, g[1..]) else half
  {
    FeedStepIsXor(c, x);
    HalfBits(c);
    GeneratorWord(g, 0xEDB8_8320, 32);
    if (c & 1 == 1) != x {
      XorBits(FeedStep(c, x), c >> 1, 0xEDB8_8320, 32);
    }
  }

  /** Both generators show the same coefficients. */
  lemma GeneratorAt(n: nat, g: seq<bool>, i: nat)
    requires n >= 32 && i <= n && g == Generator(32)
    ensures Generator(n)[i] == (i <= 32 && g[i])
  {
  }

  lemma {:induction false} ReduceAt(m: seq<bool>, g: seq<bool>, i: nat)
    requires |m| >= 33 && i < |m| - 1 && g == Generator(32)
    ensures Reduce(m)[i] == (m[i + 1] != (m[0] && i < 32 && g[i + 1]))
  {
    GeneratorAt(|m| - 1, g, i + 1);
  }

  lemma AddedAt(m: seq<bool>, c: bv32, w: seq<bool>, i: nat)
    requires |m| >= 32 && i < |m| && w == WordBits(c, 32)
    ensures AddedInFront(m, c)[i] == (m[i] != (i < 32 && w[i]))
  {
  }

  lemma StepAt(w: seq<bool>, v: seq<bool>, g: seq<bool>, x: bool, i: nat)
    requires |w| == |v| == 32 && |g| == 33 && i < 32
    requires v == if w[0] != x then Plus(w[1..] + [false], g[1..]) else w[1..] + [false]
    ensures v[i] == ((i < 31 && w[i + 1]) != (w[0] != x && g[i + 1]))
  {
  }

  lemma {:induction false} FeedReducesAt(
      c: bv32, d: bv32, m: seq<bool>, g: seq<bool>, w: seq<bool>, v: seq<bool>, i: nat)
    requires |m| >= 33 && g == Generator(32) && i < |m| - 1
    requires w == WordBits(c, 32) && v == WordBits(d, 32)
    requires v == if w[0] != m[0] then Plus(w[1..] + [false], g[1..]) else w[1..] + [false]
    ensures Reduce(AddedInFront(m, c))[i] == AddedInFront(m[1..], d)[i]
  {
    ReduceAt(AddedInFront(m, c), g, i);
    AddedAt(m, c, w, 0);
    AddedAt(m, c, w, i + 1);
    AddedAt(m[1..], d, v, i);
    if i < 32 {
      StepAt(w, v, g, m[0], i);
    }
  }

  /** Feeding one bit is one step of long division. */
  lemma {:induction false} FeedReduces(c: bv32, d: bv32, m: seq<bool>)
    requires |m| >= 33 && d == FeedStep(c, m[0])
    ensures Reduce(AddedInFront(m, c)) == AddedInFront(m[1..], d)
  {
    var g := Generator(32);
    StepBits(c, m[0], g);
    forall i | 0 <= i < |m| - 1
      ensures Reduce(AddedInFront(m, c))[i] == AddedInFront(m[1..], d)[i]
    {
      FeedReducesAt(c, d, m, g, WordBits(c, 32), WordBits(d, 32), i);
    }
  }

  lemma {:induction false} AddedToNothing(m: seq<bool>, c: bv32)
    requires |m| == 32 && forall i :: 0 <= i < 32 ==> !m[i]
    ensures AddedInFront(m, c) == WordBits(c, 32)
  {
  }

  /** After these bits the register holds the remainder of bits(x) x^32, the register it started
      from added to the first 32 coefficients. */
  lemma {:induction false} FeedIsRemainder(c: bv32, bits: seq<bool>)
    ensures Remainder(AddedInFront(bits + Nothing(32), c)) == WordBits(Feed(c, bits), 32)
    decreases |bits|
  {
    var m := bits + Nothing(32);
    if bits == [] {
      AddedToNothing(m, c);
    } else {
      var d := FeedStep(c, bits[0]);
      FeedReduces(c, d, m);
      assert m[1..] == bits[1..] + Nothing(32);
      FeedIsRemainder(d, bits[1..]);
    }
  }

  lemma {:induction false} InitComplements(m: seq<bool>, ones: bv32)
    requires |m| >= 32 && ones == 0xFFFF_FFFF
    ensures AddedInFront(m, ones) == FirstComplemented(m)
  {
    OnesWord();
  }

  lemma {:induction false} FinalComplements(c: bv32, crc: bv32, ones: bv32)
    requires crc == c ^ ones && ones == 0xFFFF_FFFF
    ensures WordBits(crc, 32) == Complement(WordBits(c, 32))
  {
    OnesWord();
    XorBits(crc, c, ones, 32);
  }

  // ---- The frame check sequence ----

  /** These 32 bits are the frame check sequence of these bits: complement the first 32 of them,
      multiply by x^32, divide by G(x), complement the remainder. A string shorter than 32 bits
      has the zeros behind it complemented as well. */
  ghost predicate IsFcs(bits: seq<bool>, fcs: seq<bool>) {
    |fcs| == 32 && exists q :: Division(FirstComplemented(bits + Nothing(32)), q, Complement(fcs))
  }

  /** From 32 bits on it is the message itself whose first 32 bits are complemented. */
  lemma {:induction false} ComplementsMessage(bits: seq<bool>)
    requires |bits| >= 32
    ensures FirstComplemented(bits + Nothing(32)) == FirstComplemented(bits) + Nothing(32)
  {
    assert (bits + Nothing(32))[..32] == bits[..32];
  }

  lemma {:induction false} ComplementTwice(a: seq<bool>, b: seq<bool>)
    ensures Complement(a) == b <==> a == Complement(b)
  {
  }

  lemma {:induction false} FcsIsRemainder(bits: seq<bool>, fcs: seq<bool>)
    requires |fcs| == 32
    ensures IsFcs(bits, fcs) <==> Complement(fcs) == Remainder(FirstComplemented(bits + Nothing(32)))
  {
    var m := FirstComplemented(bits + Nothing(32));
    if IsFcs(bits, fcs) {
      var q :| Division(m, q, Complement(fcs));
      RemainderIsUnique(m, q, Complement(fcs));
    } else {
      var q := RemainderDivides(m);
    }
  }

  lemma {:induction false} RegisterIsRemainder(bits: seq<bool>, ones: bv32, c: bv32, crc: bv32)
    requires ones == 0xFFFF_FFFF && c == Feed(ones, bits) && crc == c ^ ones
    ensures WordBits(crc, 32) == Complement(Remainder(FirstComplemented(bits + Nothing(32))))
  {
    FeedIsRemainder(ones, bits);
    InitComplements(bits + Nothing(32), ones);
    FinalComplements(c, crc, ones);
  }

  lemma {:induction false} CrcIsRemainder(data: Bytes, bits: seq<bool>)
    requires bits == BitsOfBytes(data)
    ensures WordBits(Crc32(data), 32) == Complement(Remainder(FirstComplemented(bits + Nothing(32))))
  {
    UpdateIsFeed(INIT, data);
    RegisterIsRemainder(bits, INIT, Update(INIT, data), Crc32(data));
  }

  /** The CRC is that of the standard. For every byte string, the register sent low byte first is
      the one frame check sequence of its bits in wire order. */
  lemma {:induction false} CrcIsIeee(data: Bytes, fcs: seq<bool>)
    ensures IsFcs(BitsOfBytes(data), fcs) <==> fcs == BitsOfBytes(LeBytes(Crc32(data), 4))
  {
    var bits := BitsOfBytes(data);
    CrcIsRemainder(data, bits);
    RegisterBits(Crc32(data));
    if |fcs| == 32 {
      FcsIsRemainder(bits, fcs);
      ComplementTwice(fcs, Remainder(FirstComplemented(bits + Nothing(32))));
    }
  }

  /** Every frame on the wire ends in it. */
  lemma {:induction false} SentWithIeeeFcs(body: Bytes)
    ensures var f, n := F.WireFrame(body), Max(|body|, 60);
            && |f| == n + 4 && f[..|body|] == body && (forall k :: |body| <= k < n ==> f[k] == 0)
            && IsFcs(BitsOfBytes(f[..n]), BitsOfBytes(f[n..]))
  {
    var p := F.Padded(body);
    assert F.WireFrame(body)[..|p|] == p && F.WireFrame(body)[|p|..] == LeBytes(Crc32(p), 4);
    CrcIsIeee(p, BitsOfBytes(LeBytes(Crc32(p), 4)));
    assert p[..|body|] == body;
  }

  lemma {:induction false} BytesOfBits(a: Bytes, b: Bytes)
    ensures BitsOfBytes(a) == BitsOfBytes(b) <==> a == b
  {
    PackBytesInverts(a, []);
    PackBytesInverts(b, []);
    assert BitsOfBytes(a) + [] == BitsOfBytes(a) && BitsOfBytes(b) + [] == BitsOfBytes(b);
  }

  /** The receiver's check accepts exactly the bytes that end in it. */
  lemma {:induction false} AcceptsExactlyIeeeFcs(frame: Bytes, len: nat)
    requires 18 <= len <= |frame|
    ensures VerifyFcs(frame, len)
            <==> IsFcs(BitsOfBytes(frame[..len - 4]), BitsOfBytes(frame[len - 4..len]))
  {
    var data, fcs := frame[..len - 4], frame[len - 4..len];
    CrcIsIeee(data, BitsOfBytes(fcs));
    BytesOfBits(fcs, LeBytes(Crc32(data), 4));
    LeBytesInvert(fcs);
    FourFit(Crc32(data));
    FromLeInverts(Crc32(data), 4);
  }
}
