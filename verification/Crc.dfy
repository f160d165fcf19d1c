/** CRC-32 (IEEE 802.3): the byte loops, their bit-serial meaning, the fixed acceptance residue,
    and burst detection. */
module Crc {
  import opened Wire
  import opened Samples

  const POLY: bv32 := 0xEDB88320

  /** One shift of the reflected register. */
  function Shift(c: bv32): bv32 {
    if c & 1 != 0 then (c >> 1) ^ POLY else c >> 1
  }

  function ShiftN(c: bv32, n: nat): bv32
    decreases n
  {
    if n == 0 then c else ShiftN(Shift(c), n - 1)
  }

  function StepByte(c: bv32, b: bv8): bv32 { ShiftN(c ^ (b as bv32), 8) }

  function Update(c: bv32, data: Bytes): bv32
    decreases |data|
  {
    if data == [] then c else Update(StepByte(c, data[0]), data[1..])
  }

  function Finalize(c: bv32): bv32 { c ^ 0xFFFF_FFFF }

  const INIT: bv32 := 0xFFFF_FFFF

  function Crc32(data: Bytes): bv32 { Finalize(Update(INIT, data)) }

  /** n zero bytes. */
  function Zeros(n: nat): (z: Bytes)
    ensures |z| == n && forall i :: 0 <= i < n ==> z[i] == 0
  {
    if n == 0 then [] else [0] + Zeros(n - 1)
  }

  // ---- The loops ----

  /** `step_byte`: eight conditional shifts. */
  method StepByteLoop(crc0: bv32, b: bv8) returns (crc: bv32)
    ensures crc == StepByte(crc0, b)
  {
    crc := crc0 ^ (b as bv32);
    for i := 0 to 8
      invariant ShiftN(crc, 8 - i) == StepByte(crc0, b)
    {
      crc := if crc & 1 != 0 then (crc >> 1) ^ 0xEDB88320 else crc >> 1;
    }
  }

  method UpdateLoop(crc0: bv32, data: Bytes) returns (crc: bv32)
    ensures crc == Update(crc0, data)
  {
    crc := crc0;
    for i := 0 to |data|
      invariant Update(crc, data[i..]) == Update(crc0, data)
    {
      assert data[i..][1..] == data[i + 1..];
      crc := StepByteLoop(crc, data[i]);
    }
  }

  method Crc32Loop(data: Bytes) returns (r: bv32)
    ensures r == Crc32(data)
  {
    var crc := UpdateLoop(0xFFFF_FFFF, data);
    r := Finalize(crc);
  }

  lemma {:induction false} UpdateConcat(c: bv32, a: Bytes, b: Bytes)
    ensures Update(c, a + b) == Update(Update(c, a), b)
    decreases |a|
  {
    if a == [] {
      assert a + b == b;
    } else {
      assert (a + b)[1..] == a[1..] + b;
      UpdateConcat(StepByte(c, a[0]), a[1..], b);
    }
  }

  /** Padding without materialising it gives the CRC of the zero-extended data. */
  method Crc32Padded(data: Bytes, padLen: nat) returns (r: bv32)
    ensures r == Crc32(data + Zeros(padLen))
  {
    var crc := UpdateLoop(0xFFFF_FFFF, data);
    for i := 0 to padLen
      invariant Update(crc, Zeros(padLen - i)) == Update(Update(INIT, data), Zeros(padLen))
    {
      assert Zeros(padLen - i)[1..] == Zeros(padLen - i - 1);
      crc := StepByteLoop(crc, 0);
    }
    UpdateConcat(INIT, data, Zeros(padLen));
    r := Finalize(crc);
  }

  // ---- The register as a bit-serial machine ----

  /** Xor one bit into the low end and shift. */
  function FeedStep(c: bv32, x: bool): bv32 { if x then Shift(c ^ 1) else Shift(c) }

  /** A machine driven by bits, first bit first. */
  ghost function Fold<T>(step: (T, bool) -> T, c: T, bits: seq<bool>): T
    decreases |bits|
  {
    if bits == [] then c else Fold(step, step(c, bits[0]), bits[1..])
  }

  ghost function Feed(c: bv32, bits: seq<bool>): bv32 { Fold(FeedStep, c, bits) }

  lemma {:induction false} FoldConcat<T>(step: (T, bool) -> T, c: T, a: seq<bool>, b: seq<bool>)
    ensures Fold(step, c, a + b) == Fold(step, Fold(step, c, a), b)
    decreases |a|
  {
    if a == [] {
      assert a + b == b;
    } else {
      assert (a + b)[1..] == a[1..] + b;
      FoldConcat(step, step(c, a[0]), a[1..], b);
    }
  }

  lemma {:induction false} FoldInjective<T(!new)>(step: (T, bool) -> T, c: T, d: T, bits: seq<bool>)
    requires forall u, v, x :: step(u, x) == step(v, x) ==> u == v
    requires Fold(step, c, bits) == Fold(step, d, bits)
    ensures c == d
    decreases |bits|
  {
    if bits != [] {
      FoldInjective(step, step(c, bits[0]), step(d, bits[0]), bits[1..]);
    }
  }

  /** w holds exactly these bits, first bit lowest. */
  ghost predicate IsWord(w: bv32, bits: seq<bool>) {
    if bits == [] then w == 0 else (w & 1 == 1) == bits[0] && IsWord(w >> 1, bits[1..])
  }

  lemma EvenIntoOdd(c: bv32, w: bv32)
    requires w & 1 == 0 && c & 1 != 0
    ensures Shift(c ^ w) == Shift(c) ^ (w >> 1)
  {
  }

  lemma EvenIntoEven(c: bv32, w: bv32)
    requires w & 1 == 0 && c & 1 == 0
    ensures Shift(c ^ w) == Shift(c) ^ (w >> 1)
  {
  }

  lemma SplitEven(c: bv32, w: bv32)
    requires w & 1 == 0
    ensures Shift(c ^ w) == Shift(c) ^ (w >> 1)
  {
    if c & 1 != 0 {
      EvenIntoOdd(c, w);
    } else {
      EvenIntoEven(c, w);
    }
  }

  lemma OddIntoOdd(c: bv32, w: bv32)
    requires w & 1 == 1 && c & 1 != 0
    ensures Shift(c ^ w) == Shift(c ^ 1) ^ (w >> 1)
  {
  }

  lemma OddIntoEven(c: bv32, w: bv32)
    requires w & 1 == 1 && c & 1 == 0
    ensures Shift(c ^ w) == Shift(c ^ 1) ^ (w >> 1)
  {
  }

  lemma SplitOdd(c: bv32, w: bv32)
    requires w & 1 == 1
    ensures Shift(c ^ w) == Shift(c ^ 1) ^ (w >> 1)
  {
    if c & 1 != 0 {
      OddIntoOdd(c, w);
    } else {
      OddIntoEven(c, w);
    }
  }

  lemma LowBit(w: bv32)
    ensures w & 1 == 0 || w & 1 == 1
  {
  }

  lemma FeedStepIs(c: bv32)
    ensures FeedStep(c, true) == Shift(c ^ 1) && FeedStep(c, false) == Shift(c)
  {
  }

  lemma FeedOne(c: bv32, w: bv32, x: bool)
    requires (w & 1 == 1) == x
    ensures FeedStep(c, x) ^ (w >> 1) == Shift(c ^ w)
  {
    FeedStepIs(c);
    if x {
      SplitOdd(c, w);
    } else {
      LowBit(w);
      SplitEven(c, w);
    }
  }

  /** Feeding bits is xoring their word in and shifting. */
  lemma {:induction false} FeedIsShift(c: bv32, w: bv32, bits: seq<bool>)
    requires IsWord(w, bits)
    ensures Feed(c, bits) == ShiftN(c ^ w, |bits|)
    decreases |bits|
  {
    if bits != [] {
      FeedOne(c, w, bits[0]);
      FeedIsShift(FeedStep(c, bits[0]), w >> 1, bits[1..]);
    } else {
      assert c ^ w == c;
    }
  }

  /** The step is a bijection: the top bit shows which branch was taken. */
  lemma ShiftInjective(c: bv32, d: bv32)
    requires Shift(c) == Shift(d)
    ensures c == d
  {
  }

  lemma {:induction false} ShiftNInjective(c: bv32, d: bv32, n: nat)
    requires ShiftN(c, n) == ShiftN(d, n)
    ensures c == d
    decreases n
  {
    if n > 0 {
      ShiftNInjective(Shift(c), Shift(d), n - 1);
      ShiftInjective(c, d);
    }
  }

  lemma ShiftOddInjective(c: bv32, d: bv32)
    requires Shift(c ^ 1) == Shift(d ^ 1)
    ensures c == d
  {
  }

  lemma FeedStepInjective(c: bv32, d: bv32, x: bool)
    requires FeedStep(c, x) == FeedStep(d, x)
    ensures c == d
  {
    if x {
      ShiftOddInjective(c, d);
    } else {
      ShiftInjective(c, d);
    }
  }

  lemma {:induction false} FeedInjective(c: bv32, d: bv32, bits: seq<bool>)
    requires Feed(c, bits) == Feed(d, bits)
    ensures c == d
  {
    forall u, v, x | FeedStep(u, x) == FeedStep(v, x)
      ensures u == v
    {
      FeedStepInjective(u, v, x);
    }
    FoldInjective(FeedStep, c, d, bits);
  }

  lemma {:induction false} WordUnique(w: bv32, a: seq<bool>, b: seq<bool>)
    requires |a| == |b| && IsWord(w, a) && IsWord(w, b)
    ensures a == b
    decreases |a|
  {
    if a != [] {
      WordUnique(w >> 1, a[1..], b[1..]);
      assert a == [a[0]] + a[1..] && b == [b[0]] + b[1..];
    }
  }

  // ---- Words of up to 32 bits exist ----

  /** w has room to be shifted up 32-n places without losing a bit. */
  ghost predicate Room(w: bv32, n: nat)
    requires n <= 32
    decreases 32 - n
  {
    n == 32 || (w < 0x8000_0000 && Room(w << 1, n + 1))
  }

  lemma {:induction false} RoomGrows(w: bv32, n: nat)
    requires n < 32 && Room(w, n)
    ensures Room(w, n + 1)
    decreases 32 - n
  {
    if n + 1 < 32 {
      RoomGrows(w << 1, n + 1);
    }
  }

  lemma {:induction false} RoomUnion(v: bv32, u: bv32, n: nat)
    requires n <= 32 && Room(v, n) && Room(u, n)
    ensures Room(v | u, n)
    decreases 32 - n
  {
    if n < 32 {
      RoomUnion(v << 1, u << 1, n + 1);
      assert (v << 1) | (u << 1) == (v | u) << 1;
      assert v | u < 0x8000_0000;
    }
  }

  lemma {:induction false} RoomOne(n: nat)
    requires 1 <= n <= 32
    ensures Room(1, n)
  {
    if n == 1 {
      assert Room(0x4000_0000, 31);
      assert Room(0x1000_0000, 29);
      assert Room(0x0400_0000, 27);
      assert Room(0x0100_0000, 25);
      assert Room(0x0040_0000, 23);
      assert Room(0x0010_0000, 21);
      assert Room(0x0004_0000, 19);
      assert Room(0x0001_0000, 17);
      assert Room(0x4000, 15);
      assert Room(0x1000, 13);
      assert Room(0x0400, 11);
      assert Room(0x0100, 9);
      assert Room(0x40, 7);
      assert Room(0x10, 5);
      assert Room(0x04, 3);
    } else {
      RoomOne(n - 1);
      RoomGrows(1, n - 1);
    }
  }

  lemma {:induction false} RoomZero(n: nat)
    requires n <= 32
    ensures Room(0, n)
    decreases 32 - n
  {
    if n < 32 {
      RoomZero(n + 1);
    }
  }

  lemma RoomHead(v: bv32, n: nat)
    requires n < 32 && Room(v, n)
    ensures v < 0x8000_0000 && Room(v << 1, n + 1)
  {
  }

  function Low(v: bv32, x: bool): bv32 { if x then (v << 1) | 1 else v << 1 }

  lemma LowSplits(v: bv32, x: bool)
    requires v < 0x8000_0000
    ensures Low(v, x) >> 1 == v && (Low(v, x) & 1 == 1) == x
  {
    if x {
    } else {
    }
  }

  lemma {:induction false} RoomLow(v: bv32, n: nat, x: bool)
    requires n < 32 && Room(v << 1, n + 1)
    ensures Room(Low(v, x), n + 1)
  {
    if x {
      RoomOne(n + 1);
      RoomUnion(v << 1, 1, n + 1);
    }
  }

  lemma {:induction false} PutLow(v: bv32, n: nat, x: bool) returns (w: bv32)
    requires n < 32 && Room(v, n)
    ensures w >> 1 == v && (w & 1 == 1) == x && Room(w, n + 1)
  {
    RoomHead(v, n);
    LowSplits(v, x);
    RoomLow(v, n, x);
    w := Low(v, x);
  }

  lemma {:induction false} MakeWord(bits: seq<bool>) returns (w: bv32)
    requires |bits| <= 32
    ensures IsWord(w, bits) && Room(w, |bits|)
    decreases |bits|
  {
    if bits == [] {
      w := 0;
      RoomZero(0);
    } else {
      var v := MakeWord(bits[1..]);
      w := PutLow(v, |bits| - 1, bits[0]);
    }
  }

  // ---- Bytes as bits ----

  /** The n low bits of a word, lowest first. */
  ghost function WordBits(w: bv32, n: nat): (r: seq<bool>)
    ensures |r| == n
    decreases n
  {
    if n == 0 then [] else [w & 1 == 1] + WordBits(w >> 1, n - 1)
  }

  ghost function Drop(w: bv32, n: nat): bv32
    decreases n
  {
    if n == 0 then w else Drop(w >> 1, n - 1)
  }

  lemma {:induction false} BitsAreWord(w: bv32, n: nat)
    requires Drop(w, n) == 0
    ensures IsWord(w, WordBits(w, n))
    decreases n
  {
    if n > 0 {
      BitsAreWord(w >> 1, n - 1);
      assert WordBits(w, n)[1..] == WordBits(w >> 1, n - 1);
    }
  }

  lemma {:induction false} SplitBits(w: bv32, a: nat, b: nat)
    ensures WordBits(w, a + b) == WordBits(w, a) + WordBits(Drop(w, a), b)
    ensures Drop(w, a + b) == Drop(Drop(w, a), b)
    decreases a
  {
    if a > 0 {
      SplitBits(w >> 1, a - 1, b);
    }
  }

  lemma Drop2(w: bv32)
    ensures Drop(w, 2) == w >> 2
  {
    assert Drop(w, 2) == Drop(w >> 1, 1);
  }

  lemma Drop8(w: bv32)
    ensures Drop(w, 8) == w >> 8
  {
    Drop2(w);
    Drop2(w >> 2);
    Drop2(w >> 4);
    Drop2(w >> 6);
    SplitBits(w, 2, 6);
    SplitBits(w >> 2, 2, 4);
    SplitBits(w >> 4, 2, 2);
  }

  /** m is n ones. */
  ghost predicate Ones(m: bv8, n: nat)
    decreases n
  {
    if n == 0 then m == 0 else m & 1 == 1 && Ones(m >> 1, n - 1)
  }

  ghost predicate Agree(w: bv32, b: bv8, m: bv8) { ((w & 0xFF) as bv8) & m == b & m }

  lemma AgreeStep(w: bv32, b: bv8, m: bv8)
    requires Agree(w, b, m) && m & 1 == 1
    ensures (w & 1 == 1) == (b & 1 == 1) && Agree(w >> 1, b >> 1, m >> 1)
  {
  }

  lemma {:induction false} AgreeBits(w: bv32, b: bv8, m: bv8, n: nat)
    requires Agree(w, b, m) && Ones(m, n)
    ensures WordBits(w, n) == ByteBits(b, n)
    decreases n
  {
    if n > 0 {
      AgreeStep(w, b, m);
      AgreeBits(w >> 1, b >> 1, m >> 1, n - 1);
    }
  }

  lemma EightOnes()
    ensures Ones(0xFF, 8)
  {
    assert Ones(0x7, 3);
    assert Ones(0x1F, 5);
    assert Ones(0x7F, 7);
  }

  lemma AgreeAll(w: bv32, b: bv8)
    requires (w & 0xFF) as bv8 == b
    ensures Agree(w, b, 0xFF)
  {
  }

  /** The first eight bits of a word are those of its low byte. */
  lemma LowByteBits(w: bv32, b: bv8)
    requires (w & 0xFF) as bv8 == b
    ensures WordBits(w, 8) == BitsOfByte(b)
  {
    AgreeAll(w, b);
    EightOnes();
    AgreeBits(w, b, 0xFF, 8);
  }

  lemma LowByte(b: bv8)
    ensures ((b as bv32) & 0xFF) as bv8 == b && (b as bv32) >> 8 == 0
  {
  }

  lemma ByteIsWord(b: bv8)
    ensures IsWord(b as bv32, BitsOfByte(b))
  {
    var w := b as bv32;
    LowByte(b);
    LowByteBits(w, b);
    Drop8(w);
    BitsAreWord(w, 8);
  }

  lemma ShiftWord(c: bv32, w: bv32, bits: seq<bool>)
    requires IsWord(w, bits) && |bits| == 8
    ensures ShiftN(c ^ w, 8) == Feed(c, bits)
  {
    FeedIsShift(c, w, bits);
  }

  lemma StepByteIs(c: bv32, b: bv8)
    ensures StepByte(c, b) == ShiftN(c ^ (b as bv32), 8)
  {
  }

  /** `step_byte` is the bit-serial machine fed the byte's bits, lowest first. */
  lemma StepByteIsFeed(c: bv32, b: bv8)
    ensures StepByte(c, b) == Feed(c, BitsOfByte(b))
  {
    ByteIsWord(b);
    ShiftWord(c, b as bv32, BitsOfByte(b));
    StepByteIs(c, b);
  }

  lemma {:induction false} UpdateIsFeed(c: bv32, data: Bytes)
    ensures Update(c, data) == Feed(c, BitsOfBytes(data))
    decreases |data|
  {
    if data != [] {
      StepByteIsFeed(c, data[0]);
      UpdateIsFeed(StepByte(c, data[0]), data[1..]);
      FoldConcat(FeedStep, c, BitsOfByte(data[0]), BitsOfBytes(data[1..]));
    }
  }

  // ---- The frame check sequence ----

  /** `to_le_bytes`, the n low bytes. */
  function LeBytes(w: bv32, n: nat): (r: Bytes)
    ensures |r| == n
    decreases n
  {
    if n == 0 then [] else [(w & 0xFF) as bv8] + LeBytes(w >> 8, n - 1)
  }

  /** `from_le_bytes`. */
  function FromLe(b: Bytes): bv32
    decreases |b|
  {
    if b == [] then 0 else (b[0] as bv32) | (FromLe(b[1..]) << 8)
  }

  lemma BoundUp(b: bv8, t: bv32)
    ensures t == 0 ==> (b as bv32) | (t << 8) < 0x100
    ensures t < 0x100 ==> (b as bv32) | (t << 8) < 0x1_0000
    ensures t < 0x1_0000 ==> (b as bv32) | (t << 8) < 0x100_0000
  {
  }

  lemma {:induction false} FromLeBound(b: Bytes)
    requires |b| <= 3
    ensures |b| == 0 ==> FromLe(b) == 0
    ensures |b| == 1 ==> FromLe(b) < 0x100
    ensures |b| == 2 ==> FromLe(b) < 0x1_0000
    ensures FromLe(b) < 0x100_0000
  {
    if b != [] {
      FromLeBound(b[1..]);
      BoundUp(b[0], FromLe(b[1..]));
    }
  }

  lemma JoinSplits(b: bv8, t: bv32)
    requires t < 0x100_0000
    ensures var w := (b as bv32) | (t << 8); (w & 0xFF) as bv8 == b && w >> 8 == t
  {
  }

  lemma {:induction false} FromLeSplits(b: Bytes)
    requires 1 <= |b| <= 4
    ensures (FromLe(b) & 0xFF) as bv8 == b[0] && FromLe(b) >> 8 == FromLe(b[1..])
  {
    FromLeBound(b[1..]);
    JoinSplits(b[0], FromLe(b[1..]));
  }

  /** The bytes of w, lowest first, and nothing above them. */
  ghost predicate IsLe(w: bv32, b: Bytes)
    decreases |b|
  {
    if b == [] then w == 0 else (w & 0xFF) as bv8 == b[0] && IsLe(w >> 8, b[1..])
  }

  lemma {:induction false} FromLeIsLe(b: Bytes)
    requires |b| <= 4
    ensures IsLe(FromLe(b), b)
  {
    if b != [] {
      FromLeSplits(b);
      FromLeIsLe(b[1..]);
    }
  }

  lemma {:induction false} LeBytesOf(w: bv32, b: Bytes)
    requires IsLe(w, b)
    ensures LeBytes(w, |b|) == b
    decreases |b|
  {
    if b != [] {
      LeBytesOf(w >> 8, b[1..]);
    }
  }

  lemma {:induction false} LeBytesInvert(b: Bytes)
    requires |b| <= 4
    ensures LeBytes(FromLe(b), |b|) == b
  {
    FromLeIsLe(b);
    LeBytesOf(FromLe(b), b);
  }

  /** w has at most n bytes. */
  ghost predicate FitsBytes(w: bv32, n: nat)
    decreases n
  {
    if n == 0 then w == 0 else FitsBytes(w >> 8, n - 1)
  }

  lemma FourFit(w: bv32)
    ensures FitsBytes(w, 4)
  {
    var x := w >> 8;
    var y := x >> 8;
    assert (y >> 8) >> 8 == 0;
    assert FitsBytes(y, 2);
    assert FitsBytes(x, 3);
  }

  lemma SplitJoins(w: bv32)
    ensures (((w & 0xFF) as bv8) as bv32) | ((w >> 8) << 8) == w
  {
  }

  lemma {:induction false} FromLeInverts(w: bv32, n: nat)
    requires FitsBytes(w, n)
    ensures FromLe(LeBytes(w, n)) == w
    decreases n
  {
    if n > 0 {
      FromLeInverts(w >> 8, n - 1);
      assert LeBytes(w, n)[1..] == LeBytes(w >> 8, n - 1);
      SplitJoins(w);
    }
  }

  /** The last four of these bytes, low byte first, are the CRC of those before. */
  function VerifyFcs(frame: Bytes, len: nat): bool {
    if len < 18 || len > |frame| then false
    else Crc32(frame[..len - 4]) == FromLe(frame[len - 4..len])
  }

  /** Split a word after its low byte. */
  lemma {:induction false} WordPeel(w: bv32, t: bv32, n: nat, b: bv8)
    requires (w & 0xFF) as bv8 == b && w >> 8 == t
    ensures WordBits(w, 8 + n) == BitsOfByte(b) + WordBits(t, n)
    ensures Drop(w, 8 + n) == Drop(t, n)
  {
    SplitBits(w, 8, n);
    Drop8(w);
    LowByteBits(w, b);
  }

  lemma {:induction false} LeBits(w: bv32, b: Bytes)
    requires IsLe(w, b)
    ensures WordBits(w, 8 * |b|) == BitsOfBytes(b) && Drop(w, 8 * |b|) == 0
    decreases |b|
  {
    if b != [] {
      LeBits(w >> 8, b[1..]);
      WordPeel(w, w >> 8, 8 * |b| - 8, b[0]);
    }
  }

  lemma {:induction false} LeWord(b: Bytes)
    requires |b| <= 4
    ensures IsWord(FromLe(b), BitsOfBytes(b))
  {
    FromLeIsLe(b);
    LeBits(FromLe(b), b);
    BitsAreWord(FromLe(b), 8 * |b|);
  }

  /** The register value every accepted frame leaves, FCS included. */
  const RESIDUE: bv32 := 0xDEBB_20E3

  lemma XorAllThen(c: bv32, w: bv32)
    requires c ^ w == 0xFFFF_FFFF
    ensures w == c ^ 0xFFFF_FFFF
  {
    assert c ^ (c ^ w) == w;
  }

  lemma XorAllElse(c: bv32, w: bv32)
    requires c ^ w != 0xFFFF_FFFF
    ensures w != c ^ 0xFFFF_FFFF
  {
  }

  lemma XorAll(c: bv32, w: bv32)
    ensures c ^ w == 0xFFFF_FFFF <==> w == Finalize(c)
  {
    if c ^ w == 0xFFFF_FFFF {
      XorAllThen(c, w);
    } else {
      XorAllElse(c, w);
    }
  }

  lemma {:induction false} FcsShifts(c: bv32, fcs: Bytes, n: nat)
    requires |fcs| == 4 && n == 32
    ensures Update(c, fcs) == ShiftN(c ^ FromLe(fcs), n)
  {
    UpdateIsFeed(c, fcs);
    LeWord(fcs);
    FeedIsShift(c, FromLe(fcs), BitsOfBytes(fcs));
  }

  lemma ResidueIs(ones: bv32, n: nat)
    requires ones == 0xFFFF_FFFF && n == 32
    ensures ShiftN(ones, n) == RESIDUE
  {
    assert ShiftN(0xCC0E8F0E, 2) == 0xDEBB_20E3;
    assert ShiftN(0x86D830BA, 4) == 0xDEBB_20E3;
    assert ShiftN(0x76F3C82B, 6) == 0xDEBB_20E3;
    assert ShiftN(0xBE26ED, 8) == 0xDEBB_20E3;
    assert ShiftN(0x2F89BB4, 10) == 0xDEBB_20E3;
    assert ShiftN(0xBE26ED0, 12) == 0xDEBB_20E3;
    assert ShiftN(0x2F89BB40, 14) == 0xDEBB_20E3;
    assert ShiftN(0xBE26ED00, 16) == 0xDEBB_20E3;
    assert ShiftN(0x9508BEC3, 18) == 0xDEBB_20E3;
    assert ShiftN(0x39B1F1CF, 20) == 0xDEBB_20E3;
    assert ShiftN(0xE6C7C73C, 22) == 0xDEBB_20E3;
    assert ShiftN(0x2DFD1072, 24) == 0xDEBB_20E3;
    assert ShiftN(0xB7F441C8, 26) == 0xDEBB_20E3;
    assert ShiftN(0xB2420DE3, 28) == 0xDEBB_20E3;
    assert ShiftN(0xA49B3D4F, 30) == 0xDEBB_20E3;
    assert ShiftN(0xFFFFFFFF, 32) == 0xDEBB_20E3;
  }

  lemma {:induction false} ResidueOfXor(c: bv32, w: bv32, ones: bv32, n: nat, residue: bv32)
    requires ones == 0xFFFF_FFFF && residue == ShiftN(ones, n)
    ensures ShiftN(c ^ w, n) == residue <==> Finalize(c) == w
  {
    XorAll(c, w);
    if ShiftN(c ^ w, n) == residue {
      ShiftNInjective(c ^ w, ones, n);
    }
  }

  lemma {:induction false} ThroughFcs(init: bv32, data: Bytes, fcs: Bytes, n: nat)
    requires |fcs| == 4 && n == 32
    ensures Update(init, data + fcs) == ShiftN(Update(init, data) ^ FromLe(fcs), n)
  {
    UpdateConcat(init, data, fcs);
    FcsShifts(Update(init, data), fcs, n);
  }

  lemma {:induction false} ResidueOfSum(data: Bytes, fcs: Bytes, ones: bv32, n: nat, residue: bv32)
    requires |fcs| == 4 && ones == INIT && n == 32 && residue == RESIDUE
    ensures Finalize(Update(ones, data)) == FromLe(fcs) <==> Update(ones, data + fcs) == residue
  {
    ThroughFcs(ones, data, fcs, n);
    ResidueIs(ones, n);
    ResidueOfXor(Update(ones, data), FromLe(fcs), ones, n, residue);
  }

  /** Acceptance is one fixed residue of the whole frame. */
  lemma {:induction false} AcceptedIsResidue(frame: Bytes, len: nat)
    requires 18 <= len <= |frame|
    ensures VerifyFcs(frame, len) <==> Update(INIT, frame[..len]) == 0xDEBB_20E3
  {
    assert frame[..len] == frame[..len - 4] + frame[len - 4..len];
    ResidueOfSum(frame[..len - 4], frame[len - 4..len], INIT, 32, RESIDUE);
  }

  // ---- Burst detection ----

  lemma XorLeft(c: bv32, a: bv32, b: bv32)
    requires c ^ a == c ^ b
    ensures a == b
  {
    assert c ^ (c ^ a) == a && c ^ (c ^ b) == b;
  }

  lemma {:induction false} BurstWord(c: bv32, u: seq<bool>, v: seq<bool>)
    requires |u| == |v| <= 32 && Feed(c, u) == Feed(c, v)
    ensures u == v
  {
    var a := MakeWord(u);
    var b := MakeWord(v);
    FeedIsShift(c, a, u);
    FeedIsShift(c, b, v);
    ShiftNInjective(c ^ a, c ^ b, |u|);
    XorLeft(c, a, b);
    WordUnique(a, u, v);
  }

  /** Two bit strings that drive the register to the same value and differ only in a window of
      at most 32 bits are the same. */
  lemma {:induction false} BurstBits(a: seq<bool>, b: seq<bool>, p: nat, n: nat)
    requires |a| == |b| && n <= 32 && p + n <= |a|
    requires a[..p] == b[..p] && a[p + n..] == b[p + n..]
    requires Feed(INIT, a) == Feed(INIT, b)
    ensures a == b
  {
    var c := Feed(INIT, a[..p]);
    var u, v, y := a[p..p + n], b[p..p + n], a[p + n..];
    assert a == a[..p] + (u + y) && b == b[..p] + (v + y);
    FoldConcat(FeedStep, INIT, a[..p], u + y);
    FoldConcat(FeedStep, INIT, b[..p], v + y);
    FoldConcat(FeedStep, c, u, y);
    FoldConcat(FeedStep, c, v, y);
    FeedInjective(Feed(c, u), Feed(c, v), y);
    BurstWord(c, u, v);
  }

  /** Burst detection: two frames accepted at the same length that differ only within 32
      consecutive bits in wire order, wherever those lie, are identical. */
  lemma {:induction false} BurstDetected(f: Bytes, g: Bytes, len: nat, p: nat, n: nat)
    requires VerifyFcs(f, len) && VerifyFcs(g, len)
    requires n <= 32 && p + n <= 8 * len
    requires var a, b := BitsOfBytes(f[..len]), BitsOfBytes(g[..len]);
             a[..p] == b[..p] && a[p + n..] == b[p + n..]
    ensures f[..len] == g[..len]
  {
    var a, b := BitsOfBytes(f[..len]), BitsOfBytes(g[..len]);
    AcceptedIsResidue(f, len);
    AcceptedIsResidue(g, len);
    UpdateIsFeed(INIT, f[..len]);
    UpdateIsFeed(INIT, g[..len]);
    BurstBits(a, b, p, n);
    PackBytesInverts(f[..len], []);
    PackBytesInverts(g[..len], []);
    assert a + [] == a && b + [] == b;
  }

  /** A frame with its own CRC appended little-endian is accepted, and no other FCS is. */
  lemma {:induction false} OwnFcsAccepted(data: Bytes, fcs: Bytes)
    requires |data| >= 14 && |fcs| == 4
    ensures VerifyFcs(data + fcs, |data| + 4) <==> fcs == LeBytes(Crc32(data), 4)
  {
    var frame, len := data + fcs, |data| + 4;
    assert frame[..len - 4] == data && frame[len - 4..len] == fcs;
    LeBytesInvert(fcs);
    FourFit(Crc32(data));
    FromLeInverts(Crc32(data), 4);
  }
}
