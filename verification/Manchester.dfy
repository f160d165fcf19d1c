/** The Manchester table: data byte to sixteen two-bit half-bit codes, lowest first. */
module Manchester {
  import opened Wire
  import opened Samples

  /** Entries 16h to 16h+15 of `MANCHESTER_TABLE`. */
  function TableRow(h: nat): (r: seq<bv32>)
    requires h < 16
    ensures |r| == 16
  {
    if h == 0 then
      [0x66666666, 0x66666669, 0x66666696, 0x66666699, 0x66666966, 0x66666969, 0x66666996, 0x66666999,
       0x66669666, 0x66669669, 0x66669696, 0x66669699, 0x66669966, 0x66669969, 0x66669996, 0x66669999]
    else if h == 1 then
      [0x66696666, 0x66696669, 0x66696696, 0x66696699, 0x66696966, 0x66696969, 0x66696996, 0x66696999,
       0x66699666, 0x66699669, 0x66699696, 0x66699699, 0x66699966, 0x66699969, 0x66699996, 0x66699999]
    else if h == 2 then
      [0x66966666, 0x66966669, 0x66966696, 0x66966699, 0x66966966, 0x66966969, 0x66966996, 0x66966999,
       0x66969666, 0x66969669, 0x66969696, 0x66969699, 0x66969966, 0x66969969, 0x66969996, 0x66969999]
    else if h == 3 then
      [0x66996666, 0x66996669, 0x66996696, 0x66996699, 0x66996966, 0x66996969, 0x66996996, 0x66996999,
       0x66999666, 0x66999669, 0x66999696, 0x66999699, 0x66999966, 0x66999969, 0x66999996, 0x66999999]
    else if h == 4 then
      [0x69666666, 0x69666669, 0x69666696, 0x69666699, 0x69666966, 0x69666969, 0x69666996, 0x69666999,
       0x69669666, 0x69669669, 0x69669696, 0x69669699, 0x69669966, 0x69669969, 0x69669996, 0x69669999]
    else if h == 5 then
      [0x69696666, 0x69696669, 0x69696696, 0x69696699, 0x69696966, 0x69696969, 0x69696996, 0x69696999,
       0x69699666, 0x69699669, 0x69699696, 0x69699699, 0x69699966, 0x69699969, 0x69699996, 0x69699999]
    else if h == 6 then
      [0x69966666, 0x69966669, 0x69966696, 0x69966699, 0x69966966, 0x69966969, 0x69966996, 0x69966999,
       0x69969666, 0x69969669, 0x69969696, 0x69969699, 0x69969966, 0x69969969, 0x69969996, 0x69969999]
    else if h == 7 then
      [0x69996666, 0x69996669, 0x69996696, 0x69996699, 0x69996966, 0x69996969, 0x69996996, 0x69996999,
       0x69999666, 0x69999669, 0x69999696, 0x69999699, 0x69999966, 0x69999969, 0x69999996, 0x69999999]
    else if h == 8 then
      [0x96666666, 0x96666669, 0x96666696, 0x96666699, 0x96666966, 0x96666969, 0x96666996, 0x96666999,
       0x96669666, 0x96669669, 0x96669696, 0x96669699, 0x96669966, 0x96669969, 0x96669996, 0x96669999]
    else if h == 9 then
      [0x96696666, 0x96696669, 0x96696696, 0x96696699, 0x96696966, 0x96696969, 0x96696996, 0x96696999,
       0x96699666, 0x96699669, 0x96699696, 0x96699699, 0x96699966, 0x96699969, 0x96699996, 0x96699999]
    else if h == 10 then
      [0x96966666, 0x96966669, 0x96966696, 0x96966699, 0x96966966, 0x96966969, 0x96966996, 0x96966999,
       0x96969666, 0x96969669, 0x96969696, 0x96969699, 0x96969966, 0x96969969, 0x96969996, 0x96969999]
    else if h == 11 then
      [0x96996666, 0x96996669, 0x96996696, 0x96996699, 0x96996966, 0x96996969, 0x96996996, 0x96996999,
       0x96999666, 0x96999669, 0x96999696, 0x96999699, 0x96999966, 0x96999969, 0x96999996, 0x96999999]
    else if h == 12 then
      [0x99666666, 0x99666669, 0x99666696, 0x99666699, 0x99666966, 0x99666969, 0x99666996, 0x99666999,
       0x99669666, 0x99669669, 0x99669696, 0x99669699, 0x99669966, 0x99669969, 0x99669996, 0x99669999]
    else if h == 13 then
      [0x99696666, 0x99696669, 0x99696696, 0x99696699, 0x99696966, 0x99696969, 0x99696996, 0x99696999,
       0x99699666, 0x99699669, 0x99699696, 0x99699699, 0x99699966, 0x99699969, 0x99699996, 0x99699999]
    else if h == 14 then
      [0x99966666, 0x99966669, 0x99966696, 0x99966699, 0x99966966, 0x99966969, 0x99966996, 0x99966999,
       0x99969666, 0x99969669, 0x99969696, 0x99969699, 0x99969966, 0x99969969, 0x99969996, 0x99969999]
    else
      [0x99996666, 0x99996669, 0x99996696, 0x99996699, 0x99996966, 0x99996969, 0x99996996, 0x99996999,
       0x99999666, 0x99999669, 0x99999696, 0x99999699, 0x99999966, 0x99999969, 0x99999996, 0x99999999]
  }

  /** `MANCHESTER_TABLE[b]`. */
  function TableWord(b: bv8): bv32 {
    TableRow((b >> 4) as nat)[(b & 0xF) as nat]
  }

  /** Nibble k is 9 if bit k is set, else 6. */
  function NibbleWord(b: bv8): bv32 {
    0x6666_6666
    ^ ((if b & 0x01 != 0 then 0xF else 0) | (if b & 0x02 != 0 then 0xF0 else 0)
       | (if b & 0x04 != 0 then 0xF00 else 0) | (if b & 0x08 != 0 then 0xF000 else 0)
       | (if b & 0x10 != 0 then 0xF_0000 else 0) | (if b & 0x20 != 0 then 0xF0_0000 else 0)
       | (if b & 0x40 != 0 then 0xF00_0000 else 0) | (if b & 0x80 != 0 then 0xF000_0000 else 0))
  }

  function RowOf(h: bv8): (r: seq<bv32>)
    ensures |r| == 16
  {
    [NibbleWord(h), NibbleWord(h | 1), NibbleWord(h | 2), NibbleWord(h | 3),
     NibbleWord(h | 4), NibbleWord(h | 5), NibbleWord(h | 6), NibbleWord(h | 7),
     NibbleWord(h | 8), NibbleWord(h | 9), NibbleWord(h | 10), NibbleWord(h | 11),
     NibbleWord(h | 12), NibbleWord(h | 13), NibbleWord(h | 14), NibbleWord(h | 15)]
  }

  lemma RowAt(h: bv8, l: bv8)
    requires l < 16
    ensures RowOf(h)[l as nat] == NibbleWord(h | l)
  {
    if l == 0 {
    } else if l == 1 {
    } else if l == 2 {
    } else if l == 3 {
    } else if l == 4 {
    } else if l == 5 {
    } else if l == 6 {
    } else if l == 7 {
    } else if l == 8 {
    } else if l == 9 {
    } else if l == 10 {
    } else if l == 11 {
    } else if l == 12 {
    } else if l == 13 {
    } else if l == 14 {
    } else {
    }
  }

  lemma RowIs(h: bv8)
    requires h < 16
    ensures TableRow(h as nat) == RowOf(h << 4)
  {
    if h == 0 {
    } else if h == 1 {
    } else if h == 2 {
    } else if h == 3 {
    } else if h == 4 {
    } else if h == 5 {
    } else if h == 6 {
    } else if h == 7 {
    } else if h == 8 {
    } else if h == 9 {
    } else if h == 10 {
    } else if h == 11 {
    } else if h == 12 {
    } else if h == 13 {
    } else if h == 14 {
    } else {
    }
  }

  lemma Halves4(b: bv8)
    ensures b >> 4 < 16 && b & 0xF < 16 && ((b >> 4) << 4) | (b & 0xF) == b
  {
  }

  /** The literal table obeys the nibble rule. */
  lemma TableIsNibbles(b: bv8)
    ensures TableWord(b) == NibbleWord(b)
  {
    Halves4(b);
    RowIs(b >> 4);
    RowAt((b >> 4) << 4, b & 0xF);
  }

  // ---- Half-bits on the wire ----

  /** Levels at the receiver output for the n lowest two-bit codes of a word, first out first. Code 2
      drives the line high; the receiver is wired to invert. */
  ghost function Halves(w: bv32, n: nat): (r: seq<bool>)
    ensures |r| == n
    decreases n
  {
    if n == 0 then [] else [w & 3 != 2] + Halves(w >> 2, n - 1)
  }

  /** Levels of Manchester bits at the receiver output: each bit, then its opposite. */
  ghost function Coded(bits: seq<bool>): (r: seq<bool>)
    ensures |r| == 2 * |bits|
  {
    if bits == [] then [] else [bits[0], !bits[0]] + Coded(bits[1..])
  }

  /** The word starts with the nibbles of these bits: 9 for one, 6 for zero. */
  ghost predicate Nibbles(w: bv32, bits: seq<bool>) {
    bits == [] || (w & 0xF == (if bits[0] then 9 else 6) && Nibbles(w >> 4, bits[1..]))
  }

  lemma NibbleHalves(w: bv32, x: bool)
    requires w & 0xF == if x then 9 else 6
    ensures (w & 3 != 2) == x && ((w >> 2) & 3 != 2) == !x && (w >> 2) >> 2 == w >> 4
  {
    if x {
    } else {
    }
  }

  lemma {:induction false} HalvesTwo(w: bv32, n: nat)
    ensures Halves(w, n + 2) == [w & 3 != 2, (w >> 2) & 3 != 2] + Halves((w >> 2) >> 2, n)
  {
    assert Halves(w, n + 2) == [w & 3 != 2] + Halves(w >> 2, n + 1);
    assert Halves(w >> 2, n + 1) == [(w >> 2) & 3 != 2] + Halves((w >> 2) >> 2, n);
  }

  lemma {:induction false} NibblesAreManchester(w: bv32, bits: seq<bool>)
    requires Nibbles(w, bits)
    ensures Halves(w, 2 * |bits|) == Coded(bits)
    decreases |bits|
  {
    if bits != [] {
      NibbleHalves(w, bits[0]);
      NibblesAreManchester(w >> 4, bits[1..]);
      HalvesTwo(w, 2 * |bits| - 2);
    }
  }

  /** w follows the rule for b in the nibbles that m covers. */
  ghost predicate Follows(w: bv32, b: bv8, m: bv32) { w & m == NibbleWord(b) & m }

  ghost predicate Covers(m: bv32, n: nat)
    decreases n
  {
    n == 0 || (m & 0xF == 0xF && Covers(m >> 4, n - 1))
  }

  lemma FollowsStep(w: bv32, b: bv8, m: bv32)
    requires Follows(w, b, m) && m & 0xF == 0xF
    ensures w & 0xF == (if b & 1 == 1 then 9 else 6)
    ensures Follows(w >> 4, b >> 1, m >> 4)
  {
  }

  lemma {:induction false} FollowsNibbles(w: bv32, b: bv8, m: bv32, n: nat)
    requires Follows(w, b, m) && Covers(m, n)
    ensures Nibbles(w, ByteBits(b, n))
    decreases n
  {
    if n > 0 {
      FollowsStep(w, b, m);
      FollowsNibbles(w >> 4, b >> 1, m >> 4, n - 1);
      assert ByteBits(b, n)[1..] == ByteBits(b >> 1, n - 1);
    }
  }

  lemma AllCovered()
    ensures Covers(0xFFFF_FFFF, 8)
  {
    assert Covers(0xFFF, 3);
    assert Covers(0xF_FFFF, 5);
    assert Covers(0xFFF_FFFF, 7);
  }

  /** IEEE 802.3 clause 7.3.1 through the table and the inverted receiver: the sixteen half-bits of
      a byte's word arrive as each bit, lowest first, followed by its opposite. */
  lemma TableIsManchester(b: bv8)
    ensures Halves(TableWord(b), 16) == Coded(BitsOfByte(b))
  {
    TableIsNibbles(b);
    AllCovered();
    FollowsNibbles(TableWord(b), b, 0xFFFF_FFFF, 8);
    NibblesAreManchester(TableWord(b), BitsOfByte(b));
  }
}
