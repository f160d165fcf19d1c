/** The internet checksum: RFC 1071 full computation and RFC 1624 incremental update. */
module Checksum {
  import opened Wire

  /** The 16-bit word that end-around-carry addition makes of a plain sum: multiples of 0xFFFF
      taken out, leaving 0 only for 0. */
  ghost function Fold(n: nat): U16 {
    if n <= 0xFFFF then n else Fold(n - 0xFFFF)
  }

  /** Addition of 16-bit words in which the carry out of the top bit comes back in at the bottom. */
  function Add1c(a: U16, b: U16): (r: U16)
    ensures r == Fold(a + b)
    ensures r == 0 <==> a == 0 && b == 0
  {
    var s := a + b;
    s % 0x1_0000 + s / 0x1_0000
  }

  /** Bitwise complement of a 16-bit word. */
  function Not16(w: U16): U16 { 0xFFFF - w }

  ghost function Sum(ws: seq<U16>): nat {
    if ws == [] then 0 else ws[0] + Sum(ws[1..])
  }

  ghost predicate HasNonZero(ws: seq<U16>) { exists i :: 0 <= i < |ws| && ws[i] != 0 }

  // ---- Fold is addition modulo 0xFFFF with a distinguished zero ----

  lemma {:induction false} FoldUnique(n: nat, q: int, r: int)
    requires n > 0 && n == r + 0xFFFF * q && 1 <= r <= 0xFFFF
    ensures Fold(n) == r
    decreases n
  {
    assert q >= 0;
    if q > 0 {
      FoldUnique(n - 0xFFFF, q - 1, r);
    }
  }

  lemma {:induction false} FoldSplit(n: nat) returns (q: nat)
    ensures n == Fold(n) + 0xFFFF * q && (n > 0 ==> Fold(n) > 0)
    decreases n
  {
    if n <= 0xFFFF {
      q := 0;
    } else {
      var p := FoldSplit(n - 0xFFFF);
      q := p + 1;
    }
  }

  lemma {:induction false} FoldAdd(a: nat, b: nat)
    ensures Fold(Fold(a) + b) == Fold(a + b)
  {
    var q := FoldSplit(a);
    if Fold(a) + b > 0 {
      var p := FoldSplit(Fold(a) + b);
      FoldUnique(a + b, q + p, Fold(Fold(a) + b));
    }
  }

  /** Two positive sums fold alike exactly when they agree modulo 0xFFFF. */
  lemma {:induction false} FoldCongruent(a: nat, b: nat, q: int)
    requires a == b + 0xFFFF * q && a > 0 && b > 0
    ensures Fold(a) == Fold(b)
  {
    var p := FoldSplit(b);
    FoldUnique(a, q + p, Fold(b));
  }

  lemma {:induction false} SumPositive(ws: seq<U16>)
    ensures Sum(ws) > 0 <==> HasNonZero(ws)
  {
    if ws != [] {
      SumPositive(ws[1..]);
      if HasNonZero(ws[1..]) {
        var i :| 0 <= i < |ws[1..]| && ws[1..][i] != 0;
        assert ws[i + 1] != 0;
      }
      if HasNonZero(ws) && ws[0] == 0 {
        var i :| 0 <= i < |ws| && ws[i] != 0;
        assert ws[1..][i - 1] != 0;
      }
    }
  }

  lemma {:induction false} SumUpdate(ws: seq<U16>, i: nat, w: U16)
    requires i < |ws|
    ensures Sum(ws[i := w]) == Sum(ws) - ws[i] + w
  {
    if i > 0 {
      assert ws[i := w][1..] == ws[1..][i - 1 := w];
      SumUpdate(ws[1..], i - 1, w);
    } else {
      assert ws[0 := w][1..] == ws[1..];
    }
  }

  // ---- Full computation ----

  lemma {:induction false} SumAppend(ws: seq<U16>, w: U16)
    ensures Sum(ws + [w]) == Sum(ws) + w
  {
    if ws != [] {
      assert (ws + [w])[1..] == ws[1..] + [w];
      SumAppend(ws[1..], w);
    } else {
      assert (ws + [w])[1..] == [];
    }
  }

  lemma {:induction false} FoldSelf(w: U16)
    ensures Fold(w) == w
  {
    if w > 0 {
      FoldUnique(w, 0, w);
    }
  }

  /** Accumulate words with `Add1c`, left to right. */
  method FoldWords(acc0: U16, ws: seq<U16>) returns (acc: U16)
    ensures acc == Fold(acc0 + Sum(ws))
  {
    acc := acc0;
    FoldSelf(acc0);
    for i := 0 to |ws|
      invariant acc == Fold(acc0 + Sum(ws[..i]))
    {
      assert ws[..i + 1] == ws[..i] + [ws[i]];
      SumAppend(ws[..i], ws[i]);
      FoldAdd(acc0 + Sum(ws[..i]), ws[i]);
      acc := Add1c(acc, ws[i]);
    }
    assert ws[..|ws|] == ws;
  }

  /** Recomputation from scratch: complement of the folded sum. */
  ghost function Full(ws: seq<U16>): U16 { Not16(Fold(Sum(ws))) }

  // ---- Incremental update ----

  /** What a list of (old, new) word changes adds to the complemented checksum. */
  ghost function Delta(changes: seq<(U16, U16)>): nat {
    if changes == [] then 0
    else Not16(changes[0].0) + changes[0].1 + Delta(changes[1..])
  }

  lemma {:induction false} DeltaAppend(cs: seq<(U16, U16)>, c: (U16, U16))
    ensures Delta(cs + [c]) == Delta(cs) + Not16(c.0) + c.1
  {
    if cs != [] {
      assert (cs + [c])[1..] == cs[1..] + [c];
      DeltaAppend(cs[1..], c);
    } else {
      assert (cs + [c])[1..] == [];
    }
  }

  ghost function Incr(oldCheck: U16, changes: seq<(U16, U16)>): U16 {
    Not16(Fold(Not16(oldCheck) + Delta(changes)))
  }

  lemma {:induction false} TwoAdds(before: nat, a: U16, b: U16)
    ensures Add1c(Add1c(Fold(before), a), b) == Fold(before + a + b)
  {
    FoldAdd(before, a);
    FoldAdd(before + a, b);
  }

  method ChecksumIncr(oldCheck: U16, changes: seq<(U16, U16)>) returns (r: U16)
    ensures r == Incr(oldCheck, changes)
  {
    var acc := Not16(oldCheck);
    FoldSelf(acc);
    for i := 0 to |changes|
      invariant acc == Fold(Not16(oldCheck) + Delta(changes[..i]))
    {
      var (m, mp) := changes[i];
      assert changes[..i + 1] == changes[..i] + [changes[i]];
      DeltaAppend(changes[..i], changes[i]);
      TwoAdds(Not16(oldCheck) + Delta(changes[..i]), Not16(m), mp);
      acc := Add1c(acc, Not16(m));
      acc := Add1c(acc, mp);
    }
    assert changes[..|changes|] == changes;
    r := Not16(acc);
  }

  // ---- Incremental equals full ----

  /** Overwrite word `at` of a list with `word`. */
  datatype Edit = Edit(at: nat, word: U16)

  ghost predicate Fits(ws: seq<U16>, edits: seq<Edit>) {
    forall k :: 0 <= k < |edits| ==> edits[k].at < |ws|
  }

  ghost function Apply(ws: seq<U16>, edits: seq<Edit>): (r: seq<U16>)
    requires Fits(ws, edits)
    ensures |r| == |ws|
    decreases |edits|
  {
    if edits == [] then ws
    else Apply(ws[edits[0].at := edits[0].word], edits[1..])
  }

  /** The (old, new) pairs a caller passes for those edits. */
  ghost function Changes(ws: seq<U16>, edits: seq<Edit>): (r: seq<(U16, U16)>)
    requires Fits(ws, edits)
    ensures |r| == |edits|
    decreases |edits|
  {
    if edits == [] then []
    else [(ws[edits[0].at], edits[0].word)]
         + Changes(ws[edits[0].at := edits[0].word], edits[1..])
  }

  lemma {:induction false} DeltaIsShift(ws: seq<U16>, edits: seq<Edit>)
    requires Fits(ws, edits)
    ensures Sum(ws) + Delta(Changes(ws, edits)) == Sum(Apply(ws, edits)) + 0xFFFF * |edits|
    decreases |edits|
  {
    if edits != [] {
      var e := edits[0];
      SumUpdate(ws, e.at, e.word);
      DeltaIsShift(ws[e.at := e.word], edits[1..]);
      assert Changes(ws, edits)[1..] == Changes(ws[e.at := e.word], edits[1..]);
    }
  }

  /** RFC 1624 against RFC 1071: for any words, any list of edits and the true old checksum,
      the incremental checksum is the recomputed one exactly when there was nothing to change
      or the new words are not all zero. (On all-zero words the incremental form gives 0x0000
      and recomputation 0xFFFF.) */
  lemma {:induction false} IncrementalEqualsFull(ws: seq<U16>, edits: seq<Edit>)
    requires Fits(ws, edits)
    ensures Incr(Full(ws), Changes(ws, edits)) == Full(Apply(ws, edits))
            <==> edits == [] || HasNonZero(Apply(ws, edits))
    ensures edits != [] && !HasNonZero(Apply(ws, edits)) ==>
              Incr(Full(ws), Changes(ws, edits)) == 0 && Full(Apply(ws, edits)) == 0xFFFF
  {
    var nw := Apply(ws, edits);
    var d := Delta(Changes(ws, edits));
    DeltaIsShift(ws, edits);
    SumPositive(nw);
    FoldAdd(Sum(ws), d);
    assert Incr(Full(ws), Changes(ws, edits)) == Not16(Fold(Sum(ws) + d));
    if Sum(nw) > 0 {
      FoldCongruent(Sum(ws) + d, Sum(nw), |edits|);
    } else if edits != [] {
      FoldUnique(Sum(ws) + d, |edits| - 1, 0xFFFF);
    }
  }

  /** A list whose sum, checksum field included, folds to 0xFFFF stays so under edits of words
      `edits` plus the incremental update of the field, unless everything became zero. */
  lemma {:induction false} FieldUpdateKeepsValid(before: nat, rest: int, field: U16, changes: seq<(U16, U16)>)
    requires before > 0 && Fold(before) == 0xFFFF
    requires rest == before - field + Delta(changes) - 0xFFFF * |changes|
    requires rest + Incr(field, changes) >= 0
    ensures var after := rest + Incr(field, changes);
            (Fold(after) == 0xFFFF <==> after > 0) && (Fold(after) == 0 <==> after == 0)
  {
    var after: nat := rest + Incr(field, changes);
    var q := FoldSplit(before);
    var p := FoldSplit(Not16(field) + Delta(changes));
    assert after == 0xFFFF * (q + 1 + p - |changes|);
    if after > 0 {
      FoldUnique(after, q + p - |changes|, 0xFFFF);
    }
  }
}
