/** The L4 checksum of a frame before and after a NAPT rewrite. */
module NaptChecksum {
  import opened Wire
  import opened NatTable
  import opened Napt
  import C = Checksum

  /** Sum of the big-endian words of f[lo..hi], an odd last byte padded with zero. */
  ghost function SegSum(f: seq<Byte>, lo: nat, hi: nat): nat
    requires lo <= hi <= |f|
    decreases hi - lo
  {
    if lo == hi then 0
    else if lo + 1 == hi then Be16(f[lo], 0)
    else Rd16(f, lo) + SegSum(f, lo + 2, hi)
  }

  function SegEnd(f: seq<Byte>): nat
    requires |f| >= ETH + 20
  {
    ETH + Rd16(f, 16)
  }

  function HeaderLen(proto: Proto): nat { if proto == Tcp then 20 else 8 }

  /** The IP total length covers the L4 header and fits in the frame. */
  predicate WellFormed(f: seq<Byte>, l4: L4) {
    ParseL4(f) == Some(l4) && l4.off + HeaderLen(l4.proto) <= SegEnd(f) <= |f|
  }

  /** Addresses, protocol and L4 length; ICMP has no pseudo-header. */
  ghost function PseudoSum(f: seq<Byte>, l4: L4): nat
    requires WellFormed(f, l4)
  {
    if l4.proto == IcmpEcho then 0
    else Rd16(f, 26) + Rd16(f, 28) + Rd16(f, 30) + Rd16(f, 32) + f[ETH + 9] + (SegEnd(f) - l4.off)
  }

  /** Everything the checksum covers, its own field included. */
  ghost function L4Sum(f: seq<Byte>, l4: L4): nat
    requires WellFormed(f, l4)
  {
    PseudoSum(f, l4) + SegSum(f, l4.off, SegEnd(f))
  }

  ghost predicate ChecksumValid(f: seq<Byte>, l4: L4)
    requires WellFormed(f, l4)
  {
    C.Fold(L4Sum(f, l4)) == 0xFFFF
  }

  /** Accumulate the words of f[lo..hi] with end-around carry. */
  method FoldRange(acc0: U16, f: seq<Byte>, lo: nat, hi: nat) returns (acc: U16)
    requires lo <= hi <= |f|
    ensures acc == C.Fold(acc0 + SegSum(f, lo, hi))
  {
    acc := acc0;
    var i := lo;
    while i + 1 < hi
      invariant lo <= i <= hi
      invariant C.Fold(acc + SegSum(f, i, hi)) == C.Fold(acc0 + SegSum(f, lo, hi))
    {
      C.FoldAdd(acc + Rd16(f, i), SegSum(f, i + 2, hi));
      acc := C.Add1c(acc, Rd16(f, i));
      i := i + 2;
    }
    C.FoldSelf(acc);
    if i < hi {
      acc := C.Add1c(acc, Be16(f[i], 0));
    }
  }

  /** The full computation over a byte string, an odd last byte included: fold and complement. */
  method ChecksumFull(data: seq<Byte>) returns (r: U16)
    ensures r == C.Not16(C.Fold(SegSum(data, 0, |data|)))
  {
    var acc := FoldRange(0, data, 0, |data|);
    r := C.Not16(acc);
  }

  lemma {:induction false} AddressWords(f: seq<Byte>)
    requires |f| >= 34
    ensures SegSum(f, 26, 34) == Rd16(f, 26) + Rd16(f, 28) + Rd16(f, 30) + Rd16(f, 32)
  {
    assert SegSum(f, 32, 34) == Rd16(f, 32) + SegSum(f, 34, 34);
    assert SegSum(f, 30, 34) == Rd16(f, 30) + SegSum(f, 32, 34);
    assert SegSum(f, 28, 34) == Rd16(f, 28) + SegSum(f, 30, 34);
  }

  method AddTwo(acc: U16, ghost before: nat, a: U16, b: U16) returns (r: U16)
    requires acc == C.Fold(before)
    ensures r == C.Fold(before + a + b)
  {
    C.TwoAdds(before, a, b);
    r := C.Add1c(acc, a);
    r := C.Add1c(r, b);
  }

  method PseudoAcc(f: seq<Byte>, l4: L4) returns (acc: U16)
    requires WellFormed(f, l4)
    ensures acc == C.Fold(PseudoSum(f, l4))
  {
    acc := 0;
    if l4.proto != IcmpEcho {
      AddressWords(f);
      acc := FoldRange(0, f, 26, 34);
      acc := AddTwo(acc, SegSum(f, 26, 34), f[ETH + 9], SegEnd(f) - l4.off);
    }
  }

  /** The reference validator: pseudo-header and segment accumulated with end-around carry. */
  method L4Valid(f: seq<Byte>, l4: L4) returns (ok: bool)
    requires WellFormed(f, l4)
    ensures ok == ChecksumValid(f, l4)
  {
    var acc := PseudoAcc(f, l4);
    C.FoldAdd(PseudoSum(f, l4), SegSum(f, l4.off, SegEnd(f)));
    acc := FoldRange(acc, f, l4.off, SegEnd(f));
    ok := acc == 0xFFFF;
  }

  // ---- How writes move the sum ----

  lemma {:induction false} SegSumSame(f: seq<Byte>, g: seq<Byte>, lo: nat, hi: nat)
    requires lo <= hi <= |f| == |g| && f[lo..hi] == g[lo..hi]
    ensures SegSum(f, lo, hi) == SegSum(g, lo, hi)
    decreases hi - lo
  {
    assert forall k :: lo <= k < hi ==> f[k] == f[lo..hi][k - lo] && g[k] == g[lo..hi][k - lo];
    if lo + 1 < hi {
      assert f[lo + 2..hi] == g[lo + 2..hi];
      SegSumSame(f, g, lo + 2, hi);
    }
  }

  /** g differs from f at most in the word at `a`. */
  lemma {:induction false} SegSumWord(f: seq<Byte>, g: seq<Byte>, lo: nat, hi: nat, a: nat)
    requires lo <= a && a + 2 <= hi <= |f| == |g| && (a - lo) % 2 == 0
    requires forall k :: lo <= k < hi && k != a && k != a + 1 ==> g[k] == f[k]
    ensures SegSum(g, lo, hi) == SegSum(f, lo, hi) - Rd16(f, a) + Rd16(g, a)
    decreases hi - lo
  {
    if a == lo {
      assert f[lo + 2..hi] == g[lo + 2..hi];
      SegSumSame(f, g, lo + 2, hi);
    } else {
      SegSumWord(f, g, lo + 2, hi, a);
    }
  }

  lemma {:induction false} SegSumWords(f: seq<Byte>, g: seq<Byte>, lo: nat, hi: nat, a: nat, b: nat)
    requires lo <= a && a + 2 <= hi <= |f| == |g| && (a - lo) % 2 == 0
    requires lo <= b && b + 2 <= hi && (b - lo) % 2 == 0 && a != b
    requires forall k :: lo <= k < hi && k != a && k != a + 1 && k != b && k != b + 1 ==> g[k] == f[k]
    ensures SegSum(g, lo, hi)
            == SegSum(f, lo, hi) - Rd16(f, a) + Rd16(g, a) - Rd16(f, b) + Rd16(g, b)
  {
    var h := f[a := g[a]][a + 1 := g[a + 1]];
    SegSumWord(f, h, lo, hi, a);
    SegSumWord(h, g, lo, hi, b);
  }

  lemma {:induction false} SegSumZero(f: seq<Byte>, lo: nat, hi: nat)
    requires lo <= hi <= |f|
    ensures SegSum(f, lo, hi) == 0 <==> forall k :: lo <= k < hi ==> f[k] == 0
    decreases hi - lo
  {
    if lo + 1 < hi {
      SegSumZero(f, lo + 2, hi);
      assert (forall k :: lo <= k < hi ==> f[k] == 0)
             <==> f[lo] == 0 && f[lo + 1] == 0 && (forall k :: lo + 2 <= k < hi ==> f[k] == 0);
    }
  }

  // ---- What a rewrite changes ----

  /** The parse after a rewrite: only the rewritten id moves. */
  function Renamed(l4: L4, side: Side, id: U16): L4 {
    if l4.proto == IcmpEcho || side == Src then l4.(srcId := id) else l4.(dstId := id)
  }

  /** Byte k belongs to the address, id or checksum field. */
  predicate Rewritten(l4: L4, side: Side, k: nat) {
    || IpOff(side) <= k < IpOff(side) + 4
    || IdOff(l4, side) <= k < IdOff(l4, side) + 2
    || l4.csumOff <= k < l4.csumOff + 2
  }

  /** g is f with a new address and id and the matching checksum field, and nothing else. */
  ghost predicate IsRewrite(f: seq<Byte>, g: seq<Byte>, l4: L4, side: Side, ip: Ip, id: U16)
    requires ParseL4(f) == Some(l4)
  {
    && |g| == |f|
    && RdIp(g, IpOff(side)) == ip
    && Rd16(g, IdOff(l4, side)) == id
    && Rd16(g, l4.csumOff) == (if ChecksumDisabled(f, l4) then 0
                               else C.Incr(Rd16(f, l4.csumOff), WordChanges(f, l4, side, ip, id)))
    && (forall k :: 0 <= k < |f| && !Rewritten(l4, side, k) ==> g[k] == f[k])
  }

  /** A rewrite stays in bounds and touches the address, the id and the checksum field only. */
  lemma RewriteIsLocal(f: seq<Byte>, l4: L4, side: Side, ip: Ip, id: U16)
    requires ParseL4(f) == Some(l4)
    ensures IsRewrite(f, Rewrite(f, l4, side, ip, id), l4, side, ip, id)
  {
  }

  /** Parsed again, a rewritten frame shows the new id and is otherwise the same. */
  lemma RewriteReparses(f: seq<Byte>, g: seq<Byte>, l4: L4, side: Side, ip: Ip, id: U16)
    requires ParseL4(f) == Some(l4) && IsRewrite(f, g, l4, side, ip, id)
    ensures ParseL4(g) == Some(Renamed(l4, side, id))
    ensures WellFormed(f, l4) ==> WellFormed(g, Renamed(l4, side, id)) && SegEnd(g) == SegEnd(f)
  {
  }

  /** The rewritten fields of the segment lie inside it, on word boundaries, and apart. */
  lemma {:induction false} FieldsInSegment(f: seq<Byte>, l4: L4, side: Side)
    requires WellFormed(f, l4)
    ensures var lo, hi, a, b := l4.off, SegEnd(f), l4.csumOff, IdOff(l4, side);
            && lo <= a && a + 2 <= hi <= |f| && (a - lo) % 2 == 0
            && lo <= b && b + 2 <= hi && (b - lo) % 2 == 0 && a != b && 34 <= lo
  {
  }

  lemma {:induction false} SegMoves(f: seq<Byte>, g: seq<Byte>, l4: L4, side: Side, ip: Ip, id: U16)
    requires WellFormed(f, l4) && IsRewrite(f, g, l4, side, ip, id)
    ensures SegSum(g, l4.off, SegEnd(f))
            == SegSum(f, l4.off, SegEnd(f)) - Rd16(f, l4.csumOff) + Rd16(g, l4.csumOff)
               - Rd16(f, IdOff(l4, side)) + id
  {
    FieldsInSegment(f, l4, side);
    SegSumWords(f, g, l4.off, SegEnd(f), l4.csumOff, IdOff(l4, side));
  }

  /** New words less old words of a rewrite, as the pseudo-header and the segment see them. */
  ghost function Moved(f: seq<Byte>, l4: L4, side: Side, ip: Ip, id: U16): int
    requires ParseL4(f) == Some(l4)
  {
    id - Rd16(f, IdOff(l4, side))
    + (if l4.proto == IcmpEcho then 0
       else AddrWords(ip).0 + AddrWords(ip).1 - Rd16(f, IpOff(side)) - Rd16(f, IpOff(side) + 2))
  }

  lemma {:induction false} DeltaOfOne(c: (U16, U16))
    ensures C.Delta([c]) == C.Not16(c.0) + c.1
  {
    assert [c][1..] == [];
  }

  lemma {:induction false} DeltaOfThree(a: (U16, U16), b: (U16, U16), c: (U16, U16))
    ensures C.Delta([a, b, c]) == 3 * 0xFFFF - a.0 + a.1 - b.0 + b.1 - c.0 + c.1
  {
    DeltaOfOne(c);
    assert [b, c][1..] == [c];
    assert [a, b, c][1..] == [b, c];
  }

  lemma {:induction false} AddressWordsAt(f: seq<Byte>, i: nat)
    requires i + 3 < |f|
    ensures AddrWords(RdIp(f, i)) == (Rd16(f, i), Rd16(f, i + 2))
  {
  }

  lemma {:induction false} DeltaOf(f: seq<Byte>, l4: L4, side: Side, ip: Ip, id: U16)
    requires ParseL4(f) == Some(l4)
    ensures var cs := WordChanges(f, l4, side, ip, id);
            C.Delta(cs) - 0xFFFF * |cs| == Moved(f, l4, side, ip, id)
  {
    AddressWordsAt(f, IpOff(side));
    var port := (Rd16(f, IdOff(l4, side)), id);
    if l4.proto == IcmpEcho {
      DeltaOfOne(port);
    } else {
      var (nh, nl) := AddrWords(ip);
      DeltaOfThree((Rd16(f, IpOff(side)), nh), (Rd16(f, IpOff(side) + 2), nl), port);
    }
  }

  lemma {:induction false} PseudoMoves(f: seq<Byte>, g: seq<Byte>, l4: L4, side: Side, ip: Ip, id: U16)
    requires WellFormed(f, l4) && IsRewrite(f, g, l4, side, ip, id)
    requires WellFormed(g, Renamed(l4, side, id)) && SegEnd(g) == SegEnd(f)
    ensures PseudoSum(g, Renamed(l4, side, id))
            == PseudoSum(f, l4) + (if l4.proto == IcmpEcho then 0
                                   else AddrWords(ip).0 + AddrWords(ip).1
                                        - Rd16(f, IpOff(side)) - Rd16(f, IpOff(side) + 2))
  {
    assert Rd16(g, IpOff(side)) == AddrWords(ip).0 && Rd16(g, IpOff(side) + 2) == AddrWords(ip).1;
  }

  /** Checksum arithmetic of one rewrite: the covered sum moves by the new field and the words. */
  lemma {:induction false} RewriteMovesSum(f: seq<Byte>, g: seq<Byte>, l4: L4, side: Side, ip: Ip, id: U16)
    requires WellFormed(f, l4) && !ChecksumDisabled(f, l4) && IsRewrite(f, g, l4, side, ip, id)
    ensures var n := Renamed(l4, side, id);
            var cs := WordChanges(f, l4, side, ip, id);
            && WellFormed(g, n)
            && L4Sum(g, n) == L4Sum(f, l4) - Rd16(f, l4.csumOff) + C.Delta(cs) - 0xFFFF * |cs|
                              + C.Incr(Rd16(f, l4.csumOff), cs)
  {
    RewriteReparses(f, g, l4, side, ip, id);
    SegMoves(f, g, l4, side, ip, id);
    DeltaOf(f, l4, side, ip, id);
    PseudoMoves(f, g, l4, side, ip, id);
  }

  // ---- The checksum stays valid ----

  /** All covered bytes but the checksum and id fields are zero. */
  ghost predicate RestIsZero(f: seq<Byte>, l4: L4)
    requires WellFormed(f, l4)
  {
    forall k :: l4.off <= k < SegEnd(f) && !(l4.off + 2 <= k < l4.off + 6) ==> f[k] == 0
  }

  /** The one family of packets whose checksum a rewrite spoils: an echo reply, otherwise all
      zero, renamed to id 0. */
  ghost predicate Spoilt(f: seq<Byte>, l4: L4, id: U16)
    requires WellFormed(f, l4)
  {
    l4.proto == IcmpEcho && id == 0 && RestIsZero(f, l4)
    && !(Rd16(f, l4.csumOff) == 0xFFFF && l4.srcId == 0xFFFF)
  }

  /** A rewrite of a valid frame has a covered sum that is zero or folds to 0xFFFF. */
  lemma {:induction false} ValidUnlessZero(f: seq<Byte>, g: seq<Byte>, l4: L4, side: Side, ip: Ip, id: U16)
    requires WellFormed(f, l4) && !ChecksumDisabled(f, l4) && ChecksumValid(f, l4)
    requires IsRewrite(f, g, l4, side, ip, id)
    ensures var n := Renamed(l4, side, id);
            WellFormed(g, n) && (ChecksumValid(g, n) <==> L4Sum(g, n) > 0)
  {
    var cs, field := WordChanges(f, l4, side, ip, id), Rd16(f, l4.csumOff);
    RewriteMovesSum(f, g, l4, side, ip, id);
    C.FieldUpdateKeepsValid(L4Sum(f, l4), L4Sum(f, l4) - field + C.Delta(cs) - 0xFFFF * |cs|, field, cs);
  }

  /** A segment that is zero apart from checksum and id sums to those two words. */
  lemma {:induction false} OnlyFields(f: seq<Byte>, l4: L4)
    requires WellFormed(f, l4) && l4.proto == IcmpEcho && RestIsZero(f, l4)
    ensures L4Sum(f, l4) == Rd16(f, l4.off + 2) + Rd16(f, l4.off + 4)
  {
    var lo, hi := l4.off, SegEnd(f);
    SegSumZero(f, lo + 6, hi);
    assert SegSum(f, lo + 4, hi) == Rd16(f, lo + 4) + SegSum(f, lo + 6, hi);
    assert SegSum(f, lo + 2, hi) == Rd16(f, lo + 2) + SegSum(f, lo + 4, hi);
  }

  /** The new field of such a packet renamed to id 0. */
  lemma {:induction false} EchoFieldAfter(field: U16, oldId: U16)
    requires C.Fold(field + oldId) == 0xFFFF
    ensures C.Incr(field, [(oldId, 0)]) == if field == 0xFFFF && oldId == 0xFFFF then 0xFFFF else 0
  {
    assert [(oldId, 0)][1..] == [];
    assert C.Delta([(oldId, 0)]) == 0xFFFF - oldId;
    var q := C.FoldSplit(field + oldId);
  }

  lemma {:induction false} EchoField(f: seq<Byte>, g: seq<Byte>, l4: L4, side: Side, ip: Ip, id: U16)
    requires ParseL4(f) == Some(l4) && l4.proto == IcmpEcho && IsRewrite(f, g, l4, side, ip, id)
    ensures Rd16(g, l4.csumOff) == C.Incr(Rd16(f, l4.csumOff), [(l4.srcId, id)])
  {
    assert WordChanges(f, l4, side, ip, id) == [(l4.srcId, id)];
  }

  lemma {:induction false} ZeroWord(g: seq<Byte>, i: nat)
    requires i + 1 < |g|
    ensures Rd16(g, i) == 0 <==> g[i] == 0 && g[i + 1] == 0
  {
  }

  /** Bytes lo..hi are zero but for the word at lo + 2. */
  ghost predicate ZeroButField(g: seq<Byte>, lo: nat, hi: nat) {
    lo + 4 <= hi <= |g| && forall k :: lo <= k < hi && !(lo + 2 <= k < lo + 4) ==> g[k] == 0
  }

  lemma {:induction false} FieldDecides(g: seq<Byte>, lo: nat, hi: nat)
    requires ZeroButField(g, lo, hi)
    ensures (forall k :: lo <= k < hi ==> g[k] == 0) <==> Rd16(g, lo + 2) == 0
  {
    ZeroWord(g, lo + 2);
  }

  /** In an echo only checksum and id change. */
  lemma {:induction false} EchoUnchanged(f: seq<Byte>, g: seq<Byte>, l4: L4, side: Side, ip: Ip, id: U16, k: nat)
    requires ParseL4(f) == Some(l4) && l4.proto == IcmpEcho && IsRewrite(f, g, l4, side, ip, id)
    requires l4.off <= k < |f| && !(l4.off + 2 <= k < l4.off + 6)
    ensures g[k] == f[k]
  {
    assert !Rewritten(l4, side, k);
  }

  lemma {:induction false} EchoNewId(f: seq<Byte>, g: seq<Byte>, l4: L4, side: Side, ip: Ip, id: U16)
    requires ParseL4(f) == Some(l4) && l4.proto == IcmpEcho && IsRewrite(f, g, l4, side, ip, id)
    ensures Rd16(g, l4.off + 4) == id
  {
  }

  lemma {:induction false} ZeroRest(f: seq<Byte>, g: seq<Byte>, lo: nat, hi: nat)
    requires lo + 6 <= hi <= |f| == |g| && Rd16(g, lo + 4) == 0
    requires forall k :: lo <= k < hi && !(lo + 2 <= k < lo + 6) ==> g[k] == f[k] == 0
    ensures ZeroButField(g, lo, hi)
  {
    ZeroWord(g, lo + 4);
  }

  lemma {:induction false} EchoAllZeroBut(f: seq<Byte>, g: seq<Byte>, l4: L4, side: Side, ip: Ip, id: U16)
    requires WellFormed(f, l4) && l4.proto == IcmpEcho && RestIsZero(f, l4)
    requires IsRewrite(f, g, l4, side, ip, id) && id == 0
    ensures ZeroButField(g, l4.off, SegEnd(f))
  {
    EchoNewId(f, g, l4, side, ip, id);
    forall k | l4.off <= k < SegEnd(f) && !(l4.off + 2 <= k < l4.off + 6)
      ensures g[k] == f[k] == 0
    {
      EchoUnchanged(f, g, l4, side, ip, id, k);
    }
    ZeroRest(f, g, l4.off, SegEnd(f));
  }

  lemma {:induction false} EchoFieldValue(f: seq<Byte>, g: seq<Byte>, l4: L4, side: Side, ip: Ip, id: U16)
    requires WellFormed(f, l4) && l4.proto == IcmpEcho && ChecksumValid(f, l4)
    requires IsRewrite(f, g, l4, side, ip, id) && id == 0 && RestIsZero(f, l4)
    ensures (forall k :: l4.off <= k < SegEnd(f) ==> g[k] == 0)
            <==> !(Rd16(f, l4.csumOff) == 0xFFFF && l4.srcId == 0xFFFF)
  {
    OnlyFields(f, l4);
    EchoFieldAfter(Rd16(f, l4.csumOff), l4.srcId);
    EchoField(f, g, l4, side, ip, id);
    EchoAllZeroBut(f, g, l4, side, ip, id);
    FieldDecides(g, l4.off, SegEnd(f));
  }

  lemma {:induction false} EchoNotZero(f: seq<Byte>, g: seq<Byte>, l4: L4, side: Side, ip: Ip, id: U16)
    requires WellFormed(f, l4) && l4.proto == IcmpEcho
    requires IsRewrite(f, g, l4, side, ip, id) && !(id == 0 && RestIsZero(f, l4))
    ensures exists k :: l4.off <= k < SegEnd(f) && g[k] != 0
  {
    if id != 0 {
      assert g[l4.off + 4] != 0 || g[l4.off + 5] != 0;
    } else {
      var k :| l4.off <= k < SegEnd(f) && !(l4.off + 2 <= k < l4.off + 6) && f[k] != 0;
      assert g[k] != 0;
    }
  }

  /** Outside ICMP the covered sum includes the protocol number. */
  lemma {:induction false} SumWithProtocol(f: seq<Byte>, l4: L4)
    requires WellFormed(f, l4) && l4.proto != IcmpEcho
    ensures L4Sum(f, l4) > 0
  {
    assert f[ETH + 9] > 0;
  }

  /** The segment of such a rewrite sums to zero exactly in the one family. */
  lemma {:induction false} EchoSegment(f: seq<Byte>, g: seq<Byte>, l4: L4, side: Side, ip: Ip, id: U16)
    requires WellFormed(f, l4) && l4.proto == IcmpEcho && ChecksumValid(f, l4)
    requires IsRewrite(f, g, l4, side, ip, id)
    ensures SegSum(g, l4.off, SegEnd(f)) == 0 <==> Spoilt(f, l4, id)
  {
    SegSumZero(g, l4.off, SegEnd(f));
    if id == 0 && RestIsZero(f, l4) {
      EchoFieldValue(f, g, l4, side, ip, id);
    } else {
      EchoNotZero(f, g, l4, side, ip, id);
    }
  }

  lemma {:induction false} EchoSum(f: seq<Byte>, g: seq<Byte>, l4: L4, side: Side, ip: Ip, id: U16)
    requires WellFormed(f, l4) && l4.proto == IcmpEcho && ChecksumValid(f, l4)
    requires IsRewrite(f, g, l4, side, ip, id)
    ensures WellFormed(g, Renamed(l4, side, id))
    ensures L4Sum(g, Renamed(l4, side, id)) > 0 <==> !Spoilt(f, l4, id)
  {
    RewriteReparses(f, g, l4, side, ip, id);
    EchoSegment(f, g, l4, side, ip, id);
  }

  lemma {:induction false} KeepsChecksum(f: seq<Byte>, g: seq<Byte>, l4: L4, side: Side, ip: Ip, id: U16)
    requires WellFormed(f, l4) && !ChecksumDisabled(f, l4) && ChecksumValid(f, l4)
    requires IsRewrite(f, g, l4, side, ip, id)
    ensures WellFormed(g, Renamed(l4, side, id))
    ensures ChecksumValid(g, Renamed(l4, side, id)) <==> !Spoilt(f, l4, id)
  {
    ValidUnlessZero(f, g, l4, side, ip, id);
    if l4.proto == IcmpEcho {
      EchoSum(f, g, l4, side, ip, id);
    } else {
      SumWithProtocol(g, Renamed(l4, side, id));
    }
  }

  /** For every well-formed frame, any IHL, with a valid TCP, UDP (checksum in use) or ICMP
      checksum, either rewrite yields a frame with a valid checksum, except exactly the
      packets `Spoilt` describes. */
  lemma {:induction false} RewriteKeepsChecksum(f: seq<Byte>, l4: L4, side: Side, ip: Ip, id: U16)
    requires WellFormed(f, l4) && !ChecksumDisabled(f, l4) && ChecksumValid(f, l4)
    ensures WellFormed(Rewrite(f, l4, side, ip, id), Renamed(l4, side, id))
    ensures ChecksumValid(Rewrite(f, l4, side, ip, id), Renamed(l4, side, id))
            <==> !Spoilt(f, l4, id)
  {
    RewriteIsLocal(f, l4, side, ip, id);
    KeepsChecksum(f, Rewrite(f, l4, side, ip, id), l4, side, ip, id);
  }

  /** Outbound, the new id is at least 49152, so no packet is spoilt. */
  lemma {:induction false} OutboundRewriteKeepsChecksum(f: seq<Byte>, l4: L4, ip: Ip, id: U16)
    requires WellFormed(f, l4) && !ChecksumDisabled(f, l4) && ChecksumValid(f, l4) && id >= NAT_LO
    ensures WellFormed(Rewrite(f, l4, Src, ip, id), Renamed(l4, Src, id))
    ensures ChecksumValid(Rewrite(f, l4, Src, ip, id), Renamed(l4, Src, id))
  {
    RewriteKeepsChecksum(f, l4, Src, ip, id);
  }

  /** Field and old words are all 0xFFFF and the new ones 0: nothing to add up. */
  ghost predicate NothingToAdd(f: seq<Byte>, l4: L4, side: Side, ip: Ip, id: U16)
    requires ParseL4(f) == Some(l4)
  {
    Rd16(f, l4.csumOff) == 0xFFFF
    && forall i :: 0 <= i < |WordChanges(f, l4, side, ip, id)| ==> WordChanges(f, l4, side, ip, id)[i] == (0xFFFF, 0)
  }

  lemma {:induction false} DeltaZero(cs: seq<(U16, U16)>)
    ensures C.Delta(cs) == 0 <==> forall i :: 0 <= i < |cs| ==> cs[i] == (0xFFFF, 0)
  {
    if cs != [] {
      DeltaZero(cs[1..]);
      assert forall i :: 1 <= i < |cs| ==> cs[i] == cs[1..][i - 1];
      if C.Delta(cs) == 0 {
        forall i | 0 <= i < |cs|
          ensures cs[i] == (0xFFFF, 0)
        {
          assert i > 0 ==> cs[i] == cs[1..][i - 1];
        }
      } else {
        assert forall i :: 0 <= i < |cs[1..]| ==> cs[1..][i] == cs[i + 1];
      }
    }
  }

  lemma {:induction false} NothingExactlyWhenZero(f: seq<Byte>, l4: L4, side: Side, ip: Ip, id: U16)
    requires ParseL4(f) == Some(l4)
    ensures C.Not16(Rd16(f, l4.csumOff)) + C.Delta(WordChanges(f, l4, side, ip, id)) == 0
            <==> NothingToAdd(f, l4, side, ip, id)
  {
    DeltaZero(WordChanges(f, l4, side, ip, id));
  }

  /** The accumulator x behind the new field, and how the covered sum moved. */
  lemma {:induction false} UdpField(f: seq<Byte>, g: seq<Byte>, l4: L4, side: Side, ip: Ip, id: U16) returns (x: nat)
    requires WellFormed(f, l4) && l4.proto == Udp && !ChecksumDisabled(f, l4) && ChecksumValid(f, l4)
    requires IsRewrite(f, g, l4, side, ip, id)
    ensures var n := Renamed(l4, side, id);
            && WellFormed(g, n) && C.Fold(L4Sum(g, n)) == 0xFFFF
            && (ChecksumDisabled(g, n) <==> C.Not16(C.Fold(x)) == 0)
            && L4Sum(g, n) == L4Sum(f, l4) - Rd16(f, l4.csumOff) + Moved(f, l4, side, ip, id) + C.Not16(C.Fold(x))
    ensures x == 0 <==> NothingToAdd(f, l4, side, ip, id)
  {
    var cs := WordChanges(f, l4, side, ip, id);
    x := C.Not16(Rd16(f, l4.csumOff)) + C.Delta(cs);
    KeepsChecksum(f, g, l4, side, ip, id);
    RewriteReparses(f, g, l4, side, ip, id);
    RewriteMovesSum(f, g, l4, side, ip, id);
    DeltaOf(f, l4, side, ip, id);
    NothingExactlyWhenZero(f, l4, side, ip, id);
  }

  lemma {:induction false} FieldZero(before: nat, after: nat, field: U16, moved: int, x: nat)
    requires C.Fold(before) == 0xFFFF && C.Fold(after) == 0xFFFF
    requires after == before - field + moved + C.Not16(C.Fold(x))
    ensures C.Not16(C.Fold(x)) == 0 <==> (moved - field) % 0xFFFF == 0 && x > 0
  {
    var p := C.FoldSplit(before);
    var q := C.FoldSplit(after);
    var z := C.FoldSplit(x);
    var c: int := C.Not16(C.Fold(x));
    var k: int := (q as int) - (p as int);
    assert moved - field == 0xFFFF * k - c;
    if 0 < c < 0xFFFF {
      assert moved - field == 0xFFFF * (k - 1) + (0xFFFF - c);
    }
  }

  lemma {:induction false} UdpVanishes(f: seq<Byte>, g: seq<Byte>, l4: L4, side: Side, ip: Ip, id: U16)
    requires WellFormed(f, l4) && l4.proto == Udp && !ChecksumDisabled(f, l4) && ChecksumValid(f, l4)
    requires IsRewrite(f, g, l4, side, ip, id)
    ensures WellFormed(g, Renamed(l4, side, id))
    ensures ChecksumDisabled(g, Renamed(l4, side, id))
            <==> (Moved(f, l4, side, ip, id) - Rd16(f, l4.csumOff)) % 0xFFFF == 0
                 && !NothingToAdd(f, l4, side, ip, id)
  {
    var x := UdpField(f, g, l4, side, ip, id);
    FieldZero(L4Sum(f, l4), L4Sum(g, Renamed(l4, side, id)), Rd16(f, l4.csumOff), Moved(f, l4, side, ip, id), x);
  }

  /** RFC 768 reserves field 0 for "no checksum"; the rewrite does not map a computed 0 to
      0xFFFF. A checksummed UDP datagram leaves marked as unchecksummed exactly when the words
      that change, new less old, are congruent to the old field modulo 0xFFFF (unless there is
      nothing to add up at all). */
  lemma {:induction false} UdpChecksumVanishes(f: seq<Byte>, l4: L4, side: Side, ip: Ip, id: U16)
    requires WellFormed(f, l4) && l4.proto == Udp && !ChecksumDisabled(f, l4) && ChecksumValid(f, l4)
    ensures WellFormed(Rewrite(f, l4, side, ip, id), Renamed(l4, side, id))
    ensures ChecksumDisabled(Rewrite(f, l4, side, ip, id), Renamed(l4, side, id))
            <==> (Moved(f, l4, side, ip, id) - Rd16(f, l4.csumOff)) % 0xFFFF == 0
                 && !NothingToAdd(f, l4, side, ip, id)
  {
    RewriteIsLocal(f, l4, side, ip, id);
    UdpVanishes(f, Rewrite(f, l4, side, ip, id), l4, side, ip, id);
  }

  // ---- Packets that go wrong ----

  /** From here to `hi` the words are these. */
  ghost predicate WordsAre(f: seq<Byte>, lo: nat, hi: nat, words: seq<U16>) {
    lo + 2 * |words| == hi <= |f|
    && forall i :: 0 <= i < |words| ==> Rd16(f, lo + 2 * i) == words[i]
  }

  lemma {:induction false} SegSumWordsAre(f: seq<Byte>, lo: nat, hi: nat, words: seq<U16>)
    requires WordsAre(f, lo, hi, words)
    ensures SegSum(f, lo, hi) == C.Sum(words)
    decreases |words|
  {
    if words != [] {
      assert Rd16(f, lo + 2 * 0) == words[0];
      forall i | 0 <= i < |words[1..]|
        ensures Rd16(f, lo + 2 + 2 * i) == words[1..][i]
      {
        assert Rd16(f, lo + 2 * (i + 1)) == words[i + 1];
      }
      SegSumWordsAre(f, lo + 2, hi, words[1..]);
    }
  }

  lemma {:induction false} SumFour(a: U16, b: U16, c: U16, d: U16)
    ensures C.Sum([a, b, c, d]) == a + b + c + d
  {
    assert [d][1..] == [] && C.Sum([d]) == d;
    assert [c, d][1..] == [d] && C.Sum([c, d]) == c + d;
    assert [b, c, d][1..] == [c, d] && C.Sum([b, c, d]) == b + c + d;
    assert [a, b, c, d][1..] == [b, c, d];
  }

  /** A 28-byte IPv4 packet in a 42-byte frame: protocol, addresses, and four words of L4. */
  ghost predicate IsPacket(f: seq<Byte>, proto: Byte, src: Ip, dst: Ip, words: seq<U16>)
    requires |words| == 4
  {
    && |f| == 42 && Rd16(f, 12) == ETHERTYPE_IPV4 && f[14] == 0x45 && Rd16(f, 16) == 28
    && f[23] == proto && RdIp(f, 26) == src && RdIp(f, 30) == dst
    && WordsAre(f, 34, 42, words)
  }

  lemma {:induction false} MakePacket(proto: Byte, src: Ip, dst: Ip, w: seq<U16>) returns (f: seq<Byte>)
    requires |w| == 4
    ensures IsPacket(f, proto, src, dst, w)
  {
    var head := [0, 0, 0, 0, 0, 0, 0, 0, 0, 0, 0, 0, 8, 0, 0x45, 0, 0, 28, 0, 0, 0, 0, 64, proto, 0, 0];
    var addresses := [src.a, src.b, src.c, src.d, dst.a, dst.b, dst.c, dst.d];
    var body := [w[0] / 0x100, w[0] % 0x100, w[1] / 0x100, w[1] % 0x100,
                 w[2] / 0x100, w[2] % 0x100, w[3] / 0x100, w[3] % 0x100];
    f := head + addresses + body;
  }

  lemma {:induction false} PacketSum(f: seq<Byte>, proto: Byte, src: Ip, dst: Ip, w: seq<U16>)
    requires |w| == 4 && IsPacket(f, proto, src, dst, w)
    ensures SegEnd(f) == 42 && SegSum(f, 34, 42) == C.Sum(w)
    ensures Rd16(f, 34) == w[0] && Rd16(f, 36) == w[1] && Rd16(f, 38) == w[2] && Rd16(f, 40) == w[3]
  {
    SegSumWordsAre(f, 34, 42, w);
    SumFour(w[0], w[1], w[2], w[3]);
    assert w == [w[0], w[1], w[2], w[3]];
    assert Rd16(f, 34 + 2 * 0) == w[0] && Rd16(f, 34 + 2 * 1) == w[1];
    assert Rd16(f, 34 + 2 * 2) == w[2] && Rd16(f, 34 + 2 * 3) == w[3];
  }

  lemma {:induction false} EchoIsSpoilt(f: seq<Byte>, l4: L4, src: Ip, dst: Ip)
    requires IsPacket(f, IPPROTO_ICMP, src, dst, [0, 0xEDCB, 0x1234, 0])
    requires l4 == L4(IcmpEcho, 34, 0x1234, 0, 36, 0)
    ensures WellFormed(f, l4) && !ChecksumDisabled(f, l4) && ChecksumValid(f, l4) && Spoilt(f, l4, 0)
  {
    PacketSum(f, IPPROTO_ICMP, src, dst, [0, 0xEDCB, 0x1234, 0]);
    assert L4Sum(f, l4) == 0xFFFF;
  }

  /** A valid echo reply with id 0x1234 and nothing else in it: translated to id 0, its checksum
      is wrong. */
  lemma {:induction false} SpoiltEchoReply(src: Ip, dst: Ip, ip: Ip) returns (f: seq<Byte>)
    ensures IsPacket(f, IPPROTO_ICMP, src, dst, [0, 0xEDCB, 0x1234, 0])
    ensures var l4 := L4(IcmpEcho, 34, 0x1234, 0, 36, 0);
            && WellFormed(f, l4) && ChecksumValid(f, l4) && Spoilt(f, l4, 0)
            && WellFormed(Rewrite(f, l4, Dst, ip, 0), Renamed(l4, Dst, 0))
            && !ChecksumValid(Rewrite(f, l4, Dst, ip, 0), Renamed(l4, Dst, 0))
  {
    f := MakePacket(IPPROTO_ICMP, src, dst, [0, 0xEDCB, 0x1234, 0]);
    var l4 := L4(IcmpEcho, 34, 0x1234, 0, 36, 0);
    EchoIsSpoilt(f, l4, src, dst);
    RewriteKeepsChecksum(f, l4, Dst, ip, 0);
  }

  lemma DatagramParses(f: seq<Byte>, l4: L4)
    requires |f| == 42 && Rd16(f, 12) == ETHERTYPE_IPV4 && f[14] == 0x45 && f[23] == IPPROTO_UDP
    requires Rd16(f, 34) == 1 && Rd16(f, 36) == 1 && l4 == L4(Udp, 34, 1, 1, 40, 0)
    ensures ParseL4(f) == Some(l4)
  {
  }

  lemma AddressAt(f: seq<Byte>, i: nat, ip: Ip, hi: U16, lo: U16)
    requires i + 3 < |f| && RdIp(f, i) == ip && (hi, lo) == AddrWords(ip)
    ensures Rd16(f, i) == hi && Rd16(f, i + 2) == lo
  {
  }

  /** A valid UDP datagram from 10.0.0.1 port 1 to 1.1.1.1 port 1: sent out as 61.218.0.1 port
      49152, its checksum field is 0. */
  lemma UnmarkedDatagram() returns (f: seq<Byte>)
    ensures IsPacket(f, IPPROTO_UDP, Ip(10, 0, 0, 1), Ip(1, 1, 1, 1), [1, 1, 8, 0xF3D9])
    ensures var l4, ip := L4(Udp, 34, 1, 1, 40, 0), Ip(61, 218, 0, 1);
            && WellFormed(f, l4) && !ChecksumDisabled(f, l4) && ChecksumValid(f, l4)
            && WellFormed(Rewrite(f, l4, Src, ip, NAT_LO), Renamed(l4, Src, NAT_LO))
            && ChecksumDisabled(Rewrite(f, l4, Src, ip, NAT_LO), Renamed(l4, Src, NAT_LO))
  {
    f := MakePacket(IPPROTO_UDP, Ip(10, 0, 0, 1), Ip(1, 1, 1, 1), [1, 1, 8, 0xF3D9]);
    var l4 := L4(Udp, 34, 1, 1, 40, 0);
    PacketSum(f, IPPROTO_UDP, Ip(10, 0, 0, 1), Ip(1, 1, 1, 1), [1, 1, 8, 0xF3D9]);
    SumFour(1, 1, 8, 0xF3D9);
    DatagramParses(f, l4);
    AddressAt(f, 26, Ip(10, 0, 0, 1), 0x0A00, 1);
    AddressAt(f, 30, Ip(1, 1, 1, 1), 0x0101, 0x0101);
    assert L4Sum(f, l4) == 0xFFFF;
    assert AddrWords(Ip(61, 218, 0, 1)) == (0x3DDA, 1);
    UdpChecksumVanishes(f, l4, Src, Ip(61, 218, 0, 1), NAT_LO);
  }
}
