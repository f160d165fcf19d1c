/** Active runs of sample bytes: maximal stretches of bytes other than 0x00 and 0xFF. */
module Runs {
  import opened Wire

  /** A byte whose eight samples are all alike. */
  predicate Idle(b: bv8) { b == 0x00 || b == 0xFF }

  ghost predicate AllActive(s: Bytes) { forall i :: 0 <= i < |s| ==> !Idle(s[i]) }

  /** Empty, or its last byte is idle. */
  ghost predicate Settled(s: Bytes) { s == [] || Idle(s[|s| - 1]) }

  ghost predicate ActiveOn(s: Bytes, lo: nat, hi: nat) {
    hi <= |s| && forall i :: lo <= i < hi ==> !Idle(s[i])
  }

  /** Length of the leading active stretch. */
  function ActiveLen(s: Bytes): (n: nat)
    ensures ActiveOn(s, 0, n) && (n < |s| ==> Idle(s[n]))
  {
    if s == [] || Idle(s[0]) then 0 else 1 + ActiveLen(s[1..])
  }

  /** The maximal active runs, in order. */
  ghost function Runs(s: Bytes): seq<Bytes>
    decreases |s|
  {
    if s == [] then []
    else if Idle(s[0]) then Runs(s[1..])
    else [s[..ActiveLen(s)]] + Runs(s[ActiveLen(s)..])
  }

  ghost function AtLeast(rs: seq<Bytes>, min: nat): seq<Bytes> {
    if rs == [] then []
    else (if |rs[0]| >= min then [rs[0]] else []) + AtLeast(rs[1..], min)
  }

  lemma ActiveLenIs(s: Bytes, n: nat)
    requires ActiveOn(s, 0, n) && (n < |s| ==> Idle(s[n]))
    ensures ActiveLen(s) == n
  {
  }

  lemma {:induction false} LeadingRun(a: Bytes, b: Bytes, n: nat)
    requires a != [] && Settled(a) && !Idle(a[0]) && n == ActiveLen(a)
    ensures 0 < n < |a| && Settled(a[n..])
    ensures Runs(a + b) == [a[..n]] + Runs(a[n..] + b)
  {
    var s := a + b;
    assert n < |a|;
    assert s[n] == a[n];
    ActiveLenIs(s, n);
    assert s[..n] == a[..n] && s[n..] == a[n..] + b;
  }

  lemma {:induction false} RunsConcat(a: Bytes, b: Bytes)
    requires Settled(a)
    ensures Runs(a + b) == Runs(a) + Runs(b)
    decreases |a|
  {
    if a == [] {
      assert a + b == b;
    } else if Idle(a[0]) {
      assert (a + b)[1..] == a[1..] + b;
      RunsConcat(a[1..], b);
    } else {
      var n := ActiveLen(a);
      LeadingRun(a, b, n);
      RunsConcat(a[n..], b);
      assert [a[..n]] + (Runs(a[n..]) + Runs(b)) == [a[..n]] + Runs(a[n..]) + Runs(b);
    }
  }

  lemma {:induction false} AtLeastConcat(a: seq<Bytes>, b: seq<Bytes>, min: nat)
    ensures AtLeast(a + b, min) == AtLeast(a, min) + AtLeast(b, min)
  {
    if a == [] {
      assert a + b == b;
    } else {
      assert (a + b)[1..] == a[1..] + b;
      AtLeastConcat(a[1..], b, min);
    }
  }

  /** What a scan from `start` has still to find. */
  ghost function Remaining(bytes: Bytes, start: nat, min: nat): seq<Bytes>
    requires start <= |bytes|
  {
    AtLeast(Runs(bytes[start..]), min)
  }

  ghost predicate IdleOn(s: Bytes, lo: nat, hi: nat) {
    hi <= |s| && forall i :: lo <= i < hi ==> Idle(s[i])
  }

  lemma {:induction false} SkipIdle(bytes: Bytes, a: nat, b: nat, min: nat)
    requires a <= b <= |bytes| && IdleOn(bytes, a, b)
    ensures Remaining(bytes, b, min) == Remaining(bytes, a, min)
    decreases b - a
  {
    if a < b {
      assert bytes[a..][1..] == bytes[a + 1..];
      SkipIdle(bytes, a + 1, b, min);
    }
  }

  /** bytes[off..off + len] is a maximal active run of the bytes from `start`. */
  ghost predicate IsRun(bytes: Bytes, start: nat, off: nat, len: nat) {
    && start <= off && 0 < len && off + len <= |bytes|
    && ActiveOn(bytes, off, off + len)
    && (off + len < |bytes| ==> Idle(bytes[off + len]))
    && (start < off ==> Idle(bytes[off - 1]))
  }

  lemma {:induction false} SplitRun(bytes: Bytes, a: nat, b: nat, min: nat)
    requires a < b <= |bytes| && ActiveOn(bytes, a, b) && (b < |bytes| ==> Idle(bytes[b]))
    ensures Remaining(bytes, a, min)
            == (if b - a >= min then [bytes[a..b]] else []) + Remaining(bytes, b, min)
  {
    var s := bytes[a..];
    assert s[..b - a] == bytes[a..b] && s[b - a..] == bytes[b..];
    assert b < |bytes| ==> s[b - a] == bytes[b];
    ActiveLenIs(s, b - a);
    var rs := Runs(s);
    assert rs == [s[..b - a]] + Runs(s[b - a..]);
    assert rs[0] == bytes[a..b] && rs[1..] == Runs(bytes[b..]);
  }

  /** The first maximal run of `minLen` bytes or more that starts at `start` or later. */
  method FindActiveRunFrom(bytes: Bytes, start: nat, minLen: nat) returns (r: Option<(nat, nat)>)
    ensures r.None? ==> start > |bytes| || Remaining(bytes, start, minLen) == []
    ensures r.Some? ==>
              var (off, len) := r.value;
              && IsRun(bytes, start, off, len) && minLen <= len
              && Remaining(bytes, start, minLen)
                 == [bytes[off..off + len]] + Remaining(bytes, off + len, minLen)
  {
    var i := start;
    while true
      invariant start <= i <= Max(start, |bytes|)
      invariant i > start && i < |bytes| ==> Idle(bytes[i])
      invariant i <= |bytes| ==> Remaining(bytes, i, minLen) == Remaining(bytes, start, minLen)
      decreases Max(start, |bytes|) - i
    {
      ghost var from := i;
      while i < |bytes| && Idle(bytes[i])
        invariant from <= i <= Max(from, |bytes|) && (i <= |bytes| ==> IdleOn(bytes, from, i))
      {
        i := i + 1;
      }
      if i <= |bytes| {
        SkipIdle(bytes, from, i, minLen);
      }
      if i >= |bytes| {
        return None;
      }
      var runStart := i;
      while i < |bytes| && !Idle(bytes[i])
        invariant runStart <= i <= |bytes| && ActiveOn(bytes, runStart, i)
      {
        i := i + 1;
      }
      SplitRun(bytes, runStart, i, minLen);
      if i - runStart >= minLen {
        return Some((runStart, i - runStart));
      }
      if i >= |bytes| {
        return None;
      }
    }
  }

  /** The loop of `scan_runs`: every run of at least `minLen`, in order. */
  method ScanRuns(bytes: Bytes, minLen: nat) returns (found: seq<Bytes>)
    ensures found == AtLeast(Runs(bytes), minLen)
  {
    found := [];
    var cursor := 0;
    assert bytes[0..] == bytes;
    while true
      invariant 0 <= cursor <= |bytes|
      invariant found + Remaining(bytes, cursor, minLen) == AtLeast(Runs(bytes), minLen)
      decreases |bytes| - cursor
    {
      var r := FindActiveRunFrom(bytes, cursor, minLen);
      if r.None? {
        return;
      }
      var (off, len) := r.value;
      found := found + [bytes[off..off + len]];
      cursor := off + len;
    }
  }
}
