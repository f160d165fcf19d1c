/** The bounded inbox of decoded frames: the decoder pushes, dropping the oldest frame when it is
    full; the other core pops. */
module Inbox {
  import opened Wire

  const INBOX_SLOTS: nat := 4

  /** The queue, the wrapping count of drops, and the deepest it has been. */
  datatype Box = Box(frames: seq<Bytes>, dropped: U32, high: nat)

  const EMPTY := Box([], 0, 0)

  function Push(b: Box, frame: Bytes): Box {
    var kept := if |b.frames| >= INBOX_SLOTS then b.frames[1..] else b.frames;
    var dropped := if |b.frames| >= INBOX_SLOTS then Inc(b.dropped) else b.dropped;
    Box(kept + [frame], dropped, Max(b.high, |kept| + 1))
  }

  function Pop(b: Box): (Box, Option<Bytes>) {
    if b.frames == [] then (b, None) else (b.(frames := b.frames[1..]), Some(b.frames[0]))
  }

  /** Reading the statistics resets them. */
  function Snapshot(b: Box): Box { b.(dropped := 0, high := 0) }

  /** The state behind the lock. */
  class RxShared {
    var inbox: seq<Bytes>
    var inboxDropped: U32
    var inboxHighWater: nat

    ghost function State(): Box
      reads this
    {
      Box(inbox, inboxDropped, inboxHighWater)
    }

    constructor ()
      ensures State() == EMPTY
    {
      inbox, inboxDropped, inboxHighWater := [], 0, 0;
    }

    method PushFrame(frame: Bytes)
      modifies this
      ensures State() == Push(old(State()), frame)
    {
      if |inbox| >= INBOX_SLOTS {
        inbox := inbox[1..];
        inboxDropped := Inc(inboxDropped);
      }
      inbox := inbox + [frame];
      if |inbox| > inboxHighWater {
        inboxHighWater := |inbox|;
      }
    }

    method PopFrame() returns (r: Option<Bytes>)
      modifies this
      ensures (State(), r) == Pop(old(State()))
    {
      if inbox == [] {
        return None;
      }
      r := Some(inbox[0]);
      inbox := inbox[1..];
    }

    /** `snapshot_rx_stats`: hand out the statistics and start them afresh. */
    method SnapshotStats() returns (dropped: U32, high: nat)
      modifies this
      ensures dropped == old(inboxDropped) && high == old(inboxHighWater)
      ensures State() == Snapshot(old(State()))
    {
      dropped, high := inboxDropped, inboxHighWater;
      inboxDropped, inboxHighWater := 0, 0;
    }
  }

  // ---- Runs ----

  datatype Op = Put(frame: Bytes) | Take | Snap

  function Run(ops: seq<Op>): Box {
    if ops == [] then EMPTY
    else
      var b, op := Run(ops[..|ops| - 1]), ops[|ops| - 1];
      match op
      case Put(frame) => Push(b, frame)
      case Take => Pop(b).0
      case Snap => Snapshot(b)
  }

  /** Frames published so far, in order. */
  ghost function PutIn(ops: seq<Op>): seq<Bytes> {
    if ops == [] then []
    else
      var op := ops[|ops| - 1];
      PutIn(ops[..|ops| - 1]) + (if op.Put? then [op.frame] else [])
  }

  /** Frames handed to the reader so far, in order. */
  ghost function TakenOut(ops: seq<Op>): seq<Bytes> {
    if ops == [] then []
    else
      var b, op := Run(ops[..|ops| - 1]), ops[|ops| - 1];
      TakenOut(ops[..|ops| - 1])
      + (if op.Take? && Pop(b).1.Some? then [Pop(b).1.value] else [])
  }

  /** These frames, in this order, at these increasing places of the stream, all before `end`. */
  ghost predicate Picked(taken: seq<Bytes>, put: seq<Bytes>, at: seq<nat>, end: nat) {
    && |at| == |taken| && end <= |put|
    && (forall i :: 0 <= i < |at| ==> at[i] < end && taken[i] == put[at[i]])
    && (forall i, j :: 0 <= i < j < |at| ==> at[i] < at[j])
  }

  /** Frames pushed out unread so far. */
  ghost function Lost(ops: seq<Op>): nat {
    if ops == [] then 0
    else
      var prev := ops[..|ops| - 1];
      Lost(prev) + (if ops[|ops| - 1].Put? && |Run(prev).frames| >= INBOX_SLOTS then 1 else 0)
  }

  /** Sum of the drop counts handed out by snapshots so far. */
  ghost function Reported(ops: seq<Op>): nat {
    if ops == [] then 0
    else
      var prev := ops[..|ops| - 1];
      Reported(prev) + (if ops[|ops| - 1].Snap? then Run(prev).dropped else 0)
  }

  /** `lost` frames were pushed out unread, of which snapshots have reported `seen`. */
  ghost predicate Counted(b: Box, lost: nat, seen: nat) {
    b.high <= INBOX_SLOTS && (seen + b.dropped) % U32_SPAN == lost % U32_SPAN
  }

  lemma PushCounted(b: Box, lost: nat, next: nat, seen: nat, f: Bytes)
    requires Counted(b, lost, seen) && |b.frames| <= INBOX_SLOTS
    requires next == if |b.frames| >= INBOX_SLOTS then lost + 1 else lost
    ensures Counted(Push(b, f), next, seen)
  {
  }

  /** The box holds the newest frames of `put`; `taken` are frames of `put` at the increasing
      places `at`, all before those. */
  ghost predicate Sound(frames: seq<Bytes>, put: seq<Bytes>, taken: seq<Bytes>, lost: nat, at: seq<nat>) {
    && |frames| <= INBOX_SLOTS && |frames| <= |put|
    && frames == put[|put| - |frames|..]
    && |put| == |taken| + |frames| + lost
    && Picked(taken, put, at, |put| - |frames|)
    && (lost == 0 ==> taken + frames == put)
  }

  lemma {:induction false} PushSound(
      b: Box, put: seq<Bytes>, taken: seq<Bytes>, lost: nat, next: nat, at: seq<nat>, f: Bytes)
    requires Sound(b.frames, put, taken, lost, at)
    requires next == if |b.frames| >= INBOX_SLOTS then lost + 1 else lost
    ensures Sound(Push(b, f).frames, put + [f], taken, next, at)
  {
    var n := |put| - |b.frames|;
    assert (put + [f])[n..] == b.frames + [f];
    if |b.frames| >= INBOX_SLOTS {
      assert (put + [f])[n + 1..] == b.frames[1..] + [f];
    } else if lost == 0 {
      assert taken + (b.frames + [f]) == put + [f];
    }
  }

  lemma {:induction false} PopSound(
      frames: seq<Bytes>, put: seq<Bytes>, taken: seq<Bytes>, lost: nat, at: seq<nat>, p: nat)
    requires Sound(frames, put, taken, lost, at) && frames != [] && p == |put| - |frames|
    ensures Sound(frames[1..], put, taken + [frames[0]], lost, at + [p])
  {
    if lost == 0 {
      assert taken + [frames[0]] + frames[1..] == taken + frames;
    }
  }

  /** What one operation does to the histories. */
  lemma HistoryStep(ops: seq<Op>)
    requires ops != []
    ensures var prev, op := ops[..|ops| - 1], ops[|ops| - 1];
            && PutIn(ops) == (if op.Put? then PutIn(prev) + [op.frame] else PutIn(prev))
            && TakenOut(ops) == (if op.Take? && Run(prev).frames != []
                                 then TakenOut(prev) + [Run(prev).frames[0]] else TakenOut(prev))
  {
  }

  /** Over any run: the inbox holds exactly the newest frames published and not taken; the reader
      gets published frames in order and none twice, all older than those still queued; and
      published = taken + queued + lost. */
  lemma {:induction false} InboxKeepsNewest(ops: seq<Op>) returns (at: seq<nat>)
    ensures Sound(Run(ops).frames, PutIn(ops), TakenOut(ops), Lost(ops), at)
  {
    if ops == [] {
      at := [];
    } else {
      var prev, op := ops[..|ops| - 1], ops[|ops| - 1];
      at := InboxKeepsNewest(prev);
      HistoryStep(ops);
      var b := Run(prev);
      if op.Put? {
        PushSound(b, PutIn(prev), TakenOut(prev), Lost(prev), Lost(ops), at, op.frame);
      } else if op.Take? && b.frames != [] {
        assert Lost(ops) == Lost(prev);
        var p: nat := |PutIn(prev)| - |b.frames|;
        PopSound(b.frames, PutIn(prev), TakenOut(prev), Lost(ops), at, p);
        at := at + [p];
      } else {
        assert Run(ops).frames == b.frames && Lost(ops) == Lost(prev);
      }
    }
  }

  /** The drop counter loses nothing by being reset: what snapshots reported plus what it shows
      now is the number of frames lost, as a 32-bit count. */
  lemma {:induction false} DropsAreCounted(ops: seq<Op>)
    ensures Counted(Run(ops), Lost(ops), Reported(ops))
  {
    if ops != [] {
      var prev, op := ops[..|ops| - 1], ops[|ops| - 1];
      DropsAreCounted(prev);
      var at := InboxKeepsNewest(prev);
      if op.Put? {
        PushCounted(Run(prev), Lost(prev), Lost(ops), Reported(prev), op.frame);
      }
    }
  }

  /** m operations into the run the statistics were last started afresh. */
  ghost predicate LastReset(ops: seq<Op>, m: nat) {
    m <= |ops| && (m == 0 || ops[m - 1].Snap?) && forall n :: m <= n < |ops| ==> !ops[n].Snap?
  }

  ghost predicate DepthAt(ops: seq<Op>, n: nat, depth: nat) {
    1 <= n <= |ops| && ops[n - 1].Put? && |Run(ops[..n]).frames| == depth
  }

  /** `high` is the greatest number of frames waiting just after a put since then, 0 if there was
      none. */
  ghost predicate Deepest(ops: seq<Op>, m: nat, high: nat) {
    && (forall n: nat, depth: nat :: m < n && DepthAt(ops, n, depth) ==> depth <= high)
    && (high == 0 || exists n: nat :: m < n && DepthAt(ops, n, high))
  }

  lemma {:induction false} DepthBefore(ops: seq<Op>, prev: seq<Op>, n: nat, depth: nat)
    requires ops != [] && prev == ops[..|ops| - 1] && n < |ops|
    ensures DepthAt(ops, n, depth) <==> DepthAt(prev, n, depth)
  {
    assert n >= 1 ==> prev[..n] == ops[..n];
  }

  lemma {:induction false} DeepestAfter(ops: seq<Op>, prev: seq<Op>, m: nat, high: nat, next: nat)
    requires ops != [] && prev == ops[..|ops| - 1] && m < |ops| && Deepest(prev, m, high)
    requires next == if ops[|ops| - 1].Put? then Max(high, |Run(ops).frames|) else high
    ensures Deepest(ops, m, next)
  {
    assert ops[..|ops|] == ops;
    forall n: nat, depth: nat | m < n && DepthAt(ops, n, depth)
      ensures depth <= next
    {
      if n < |ops| {
        DepthBefore(ops, prev, n, depth);
      }
    }
    if next == high != 0 {
      var n: nat :| m < n && DepthAt(prev, n, high);
      DepthBefore(ops, prev, n, high);
    } else if next != 0 {
      assert DepthAt(ops, |ops|, next);
    }
  }

  /** The high-water mark is the deepest the inbox has been after a put since the last snapshot. */
  lemma {:induction false} HighIsDeepest(ops: seq<Op>) returns (m: nat)
    ensures LastReset(ops, m) && Deepest(ops, m, Run(ops).high)
  {
    if ops == [] || ops[|ops| - 1].Snap? {
      m := |ops|;
    } else {
      m := HighIsDeepest(ops[..|ops| - 1]);
      DeepestAfter(ops, ops[..|ops| - 1], m, Run(ops[..|ops| - 1]).high, Run(ops).high);
    }
  }

  /** The reader has kept up: at no moment were more frames waiting than there are slots. */
  ghost predicate KeptUp(ops: seq<Op>) {
    forall n :: 0 <= n <= |ops| ==> |PutIn(ops[..n])| <= |TakenOut(ops[..n])| + INBOX_SLOTS
  }

  lemma {:induction false} KeptUpStep(ops: seq<Op>)
    requires ops != []
    ensures KeptUp(ops) <==> KeptUp(ops[..|ops| - 1]) && |PutIn(ops)| <= |TakenOut(ops)| + INBOX_SLOTS
  {
    var prev := ops[..|ops| - 1];
    assert ops[..|ops|] == ops;
    assert forall n :: 0 <= n <= |prev| ==> prev[..n] == ops[..n];
  }

  lemma {:induction false} LostExactlyWhenBehind(ops: seq<Op>)
    ensures KeptUp(ops) <==> Lost(ops) == 0
  {
    if ops == [] {
      assert ops[..0] == [];
    } else {
      LostExactlyWhenBehind(ops[..|ops| - 1]);
      KeptUpStep(ops);
      var before := InboxKeepsNewest(ops[..|ops| - 1]);
      var after := InboxKeepsNewest(ops);
    }
  }

  /** The reader gets every frame exactly when it keeps up: then what was taken followed by what
      is queued is what was published. */
  lemma {:induction false} NothingLostExactlyWhenKeptUp(ops: seq<Op>)
    ensures KeptUp(ops) <==> TakenOut(ops) + Run(ops).frames == PutIn(ops)
  {
    var at := InboxKeepsNewest(ops);
    LostExactlyWhenBehind(ops);
  }

  lemma {:induction false} PutOne(prev: seq<Op>, frame: Bytes)
    ensures var ops := prev + [Put(frame)];
            && Run(ops) == Push(Run(prev), frame) && PutIn(ops) == PutIn(prev) + [frame]
            && TakenOut(ops) == TakenOut(prev)
  {
    assert (prev + [Put(frame)])[..|prev|] == prev;
  }

  /** These frames published with no take between them. */
  ghost function Puts(frames: seq<Bytes>): (ops: seq<Op>)
    ensures |ops| == |frames|
  {
    if frames == [] then [] else Puts(frames[..|frames| - 1]) + [Put(frames[|frames| - 1])]
  }

  lemma {:induction false} PushFits(init: seq<Bytes>, last: Bytes, n: nat)
    requires n == |init| < INBOX_SLOTS
    ensures Push(Box(init, 0, n), last) == Box(init + [last], 0, n + 1)
  {
  }

  lemma {:induction false} PutsFill(f: seq<Bytes>)
    requires |f| <= INBOX_SLOTS
    ensures Run(Puts(f)) == Box(f, 0, |f|) && PutIn(Puts(f)) == f && TakenOut(Puts(f)) == []
  {
    if f != [] {
      var init, last := f[..|f| - 1], f[|f| - 1];
      PutsFill(init);
      PushFits(init, last, |init|);
      PutOne(Puts(init), last);
      assert f == init + [last];
    }
  }

  /** Five frames without a take: the first is gone. */
  lemma {:induction false} FifthPutLoses(f: seq<Bytes>)
    requires |f| == 5
    ensures var ops := Puts(f);
            && !KeptUp(ops) && PutIn(ops) == f && TakenOut(ops) == []
            && Run(ops) == Box(f[1..], 1, 4)
  {
    PutsFill(f[..4]);
    PutOne(Puts(f[..4]), f[4]);
    assert Puts(f)[..5] == Puts(f);
  }
}
