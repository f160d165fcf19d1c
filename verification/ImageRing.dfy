/** The image ring between the DMA interrupt (producer) and the decode thread (consumer), as a
    state machine over their individual loads and stores, in any interleaving. */
module ImageRing {
  import opened Wire

  /** Number of slots and the modulus of the sequence numbers; the device has 6 and 2^32. */
  datatype Cfg = Cfg(slots: nat, modulus: nat)
  {
    ghost predicate Ok() { 1 <= slots < modulus }
  }

  /** What `poll_into` delivers: the slot's bytes, the image length and the carry prefix. */
  datatype Image = Image(bytes: Bytes, len: nat, carry: nat)

  /** What the consumer saw of one image: the two words and every view of the slot's bytes
      (None where it would see a slot that is being overwritten). */
  datatype Got = Got(len: nat, carry: nat, views: seq<Option<Bytes>>)

  /** The interrupt handler's program counter with its locals. */
  datatype Irq =
    | Ready
    | HaveW(w: nat)
    | HaveR(w: nat, r: nat)
    | Filling(w: nat, img: Image)
    | Filled(w: nat, img: Image)
    | LenStored(w: nat, img: Image)
    | CarryStored(w: nat, img: Image)

  /** The thread's program counter with its locals. */
  datatype Thread =
    | Top
    | SawR(r: nat)
    | SawLen(r: nat)
    | SawCarry(r: nat, len: nat)
    | Scanning(r: nat, got: Got)

  /** Shared memory, both program counters, and the history of images: all that were polled, the
      places among them of those published, those published, and what was consumed. */
  datatype State = State(
    w: nat, r: nat, len: seq<nat>, carry: seq<nat>, slot: seq<Option<Bytes>>, drop: nat,
    irq: Irq, thread: Thread,
    offered: seq<Image>, kept: seq<nat>, published: seq<Image>, consumed: seq<Got>)

  datatype Action =
    | IrqLoadW | IrqLoadR | IrqNothing | IrqDiscard(img: Image) | IrqBegin(img: Image) | IrqEnd
    | IrqLen | IrqCarry | IrqPublish
    | ThreadLoadR | ThreadLoadW | ThreadLen | ThreadCarry | ThreadRead | ThreadRelease

  function Blank<T>(n: nat, x: T): (s: seq<T>)
    ensures |s| == n
  {
    if n == 0 then [] else Blank(n - 1, x) + [x]
  }

  function Init(c: Cfg): State {
    State(0, 0, Blank(c.slots, 0), Blank(c.slots, 0), Blank(c.slots, Some([])), 0,
          Ready, Top, [], [], [], [])
  }

  function WrapSub(c: Cfg, a: nat, b: nat): int
    requires c.modulus > 0
  {
    (a - b) % c.modulus
  }

  ghost predicate Full(c: Cfg, s: State)
    requires c.modulus > 0 && s.irq.HaveR?
  {
    WrapSub(c, s.irq.w, s.irq.r) >= c.slots
  }

  ghost predicate Enabled(c: Cfg, s: State, a: Action)
    requires c.Ok()
  {
    match a
    case IrqLoadW => s.irq.Ready?
    case IrqLoadR => s.irq.HaveW?
    case IrqNothing => s.irq.HaveR?
    case IrqDiscard(_) => s.irq.HaveR? && Full(c, s)
    case IrqBegin(_) => s.irq.HaveR? && !Full(c, s)
    case IrqEnd => s.irq.Filling?
    case IrqLen => s.irq.Filled?
    case IrqCarry => s.irq.LenStored?
    case IrqPublish => s.irq.CarryStored?
    case ThreadLoadR => s.thread.Top?
    case ThreadLoadW => s.thread.SawR?
    case ThreadLen => s.thread.SawLen?
    case ThreadCarry => s.thread.SawCarry?
    case ThreadRead => s.thread.Scanning?
    case ThreadRelease => s.thread.Scanning?
  }

  ghost predicate Shaped(c: Cfg, s: State) {
    |s.len| == |s.carry| == |s.slot| == c.slots
  }

  /** One load or store of either side. */
  ghost function Next(c: Cfg, s: State, a: Action): (t: State)
    requires c.Ok() && Shaped(c, s) && Enabled(c, s, a)
    ensures Shaped(c, t)
  {
    match a
    case IrqLoadW => s.(irq := HaveW(s.w))
    case IrqLoadR => s.(irq := HaveR(s.irq.w, s.r))
    case IrqNothing => s.(irq := Ready)
    case IrqDiscard(img) =>
      s.(irq := Ready, drop := (s.drop + 1) % c.modulus, offered := s.offered + [img])
    case IrqBegin(img) =>
      s.(irq := Filling(s.irq.w, img), slot := s.slot[s.irq.w % c.slots := None],
         offered := s.offered + [img])
    case IrqEnd =>
      s.(irq := Filled(s.irq.w, s.irq.img), slot := s.slot[s.irq.w % c.slots := Some(s.irq.img.bytes)])
    case IrqLen =>
      s.(irq := LenStored(s.irq.w, s.irq.img), len := s.len[s.irq.w % c.slots := s.irq.img.len])
    case IrqCarry =>
      s.(irq := CarryStored(s.irq.w, s.irq.img), carry := s.carry[s.irq.w % c.slots := s.irq.img.carry])
    case IrqPublish =>
      s.(irq := Ready, w := (s.irq.w + 1) % c.modulus, published := s.published + [s.irq.img],
         kept := s.kept + [SatSub(|s.offered|, 1)])
    case ThreadLoadR => s.(thread := SawR(s.r))
    case ThreadLoadW => s.(thread := if s.thread.r == s.w then Top else SawLen(s.thread.r))
    case ThreadLen => s.(thread := SawCarry(s.thread.r, s.len[s.thread.r % c.slots]))
    case ThreadCarry =>
      s.(thread := Scanning(s.thread.r, Got(s.thread.len, s.carry[s.thread.r % c.slots], [])))
    case ThreadRead =>
      var g := s.thread.got;
      s.(thread := Scanning(s.thread.r, g.(views := g.views + [s.slot[s.thread.r % c.slots]])))
    case ThreadRelease =>
      s.(thread := Top, r := (s.thread.r + 1) % c.modulus, consumed := s.consumed + [s.thread.got])
  }

  /** A run is a list of actions, each enabled where it happens. */
  ghost predicate Legal(c: Cfg, acts: seq<Action>)
    requires c.Ok()
    decreases |acts|, 0
  {
    acts == [] || (Legal(c, acts[..|acts| - 1])
                   && Enabled(c, After(c, acts[..|acts| - 1]), acts[|acts| - 1]))
  }

  ghost function After(c: Cfg, acts: seq<Action>): (s: State)
    requires c.Ok() && Legal(c, acts)
    ensures Shaped(c, s)
    decreases |acts|, 1
  {
    if acts == [] then Init(c)
    else Next(c, After(c, acts[..|acts| - 1]), acts[|acts| - 1])
  }

  // ---- Slot arithmetic ----

  /** Slot of sequence number k, computed from its wrapped value. */
  function SlotOf(c: Cfg, k: nat): (i: nat)
    requires c.Ok()
    ensures i < c.slots
  {
    k % c.modulus % c.slots
  }

  lemma MulLess(m: nat, a: int, b: int)
    requires a <= b
    ensures m * a <= m * b
  {
  }

  lemma {:induction false} QuotientStep(a: nat, b: nat, m: nat)
    requires m > 0 && a <= b < a + m
    ensures b / m == a / m || b / m == a / m + 1
    ensures b % m == a % m + (b - a) - m * (b / m - a / m)
  {
    assert b == m * (b / m) + b % m && a == m * (a / m) + a % m;
    assert m * (b / m - a / m) == m * (b / m) - m * (a / m);
    if b / m < a / m {
      MulLess(m, b / m + 1, a / m);
      assert false;
    }
    if b / m > a / m + 1 {
      MulLess(m, a / m + 2, b / m);
      assert false;
    }
  }

  lemma {:induction false} ResidueGap(x: nat, y: nat, n: nat)
    requires n > 0 && x < y < x + n
    ensures x % n != y % n
  {
    QuotientStep(x, y, n);
  }

  /** x and y - m share a residue exactly when y - x is the residue of m. */
  lemma {:induction false} ResidueShift(x: nat, y: nat, n: nat, m: nat)
    requires n > 0 && y >= m && x < y < x + n
    ensures x % n == (y - m) % n <==> y - x == m % n
  {
    var z := y - m;
    assert z == n * (z / n) + z % n && x == n * (x / n) + x % n && m == n * (m / n) + m % n;
    var q := z / n - x / n + m / n;
    assert n * q == n * (z / n) - n * (x / n) + n * (m / n);
    assert y - x == n * q + (z % n - x % n) + m % n;
    if z % n == x % n {
      if q >= 1 { MulLess(n, 1, q); }
      if q <= -1 { MulLess(n, q, -1); }
    }
    if y - x == m % n {
      if q >= 1 { MulLess(n, 1, q); }
      if q <= -1 { MulLess(n, q, -1); }
    }
  }

  /** Exactly when two sequence numbers less than a ring apart share a slot: the wrap lies
      between them and they are the remainder of the modulus apart. */
  lemma {:induction false} SlotsCollide(c: Cfg, a: nat, b: nat)
    requires c.Ok() && a < b < a + c.slots
    ensures SlotOf(c, a) == SlotOf(c, b)
            <==> a / c.modulus != b / c.modulus && b - a == c.modulus % c.slots
  {
    var m, n := c.modulus, c.slots;
    var x, y := a % m, b % m;
    QuotientStep(a, b, m);
    if a / m == b / m {
      assert y == x + (b - a);
      ResidueGap(x, y, n);
    } else {
      assert y == x + (b - a) - m;
      ResidueShift(x, y + m, n, m);
    }
  }

  lemma {:induction false} ModOf(v: nat, m: nat)
    requires v < m
    ensures v % m == v && (v - m) % m == v
  {
    QuotientStep(0, v, m);
    assert (v - m) == m * -1 + v;
  }

  lemma {:induction false} WrapSubSmall(c: Cfg, a: nat, b: nat)
    requires c.Ok() && b <= a <= b + c.slots
    ensures WrapSub(c, a % c.modulus, b % c.modulus) == a - b
  {
    QuotientStep(b, a, c.modulus);
    ModOf(a - b, c.modulus);
    if a / c.modulus == b / c.modulus {
      assert a % c.modulus - b % c.modulus == a - b;
    } else {
      assert a % c.modulus - b % c.modulus == a - b - c.modulus;
    }
  }

  lemma {:induction false} WrapNext(c: Cfg, k: nat)
    requires c.Ok()
    ensures (k % c.modulus + 1) % c.modulus == (k + 1) % c.modulus
  {
    QuotientStep(k, k + 1, c.modulus);
    var d := (k + 1) / c.modulus - k / c.modulus;
    if d == 0 {
      assert c.modulus * d == 0;
    } else {
      assert c.modulus * d == c.modulus;
    }
  }

  /** Wrapped sequence numbers at most a ring apart are equal only if the numbers are. */
  lemma {:induction false} WrapDistinct(c: Cfg, a: nat, b: nat)
    requires c.Ok() && b <= a <= b + c.slots
    ensures a % c.modulus == b % c.modulus <==> a == b
  {
    WrapSubSmall(c, a, b);
  }

  // ---- The invariant ----

  ghost function Produced(s: State): nat { |s.published| }

  ghost function Released(s: State): nat { |s.consumed| }

  /** The wrap lies between the next image and one `modulus % slots` before it, and that one is
      still queued. */
  ghost predicate Crowded(c: Cfg, s: State)
    requires c.Ok()
  {
    var d := c.modulus % c.slots;
    d != 0 && c.modulus <= Produced(s) && Produced(s) % c.modulus < d
    && Produced(s) - Released(s) >= d
  }

  /** Some queued image shares the slot of the next one. */
  ghost predicate Collides(c: Cfg, s: State)
    requires c.Ok()
  {
    exists k :: Released(s) <= k < Produced(s) && SlotOf(c, k) == SlotOf(c, Produced(s))
  }

  /** Image k sits in its slot, complete. */
  ghost predicate Stored(c: Cfg, s: State, k: nat)
    requires c.Ok() && Shaped(c, s) && k < |s.published|
  {
    var i := SlotOf(c, k);
    s.slot[i] == Some(s.published[k].bytes)
    && s.len[i] == s.published[k].len && s.carry[i] == s.published[k].carry
  }

  /** The consumer saw exactly this image. */
  ghost predicate Faithful(g: Got, img: Image) {
    g.len == img.len && g.carry == img.carry
    && forall i :: 0 <= i < |g.views| ==> g.views[i] == Some(img.bytes)
  }

  ghost predicate Writing(s: State) {
    s.irq.Filling? || s.irq.Filled? || s.irq.LenStored? || s.irq.CarryStored?
  }

  ghost function InFlight(s: State): nat { if Writing(s) then 1 else 0 }

  ghost predicate Counts(c: Cfg, s: State)
    requires c.Ok()
  {
    && Released(s) <= Produced(s) <= Released(s) + c.slots
    && s.w == Produced(s) % c.modulus && s.r == Released(s) % c.modulus
    && |s.offered| >= Produced(s) + InFlight(s)
    && s.drop == (|s.offered| - Produced(s) - InFlight(s)) % c.modulus
  }

  /** The producer's copy of IMG_R is the value of an earlier moment, `at` releases in. */
  ghost predicate StaleR(c: Cfg, s: State, at: nat)
    requires c.Ok()
  {
    s.irq.HaveR? && at <= Released(s) && Produced(s) <= at + c.slots && at <= Produced(s)
    && s.irq.r == at % c.modulus
  }

  ghost predicate IrqInv(c: Cfg, s: State)
    requires c.Ok() && Shaped(c, s)
  {
    var p := Produced(s);
    && (!s.irq.Ready? ==> s.irq.w == p % c.modulus)
    && (s.irq.HaveR? ==> exists at :: StaleR(c, s, at))
    && (Writing(s) ==> p < Released(s) + c.slots && !Collides(c, s))
    && ((s.irq.Filled? || s.irq.LenStored? || s.irq.CarryStored?) ==>
          s.slot[SlotOf(c, p)] == Some(s.irq.img.bytes))
    && ((s.irq.LenStored? || s.irq.CarryStored?) ==> s.len[SlotOf(c, p)] == s.irq.img.len)
    && (s.irq.CarryStored? ==> s.carry[SlotOf(c, p)] == s.irq.img.carry)
  }

  ghost predicate ThreadInv(c: Cfg, s: State)
    requires c.Ok() && Shaped(c, s)
  {
    var k := Released(s);
    && (!s.thread.Top? ==> s.thread.r == k % c.modulus)
    && ((s.thread.SawLen? || s.thread.SawCarry? || s.thread.Scanning?) ==> k < Produced(s))
    && (s.thread.SawCarry? ==> k < Produced(s) && s.thread.len == s.published[k].len)
    && (s.thread.Scanning? ==> k < Produced(s) && Faithful(s.thread.got, s.published[k]))
  }

  ghost predicate Inv(c: Cfg, s: State)
    requires c.Ok()
  {
    && Shaped(c, s) && Counts(c, s) && IrqInv(c, s) && ThreadInv(c, s)
    && (forall k :: Released(s) <= k < Produced(s) ==> Stored(c, s, k))
    && (forall k :: 0 <= k < Released(s) ==> Faithful(s.consumed[k], s.published[k]))
  }

  lemma SmallQuotient(a: nat, m: nat)
    requires a < m
    ensures a / m == 0
  {
  }

  /** Numbers less than m apart lie in different rounds exactly when the later has come less far
      into its round than they are apart. */
  lemma {:induction false} WrapBetween(a: nat, b: nat, m: nat)
    requires m > 0 && a < b < a + m
    ensures a / m != b / m <==> b % m < b - a && m <= b
  {
    QuotientStep(a, b, m);
    if a / m == b / m {
      assert m * (b / m - a / m) == 0;
    } else {
      assert m * (b / m - a / m) == m;
      if b < m {
        SmallQuotient(b, m);
      }
    }
  }

  /** A slot is free for the next image exactly when the ring is not crowded. */
  lemma {:induction false} CollidesExactlyWhenCrowded(c: Cfg, s: State)
    requires c.Ok() && Released(s) <= Produced(s) < Released(s) + c.slots
    ensures Collides(c, s) <==> Crowded(c, s)
  {
    var p, d := Produced(s), c.modulus % c.slots;
    forall k | Released(s) <= k < p
      ensures SlotOf(c, k) == SlotOf(c, p) <==> d != 0 && k == p - d && p % c.modulus < d && c.modulus <= p
    {
      SlotsCollide(c, k, p);
      WrapBetween(k, p, c.modulus);
    }
    if Crowded(c, s) {
      assert SlotOf(c, p - d) == SlotOf(c, p);
    }
  }

  lemma InitInv(c: Cfg)
    requires c.Ok()
    ensures Inv(c, Init(c))
  {
  }

  lemma {:induction false} LoadWKeepsInv(c: Cfg, s: State)
    requires c.Ok() && Inv(c, s) && s.irq.Ready?
    ensures Inv(c, Next(c, s, IrqLoadW))
  {
    var t := Next(c, s, IrqLoadW);
    assert forall i :: Released(t) <= i < Produced(t) && Stored(c, s, i) ==> Stored(c, t, i);
  }

  lemma {:induction false} LoadRKeepsInv(c: Cfg, s: State)
    requires c.Ok() && Inv(c, s) && s.irq.HaveW?
    ensures Inv(c, Next(c, s, IrqLoadR))
  {
    var t := Next(c, s, IrqLoadR);
    assert StaleR(c, t, Released(s));
    assert forall i :: Released(t) <= i < Produced(t) && Stored(c, s, i) ==> Stored(c, t, i);
  }

  lemma {:induction false} ModIncrement(n: nat, m: nat)
    requires m > 0
    ensures (n % m + 1) % m == (n + 1) % m
  {
    QuotientStep(n, n + 1, if m == 1 then 2 else m);
    if m > 1 {
      var d := (n + 1) / m - n / m;
      assert m * d == 0 || m * d == m;
    }
  }

  lemma {:induction false} PollKeepsInv(c: Cfg, s: State, a: Action)
    requires c.Ok() && Inv(c, s) && s.irq.HaveR?
    requires Enabled(c, s, a) && (a.IrqNothing? || a.IrqDiscard?)
    ensures Inv(c, Next(c, s, a))
  {
    var t := Next(c, s, a);
    ModIncrement(|s.offered| - Produced(s), c.modulus);
    assert forall i :: Released(t) <= i < Produced(t) && Stored(c, s, i) ==> Stored(c, t, i);
  }

  /** A store to the slot of the next image leaves every queued image as it is. */
  lemma {:induction false} WriteElsewhere(c: Cfg, s: State, t: State)
    requires c.Ok() && Inv(c, s) && !Collides(c, s) && Shaped(c, t)
    requires t.published == s.published && t.consumed == s.consumed
    requires forall i :: 0 <= i < c.slots && i != SlotOf(c, Produced(s)) ==>
               t.slot[i] == s.slot[i] && t.len[i] == s.len[i] && t.carry[i] == s.carry[i]
    ensures forall k :: Released(t) <= k < Produced(t) ==> Stored(c, t, k)
  {
    forall k | Released(t) <= k < Produced(t)
      ensures Stored(c, t, k)
    {
      assert Stored(c, s, k);
    }
  }

  lemma {:induction false} BeginKeepsInv(c: Cfg, s: State, img: Image)
    requires c.Ok() && Inv(c, s) && s.irq.HaveR? && !Full(c, s) && !Crowded(c, s)
    ensures Inv(c, Next(c, s, IrqBegin(img)))
  {
    var at :| StaleR(c, s, at);
    WrapSubSmall(c, Produced(s), at);
    CollidesExactlyWhenCrowded(c, s);
    WriteElsewhere(c, s, Next(c, s, IrqBegin(img)));
  }

  lemma {:induction false} StoreKeepsInv(c: Cfg, s: State, a: Action)
    requires c.Ok() && Inv(c, s) && Enabled(c, s, a)
    requires a.IrqEnd? || a.IrqLen? || a.IrqCarry?
    ensures Inv(c, Next(c, s, a))
  {
    WriteElsewhere(c, s, Next(c, s, a));
  }

  lemma {:induction false} PublishKeepsInv(c: Cfg, s: State)
    requires c.Ok() && Inv(c, s) && s.irq.CarryStored?
    ensures Inv(c, Next(c, s, IrqPublish))
  {
    var t, p := Next(c, s, IrqPublish), Produced(s);
    WrapNext(c, p);
    forall k | Released(t) <= k < Produced(t)
      ensures Stored(c, t, k)
    {
      assert k < p ==> Stored(c, s, k);
    }
  }

  lemma {:induction false} ThreadKeepsInv(c: Cfg, s: State, a: Action)
    requires c.Ok() && Inv(c, s) && Enabled(c, s, a)
    requires a.ThreadLoadR? || a.ThreadLoadW? || a.ThreadLen? || a.ThreadCarry? || a.ThreadRead?
    ensures Inv(c, Next(c, s, a))
  {
    var t, k := Next(c, s, a), Released(s);
    if s.irq.HaveR? {
      var at :| StaleR(c, s, at);
      assert StaleR(c, t, at);
    }
    WrapDistinct(c, Produced(s), k);
    assert k < Produced(s) ==> Stored(c, s, k);
    assert forall i :: Released(t) <= i < Produced(t) && Stored(c, s, i) ==> Stored(c, t, i);
  }

  lemma {:induction false} ReleaseKeepsInv(c: Cfg, s: State)
    requires c.Ok() && Inv(c, s) && s.thread.Scanning?
    ensures Inv(c, Next(c, s, ThreadRelease))
  {
    var t, k := Next(c, s, ThreadRelease), Released(s);
    if s.irq.HaveR? {
      var at :| StaleR(c, s, at);
      assert StaleR(c, t, at);
    }
    WrapNext(c, k);
    assert forall i :: Released(t) <= i < Produced(t) && Stored(c, s, i) ==> Stored(c, t, i);
  }

  /** Every action, of either side, keeps the invariant; a new image must not be begun while the
      ring is crowded. */
  lemma {:induction false} StepKeepsInv(c: Cfg, s: State, a: Action)
    requires c.Ok() && Inv(c, s) && Enabled(c, s, a) && (a.IrqBegin? ==> !Crowded(c, s))
    ensures Inv(c, Next(c, s, a))
  {
    match a
    case IrqLoadW => LoadWKeepsInv(c, s);
    case IrqLoadR => LoadRKeepsInv(c, s);
    case IrqNothing => PollKeepsInv(c, s, a);
    case IrqDiscard(_) => PollKeepsInv(c, s, a);
    case IrqBegin(img) => BeginKeepsInv(c, s, img);
    case IrqEnd => StoreKeepsInv(c, s, a);
    case IrqLen => StoreKeepsInv(c, s, a);
    case IrqCarry => StoreKeepsInv(c, s, a);
    case IrqPublish => PublishKeepsInv(c, s);
    case ThreadRelease => ReleaseKeepsInv(c, s);
    case ThreadLoadR => ThreadKeepsInv(c, s, a);
    case ThreadLoadW => ThreadKeepsInv(c, s, a);
    case ThreadLen => ThreadKeepsInv(c, s, a);
    case ThreadCarry => ThreadKeepsInv(c, s, a);
    case ThreadRead => ThreadKeepsInv(c, s, a);
  }

  /** An image is begun or dropped according to the queue when IMG_R was read, `at` releases into
      the run: dropped exactly if every slot was taken then, never otherwise. */
  lemma {:induction false} DropsOnlyWhenFull(c: Cfg, s: State) returns (at: nat)
    requires c.Ok() && Inv(c, s) && s.irq.HaveR?
    ensures at <= Released(s) && s.irq.r == at % c.modulus && at <= Produced(s) <= at + c.slots
    ensures forall img :: Enabled(c, s, IrqDiscard(img)) <==> Produced(s) == at + c.slots
    ensures forall img :: Enabled(c, s, IrqBegin(img)) <==> Produced(s) < at + c.slots
  {
    at :| StaleR(c, s, at);
    WrapSubSmall(c, Produced(s), at);
  }

  // ---- Which images were published ----

  /** The images published are, in order, the images polled at the places `kept`; the one being
      written was polled last. */
  ghost predicate KeptInv(s: State) {
    && |s.kept| == |s.published|
    && (forall k :: 0 <= k < |s.kept| ==> s.kept[k] < |s.offered| - InFlight(s))
    && (forall k :: 0 <= k < |s.kept| ==> s.offered[s.kept[k]] == s.published[k])
    && (forall j, k :: 0 <= j < k < |s.kept| ==> s.kept[j] < s.kept[k])
    && (Writing(s) ==> s.offered != [] && s.offered[|s.offered| - 1] == s.irq.img)
  }

  lemma StepKeepsKept(c: Cfg, s: State, a: Action)
    requires c.Ok() && Shaped(c, s) && Enabled(c, s, a) && KeptInv(s)
    ensures KeptInv(Next(c, s, a))
  {
  }

  // ---- Every run ----

  /** No image was begun while the ring was crowded. */
  ghost predicate Roomy(c: Cfg, acts: seq<Action>)
    requires c.Ok() && Legal(c, acts)
  {
    acts == [] ||
      var prev := acts[..|acts| - 1];
      Roomy(c, prev) && (acts[|acts| - 1].IrqBegin? ==> !Crowded(c, After(c, prev)))
  }

  lemma {:induction false} RunKeepsInv(c: Cfg, acts: seq<Action>)
    requires c.Ok() && Legal(c, acts) && Roomy(c, acts)
    ensures Inv(c, After(c, acts)) && KeptInv(After(c, acts))
    decreases |acts|
  {
    if acts == [] {
      InitInv(c);
    } else {
      var prev := acts[..|acts| - 1];
      RunKeepsInv(c, prev);
      StepKeepsInv(c, After(c, prev), acts[|acts| - 1]);
      StepKeepsKept(c, After(c, prev), acts[|acts| - 1]);
    }
  }

  /** The producer is storing into a slot that holds an unread image. */
  ghost predicate Overwrites(c: Cfg, s: State)
    requires c.Ok()
  {
    Writing(s) && Collides(c, s)
  }

  /** Ring correctness. In every run that never begins an image while crowded, under any
      interleaving: images are consumed in the order published, each with its own length and
      carry and no torn read; at most `slots` are queued; the producer never writes a slot
      between publication and release; the images published are a subsequence of those
      polled; and polled = consumed + queued + in flight + dropped. */
  lemma {:induction false} RingIsCorrect(c: Cfg, acts: seq<Action>)
    requires c.Ok() && Legal(c, acts) && Roomy(c, acts)
    ensures var s := After(c, acts);
            && Released(s) <= Produced(s) <= Released(s) + c.slots
            && WrapSub(c, s.w, s.r) == Produced(s) - Released(s)
            && (forall k :: 0 <= k < Released(s) ==> Faithful(s.consumed[k], s.published[k]))
            && !Overwrites(c, s) && KeptInv(s)
            && (|s.offered| - Produced(s) - InFlight(s)) % c.modulus == s.drop
  {
    var s := After(c, acts);
    RunKeepsInv(c, acts);
    WrapSubSmall(c, Produced(s), Released(s));
  }

  /** Enough for any run: fewer images published than the modulus, or a ring size that divides it. */
  ghost predicate NoWrap(c: Cfg, n: nat)
    requires c.Ok()
  {
    c.modulus % c.slots == 0 || n < c.modulus
  }

  lemma {:induction false} NoWrapIsRoomy(c: Cfg, acts: seq<Action>)
    requires c.Ok() && Legal(c, acts) && NoWrap(c, Produced(After(c, acts)))
    ensures Roomy(c, acts)
    decreases |acts|
  {
    if acts != [] {
      NoWrapIsRoomy(c, acts[..|acts| - 1]);
    }
  }

  /** At no moment of the run did the producer overwrite an unread image. */
  ghost predicate NeverOverwrites(c: Cfg, acts: seq<Action>)
    requires c.Ok() && Legal(c, acts)
  {
    !Overwrites(c, After(c, acts)) && (acts != [] ==> NeverOverwrites(c, acts[..|acts| - 1]))
  }

  lemma {:induction false} CrowdedBeginOverwrites(c: Cfg, s: State, a: Action)
    requires c.Ok() && Inv(c, s) && Enabled(c, s, a) && a.IrqBegin? && Crowded(c, s)
    ensures Overwrites(c, Next(c, s, a))
  {
    var at :| StaleR(c, s, at);
    WrapSubSmall(c, Produced(s), at);
    CollidesExactlyWhenCrowded(c, s);
    var k :| Released(s) <= k < Produced(s) && SlotOf(c, k) == SlotOf(c, Produced(s));
    var t := Next(c, s, a);
    assert Released(t) <= k < Produced(t) && SlotOf(c, k) == SlotOf(c, Produced(t));
  }

  /** The exact condition, run by run: no unread image is ever overwritten if and only if no image
      was begun, just after the sequence numbers wrapped, with `modulus % slots` or more queued. */
  lemma {:induction false} NeverOverwritesExactlyWhenRoomy(c: Cfg, acts: seq<Action>)
    requires c.Ok() && Legal(c, acts)
    ensures NeverOverwrites(c, acts) <==> Roomy(c, acts)
    decreases |acts|
  {
    if acts != [] {
      var prev := acts[..|acts| - 1];
      NeverOverwritesExactlyWhenRoomy(c, prev);
      if Roomy(c, acts) {
        RingIsCorrect(c, acts);
      } else if Roomy(c, prev) {
        RunKeepsInv(c, prev);
        CrowdedBeginOverwrites(c, After(c, prev), acts[|acts| - 1]);
      }
    } else {
      RingIsCorrect(c, acts);
    }
  }

  // ---- When the sequence numbers wrap ----

  /** Both sides at rest, n images published and k consumed, memory agreeing. */
  ghost predicate AtRest(c: Cfg, s: State, n: nat, k: nat)
    requires c.Ok()
  {
    && Shaped(c, s) && s.irq == Ready && s.thread == Top
    && |s.published| == n && |s.consumed| == k
    && s.w == n % c.modulus && s.r == k % c.modulus
  }

  lemma {:induction false} Extend(c: Cfg, acts: seq<Action>, a: Action) returns (more: seq<Action>)
    requires c.Ok() && Legal(c, acts) && Enabled(c, After(c, acts), a)
    ensures more == acts + [a] && Legal(c, more) && After(c, more) == Next(c, After(c, acts), a)
  {
    more := acts + [a];
    assert more[..|more| - 1] == acts;
  }

  /** Reach the point where the producer has begun to write the next image. */
  lemma {:induction false} Begin(c: Cfg, acts: seq<Action>, n: nat, k: nat) returns (more: seq<Action>)
    requires c.Ok() && Legal(c, acts) && AtRest(c, After(c, acts), n, k) && k <= n < k + c.slots
    ensures Legal(c, more)
    ensures var s, t := After(c, acts), After(c, more);
            && t.irq == Filling(n % c.modulus, Image([], 0, 0)) && t.thread == Top
            && t.published == s.published && t.consumed == s.consumed && t.w == s.w && t.r == s.r
  {
    WrapSubSmall(c, n, k);
    more := Extend(c, acts, IrqLoadW);
    more := Extend(c, more, IrqLoadR);
    more := Extend(c, more, IrqBegin(Image([], 0, 0)));
  }

  lemma {:induction false} Produce(c: Cfg, acts: seq<Action>, n: nat, k: nat) returns (more: seq<Action>)
    requires c.Ok() && Legal(c, acts) && AtRest(c, After(c, acts), n, k) && k <= n < k + c.slots
    ensures Legal(c, more) && AtRest(c, After(c, more), n + 1, k)
  {
    WrapNext(c, n);
    more := Begin(c, acts, n, k);
    more := Extend(c, more, IrqEnd);
    more := Extend(c, more, IrqLen);
    more := Extend(c, more, IrqCarry);
    more := Extend(c, more, IrqPublish);
  }

  lemma {:induction false} Look(c: Cfg, acts: seq<Action>, n: nat, k: nat) returns (more: seq<Action>)
    requires c.Ok() && Legal(c, acts) && AtRest(c, After(c, acts), n, k) && k < n <= k + c.slots
    ensures Legal(c, more)
    ensures After(c, more) == After(c, acts).(thread := SawLen(k % c.modulus))
  {
    WrapDistinct(c, n, k);
    more := Extend(c, acts, ThreadLoadR);
    more := Extend(c, more, ThreadLoadW);
  }

  lemma {:induction false} Consume(c: Cfg, acts: seq<Action>, n: nat, k: nat) returns (more: seq<Action>)
    requires c.Ok() && Legal(c, acts) && AtRest(c, After(c, acts), n, k) && k < n <= k + c.slots
    ensures Legal(c, more) && AtRest(c, After(c, more), n, k + 1)
  {
    WrapNext(c, k);
    more := Look(c, acts, n, k);
    more := Extend(c, more, ThreadLen);
    more := Extend(c, more, ThreadCarry);
    more := Extend(c, more, ThreadRelease);
  }

  lemma {:induction false} Reach(c: Cfg, n: nat, k: nat) returns (acts: seq<Action>)
    requires c.Ok() && k <= n <= k + c.slots
    ensures Legal(c, acts) && AtRest(c, After(c, acts), n, k)
    decreases n + k
  {
    if n == 0 {
      acts := [];
      SmallQuotient(0, c.modulus);
    } else if k == n {
      acts := Reach(c, n, k - 1);
      acts := Consume(c, acts, n, k - 1);
    } else {
      acts := Reach(c, n - 1, k);
      acts := Produce(c, acts, n - 1, k);
    }
  }

  lemma {:induction false} ReachOverwrite(c: Cfg) returns (acts: seq<Action>)
    requires c.Ok() && c.modulus % c.slots != 0
    ensures Legal(c, acts) && Overwrites(c, After(c, acts))
    ensures Produced(After(c, acts)) == c.modulus
  {
    var d := c.modulus % c.slots;
    acts := Reach(c, c.modulus, c.modulus - d);
    acts := Begin(c, acts, c.modulus, c.modulus - d);
    SlotsCollide(c, c.modulus - d, c.modulus);
    SmallQuotient(c.modulus - d, c.modulus);
    var s := After(c, acts);
    assert SlotOf(c, c.modulus - d) == SlotOf(c, Produced(s));
  }

  /** Slot exclusivity over all runs holds exactly for rings whose size divides the modulus of
      the sequence numbers. Otherwise, once the counters wrap with `modulus % slots` images
      queued, the producer overwrites the oldest unread one. */
  lemma {:induction false} ExclusiveExactlyWhenDivides(c: Cfg)
    requires c.Ok()
    ensures (forall acts :: Legal(c, acts) ==> !Overwrites(c, After(c, acts)))
            <==> c.modulus % c.slots == 0
  {
    if c.modulus % c.slots == 0 {
      forall acts | Legal(c, acts)
        ensures !Overwrites(c, After(c, acts))
      {
        NoWrapIsRoomy(c, acts);
        RingIsCorrect(c, acts);
      }
    } else {
      var acts := ReachOverwrite(c);
    }
  }

  /** The device's ring, 6 slots and 32-bit numbers, does overwrite an unread image: four images
      queued, 2^32 published. */
  lemma DeviceRingWraps() returns (acts: seq<Action>)
    ensures var c := Cfg(6, 0x1_0000_0000);
            Legal(c, acts) && Overwrites(c, After(c, acts)) && Produced(After(c, acts)) == 0x1_0000_0000
  {
    acts := ReachOverwrite(Cfg(6, 0x1_0000_0000));
  }
}
