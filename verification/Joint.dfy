/** The whole receiver in one run: interrupt, decode thread and reader, one step at a time in any
    interleaving, frame by frame into the inbox while the image is still held. */
module Joint {
  import opened Wire
  import R = Runs
  import Ring = ImageRing
  import X = RxStream
  import S = Receive
  import I = Inbox
  import P = Pipeline
  import Z = Series

  /** What the ring and the inbox have been through, and how many frames of the image being
      scanned have been published. */
  datatype Moment = Moment(acts: seq<Ring.Action>, ops: seq<I.Op>, done: nat)

  /** A step of the ring, the thread publishing its next frame, or the reader's. */
  datatype Event = RingStep(act: Ring.Action) | PutNext | Read(op: I.Op)

  ghost function Now(c: Ring.Cfg, m: Moment): Ring.State
    requires c.Ok() && Ring.Legal(c, m.acts)
  {
    Ring.After(c, m.acts)
  }

  /** The frames of the image in hand. */
  ghost function InHand(s: Ring.State, our: Bytes): seq<Bytes> {
    if s.thread.Scanning? then P.Frames(s.thread.got, our) else []
  }

  /** The thread has looked at the image in hand and published all its frames. */
  ghost predicate Finished(s: Ring.State, done: nat, our: Bytes) {
    s.thread.Scanning? && s.thread.got.views != [] && done == |InHand(s, our)|
  }

  /** An image is released only when it is finished, and a put publishes its next frame. */
  ghost predicate Enabled(c: Ring.Cfg, m: Moment, e: Event, our: Bytes)
    requires c.Ok() && Ring.Legal(c, m.acts)
  {
    var s := Now(c, m);
    match e
    case RingStep(act) =>
      Ring.Enabled(c, s, act)
      && (act.ThreadRelease? ==> Finished(s, m.done, our))
    case PutNext => m.done < |InHand(s, our)|
    case Read(op) => !op.Put?
  }

  ghost function Next(c: Ring.Cfg, m: Moment, e: Event, our: Bytes): (n: Moment)
    requires c.Ok() && Ring.Legal(c, m.acts) && Enabled(c, m, e, our)
    ensures Ring.Legal(c, n.acts)
  {
    match e
    case RingStep(act) =>
      assert (m.acts + [act])[..|m.acts|] == m.acts;
      Moment(m.acts + [act], m.ops, if act.ThreadRelease? then 0 else m.done)
    case PutNext =>
      Moment(m.acts, m.ops + [I.Put(InHand(Now(c, m), our)[m.done])], m.done + 1)
    case Read(op) => m.(ops := m.ops + [op])
  }

  ghost predicate Legal(c: Ring.Cfg, es: seq<Event>, our: Bytes)
    requires c.Ok()
    decreases |es|, 0
  {
    es == [] || (Legal(c, es[..|es| - 1], our)
                 && Enabled(c, After(c, es[..|es| - 1], our), es[|es| - 1], our))
  }

  ghost function After(c: Ring.Cfg, es: seq<Event>, our: Bytes): (m: Moment)
    requires c.Ok() && Legal(c, es, our)
    ensures Ring.Legal(c, m.acts)
    decreases |es|, 1
  {
    if es == [] then Moment([], [], 0)
    else Next(c, After(c, es[..|es| - 1], our), es[|es| - 1], our)
  }

  // ---- What has been put into the inbox ----

  /** The inbox has been given what the images released hold, then so much of the one in hand. */
  ghost predicate Agrees(s: Ring.State, ops: seq<I.Op>, done: nat, our: Bytes) {
    && P.ScannedAll(s.consumed) && done <= |InHand(s, our)|
    && I.PutIn(ops) == P.Published(s.consumed, our) + InHand(s, our)[..done]
  }

  ghost predicate Inv(c: Ring.Cfg, m: Moment, our: Bytes)
    requires c.Ok() && Ring.Legal(c, m.acts)
  {
    Agrees(Now(c, m), m.ops, m.done, our)
  }

  lemma {:induction false} NowAfter(c: Ring.Cfg, acts: seq<Ring.Action>, act: Ring.Action)
    requires c.Ok() && Ring.Legal(c, acts) && Ring.Enabled(c, Ring.After(c, acts), act)
    ensures Ring.Legal(c, acts + [act])
    ensures Ring.After(c, acts + [act]) == Ring.Next(c, Ring.After(c, acts), act)
  {
    assert (acts + [act])[..|acts|] == acts;
  }

  /** Until it is released, the image in hand keeps its frames. */
  lemma {:induction false} HandKept(c: Ring.Cfg, s: Ring.State, act: Ring.Action, our: Bytes)
    requires c.Ok() && Ring.Shaped(c, s) && Ring.Enabled(c, s, act) && !act.ThreadRelease?
    ensures var t := Ring.Next(c, s, act);
            t.consumed == s.consumed && (InHand(s, our) == [] || InHand(t, our) == InHand(s, our))
  {
  }

  lemma {:induction false} ReleasePublishes(gots: seq<Ring.Got>, g: Ring.Got, our: Bytes)
    ensures P.Published(gots + [g], our) == P.Published(gots, our) + P.Frames(g, our)
  {
    assert (gots + [g])[..|gots|] == gots;
  }

  lemma {:induction false} AllOf(before: seq<Bytes>, f: seq<Bytes>, done: nat)
    requires done == |f|
    ensures before + f[..done] == before + f
  {
    assert f[..done] == f;
  }

  lemma {:induction false} NoneOf(before: seq<Bytes>, f: seq<Bytes>)
    ensures before + f[..0] == before
  {
    assert f[..0] == [];
  }

  lemma {:induction false} ReleaseAgrees(
      c: Ring.Cfg, s: Ring.State, act: Ring.Action, ops: seq<I.Op>, done: nat, our: Bytes)
    requires c.Ok() && Ring.Shaped(c, s) && act.ThreadRelease? && Finished(s, done, our)
    requires Agrees(s, ops, done, our)
    ensures Agrees(Ring.Next(c, s, act), ops, 0, our)
  {
    AllOf(P.Published(s.consumed, our), InHand(s, our), done);
    ReleasePublishes(s.consumed, s.thread.got, our);
    NoneOf(P.Published(s.consumed + [s.thread.got], our), InHand(Ring.Next(c, s, act), our));
  }

  lemma {:induction false} OtherAgrees(
      c: Ring.Cfg, s: Ring.State, act: Ring.Action, ops: seq<I.Op>, done: nat, our: Bytes)
    requires c.Ok() && Ring.Shaped(c, s) && Ring.Enabled(c, s, act) && !act.ThreadRelease?
    requires Agrees(s, ops, done, our)
    ensures Agrees(Ring.Next(c, s, act), ops, done, our)
  {
    HandKept(c, s, act, our);
  }

  lemma {:induction false} RingStepKeeps(c: Ring.Cfg, m: Moment, act: Ring.Action, our: Bytes)
    requires c.Ok() && Ring.Legal(c, m.acts) && Inv(c, m, our) && Enabled(c, m, RingStep(act), our)
    ensures Inv(c, Next(c, m, RingStep(act), our), our)
  {
    var s := Now(c, m);
    NowAfter(c, m.acts, act);
    if act.ThreadRelease? {
      ReleaseAgrees(c, s, act, m.ops, m.done, our);
    } else {
      OtherAgrees(c, s, act, m.ops, m.done, our);
    }
  }

  lemma {:induction false} OneMoreOp(ops: seq<I.Op>, op: I.Op)
    ensures I.PutIn(ops + [op]) == I.PutIn(ops) + (if op.Put? then [op.frame] else [])
  {
    assert (ops + [op])[..|ops|] == ops;
  }

  lemma {:induction false} PutGrows(ops: seq<I.Op>, before: seq<Bytes>, f: seq<Bytes>, done: nat, next: nat)
    requires next == done + 1 <= |f| && I.PutIn(ops) == before + f[..done]
    ensures I.PutIn(ops + [I.Put(f[done])]) == before + f[..next]
  {
    OneMoreOp(ops, I.Put(f[done]));
    assert f[..next] == f[..done] + [f[done]];
  }

  lemma {:induction false} PutKeeps(c: Ring.Cfg, m: Moment, our: Bytes)
    requires c.Ok() && Ring.Legal(c, m.acts) && Inv(c, m, our) && Enabled(c, m, PutNext, our)
    ensures Inv(c, Next(c, m, PutNext, our), our)
  {
    var s := Now(c, m);
    PutGrows(m.ops, P.Published(s.consumed, our), InHand(s, our), m.done, m.done + 1);
  }

  lemma {:induction false} EventKeeps(c: Ring.Cfg, m: Moment, e: Event, our: Bytes)
    requires c.Ok() && Ring.Legal(c, m.acts) && Inv(c, m, our) && Enabled(c, m, e, our)
    ensures Inv(c, Next(c, m, e, our), our)
  {
    match e
    case RingStep(act) => RingStepKeeps(c, m, act, our);
    case PutNext => PutKeeps(c, m, our);
    case Read(op) => OneMoreOp(m.ops, op);
  }

  /** At every moment, what has been put into the inbox is what the images released so far hold,
      followed by the frames already published of the one in hand. */
  lemma {:induction false} RunKeepsInv(c: Ring.Cfg, es: seq<Event>, our: Bytes)
    requires c.Ok() && Legal(c, es, our)
    ensures Inv(c, After(c, es, our), our)
    decreases |es|
  {
    if es != [] {
      RunKeepsInv(c, es[..|es| - 1], our);
      EventKeeps(c, After(c, es[..|es| - 1], our), es[|es| - 1], our);
    }
  }

  /** A run in which these images are polled and none is begun while the ring is crowded. */
  ghost predicate Polled(c: Ring.Cfg, es: seq<Event>, images: seq<Bytes>, our: Bytes) {
    && c.Ok() && Legal(c, es, our) && Ring.Roomy(c, After(c, es, our).acts)
    && P.Offered(Now(c, After(c, es, our)).offered, images)
  }

  lemma {:induction false} PolledIsCaptured(c: Ring.Cfg, es: seq<Event>, images: seq<Bytes>, our: Bytes)
    requires Polled(c, es, images, our)
    ensures P.Captured(c, After(c, es, our).acts, images)
  {
    RunKeepsInv(c, es, our);
  }

  /** At every moment of every run, images dropped or not: the frames put into the inbox are, in
      order, those of the images accepted and released, then those of the one in hand. */
  lemma {:induction false} InboxFollowsRing(c: Ring.Cfg, es: seq<Event>, images: seq<Bytes>, our: Bytes)
    requires Polled(c, es, images, our)
    ensures var m := After(c, es, our);
            var s := Now(c, m);
            && (forall k :: 0 <= k < |s.kept| ==> s.kept[k] < |images|)
            && Ring.Released(s) <= |s.kept| && m.done <= |InHand(s, our)|
            && I.PutIn(m.ops)
               == S.PublishedFrom(P.Select(images, s.kept)[..Ring.Released(s)], our)
                  + InHand(s, our)[..m.done]
  {
    RunKeepsInv(c, es, our);
    PolledIsCaptured(c, es, images, our);
    P.AcceptedIsPublished(c, After(c, es, our).acts, images, our);
  }

  /** Every image polled has been accepted, scanned and released. */
  ghost predicate Drained(c: Ring.Cfg, es: seq<Event>, images: seq<Bytes>, our: Bytes) {
    Polled(c, es, images, our) && Ring.Released(Now(c, After(c, es, our))) == |images|
  }

  lemma {:induction false} NothingInHand(c: Ring.Cfg, es: seq<Event>, images: seq<Bytes>, our: Bytes)
    requires Drained(c, es, images, our)
    ensures InHand(Now(c, After(c, es, our)), our) == []
  {
    var m := After(c, es, our);
    Ring.RunKeepsInv(c, m.acts);
    PolledIsCaptured(c, es, images, our);
    P.RingDelivers(c, m.acts, images);
    P.NoMoreThan(Now(c, m).kept, |images|);
  }

  /** From halves to the reader, under every interleaving of interrupt, thread and reader: once all
      images are drained, the frames the reader took followed by those waiting are those of the
      stream exactly when it kept up. */
  lemma {:induction false} StreamReachesReader(
      c: Ring.Cfg, es: seq<Event>, g: X.Geometry, hs: seq<Bytes>, our: Bytes)
    requires 0 < g.buf <= g.maxCarry && X.Halves(g, hs)
    requires Drained(c, es, X.Images(g, hs), our)
    ensures var ops := After(c, es, our).ops;
            I.KeptUp(ops) <==> I.TakenOut(ops) + I.Run(ops).frames == P.StreamFrames(g, hs, our)
  {
    var m := After(c, es, our);
    RunKeepsInv(c, es, our);
    NothingInHand(c, es, X.Images(g, hs), our);
    PolledIsCaptured(c, es, X.Images(g, hs), our);
    P.StreamReachesReader(c, m.acts, g, hs, our, m.ops);
  }

  /** From the senders' frames to the reader. Consistent frames, sent one after the other at the
      nominal rate with any silence between them, sampled, cut into halves, stitched into images,
      passed through the ring and the inbox under any interleaving: with every image drained, the
      reader has or is about to get exactly those sent to us or to a group, in order, if and only
      if it kept up. */
  lemma {:induction false} FramesReachReader(
      c: Ring.Cfg, es: seq<Event>, g: X.Geometry, hs: seq<Bytes>, sents: seq<Z.Sent>, our: Bytes)
    requires Z.LONGEST <= g.buf <= g.maxCarry && X.Halves(g, hs)
    requires Z.Records(X.Concat(hs), Z.Stream(sents)) && Z.AllSendable(sents)
    requires Drained(c, es, X.Images(g, hs), our)
    ensures var ops := After(c, es, our).ops;
            I.KeptUp(ops) <==> I.TakenOut(ops) + I.Run(ops).frames == Z.AllPassed(sents, our)
  {
    StreamReachesReader(c, es, g, hs, our);
    Z.SeriesSurvives(g, hs, sents, our);
  }

  // ---- Such runs exist ----

  lemma {:induction false} Extend(c: Ring.Cfg, es: seq<Event>, e: Event, our: Bytes) returns (more: seq<Event>)
    requires c.Ok() && Legal(c, es, our) && Enabled(c, After(c, es, our), e, our)
    ensures more == es + [e] && Legal(c, more, our)
    ensures After(c, more, our) == Next(c, After(c, es, our), e, our)
  {
    more := es + [e];
    assert more[..|es|] == es;
  }

  /** A run so far without an ill-timed begin. */
  ghost predicate Fine(c: Ring.Cfg, es: seq<Event>, our: Bytes) {
    c.Ok() && Legal(c, es, our) && Ring.Roomy(c, After(c, es, our).acts)
  }

  /** One step of the ring; a begin must not be ill-timed. */
  lemma {:induction false} StepWith(c: Ring.Cfg, es: seq<Event>, act: Ring.Action, our: Bytes)
    returns (more: seq<Event>, t: Ring.State)
    requires Fine(c, es, our) && Enabled(c, After(c, es, our), RingStep(act), our)
    requires act.IrqBegin? ==> !Ring.Crowded(c, Now(c, After(c, es, our)))
    ensures Fine(c, more, our) && t == Ring.Next(c, Now(c, After(c, es, our)), act)
    ensures Now(c, After(c, more, our)) == t && After(c, more, our).ops == After(c, es, our).ops
    ensures After(c, more, our).done == if act.ThreadRelease? then 0 else After(c, es, our).done
  {
    var m := After(c, es, our);
    NowAfter(c, m.acts, act);
    more := Extend(c, es, RingStep(act), our);
    t := Ring.Next(c, Now(c, m), act);
    assert (m.acts + [act])[..|m.acts|] == m.acts;
  }

  /** The reader has taken all that was put in, and never fell behind. */
  ghost predicate AllRead(ops: seq<I.Op>) {
    I.KeptUp(ops) && |I.TakenOut(ops)| == |I.PutIn(ops)|
  }

  /** Both sides of the ring at rest, these images polled, accepted and released, all frames read. */
  ghost predicate Served(c: Ring.Cfg, es: seq<Event>, imgs: seq<Ring.Image>, our: Bytes) {
    && c.Ok() && Legal(c, es, our) && Ring.Roomy(c, After(c, es, our).acts)
    && Ring.AtRest(c, Now(c, After(c, es, our)), |imgs|, |imgs|)
    && Now(c, After(c, es, our)).offered == imgs
    && After(c, es, our).done == 0 && AllRead(After(c, es, our).ops)
  }

  /** Where the run has got to. */
  ghost predicate At(c: Ring.Cfg, es: seq<Event>, s: Ring.State, ops: seq<I.Op>, done: nat, our: Bytes) {
    && Fine(c, es, our) && Now(c, After(c, es, our)) == s
    && After(c, es, our).ops == ops && After(c, es, our).done == done
  }

  lemma {:induction false} StepTo(
      c: Ring.Cfg, es: seq<Event>, s: Ring.State, act: Ring.Action, ops: seq<I.Op>, done: nat, our: Bytes)
    returns (more: seq<Event>, t: Ring.State)
    requires At(c, es, s, ops, done, our) && Ring.Enabled(c, s, act)
    requires !act.ThreadRelease? && (act.IrqBegin? ==> !Ring.Crowded(c, s))
    ensures Ring.Shaped(c, s) && t == Ring.Next(c, s, act) && At(c, more, t, ops, done, our)
  {
    more, t := StepWith(c, es, act, our);
  }

  lemma {:induction false} BeginImage(
      c: Ring.Cfg, es: seq<Event>, s: Ring.State, img: Ring.Image, n: nat, ops: seq<I.Op>, done: nat, our: Bytes)
    returns (more: seq<Event>, t: Ring.State)
    requires At(c, es, s, ops, done, our) && Ring.AtRest(c, s, n, n)
    ensures At(c, more, t, ops, done, our)
    ensures t == s.(irq := Ring.Filling(n % c.modulus, img), slot := t.slot, offered := s.offered + [img])
  {
    Ring.WrapSubSmall(c, n, n);
    more, t := StepTo(c, es, s, Ring.IrqLoadW, ops, done, our);
    more, t := StepTo(c, more, t, Ring.IrqLoadR, ops, done, our);
    more, t := StepTo(c, more, t, Ring.IrqBegin(img), ops, done, our);
  }

  lemma {:induction false} FillImage(
      c: Ring.Cfg, es: seq<Event>, s: Ring.State, ops: seq<I.Op>, done: nat, our: Bytes)
    returns (more: seq<Event>, t: Ring.State)
    requires At(c, es, s, ops, done, our) && s.irq.Filling?
    ensures At(c, more, t, ops, done, our)
    ensures t == s.(irq := Ring.CarryStored(s.irq.w, s.irq.img), slot := t.slot, len := t.len, carry := t.carry)
  {
    more, t := StepTo(c, es, s, Ring.IrqEnd, ops, done, our);
    more, t := StepTo(c, more, t, Ring.IrqLen, ops, done, our);
    more, t := StepTo(c, more, t, Ring.IrqCarry, ops, done, our);
  }

  lemma {:induction false} PublishedRests(c: Ring.Cfg, s: Ring.State, n: nat, k: nat)
    requires c.Ok() && Ring.Shaped(c, s) && s.irq.CarryStored? && s.irq.w == n % c.modulus && k == n + 1
    requires s.thread == Ring.Top && |s.published| == n && |s.consumed| == n && s.r == n % c.modulus
    ensures Ring.AtRest(c, Ring.Next(c, s, Ring.IrqPublish), k, n)
  {
    Ring.WrapNext(c, n);
  }

  lemma {:induction false} WriteImage(
      c: Ring.Cfg, es: seq<Event>, s: Ring.State, img: Ring.Image, n: nat, k: nat, ops: seq<I.Op>, done: nat,
      our: Bytes)
    returns (more: seq<Event>, t: Ring.State)
    requires At(c, es, s, ops, done, our) && Ring.AtRest(c, s, n, n) && k == n + 1
    ensures At(c, more, t, ops, done, our) && Ring.AtRest(c, t, k, n) && t.offered == s.offered + [img]
  {
    more, t := BeginImage(c, es, s, img, n, ops, done, our);
    more, t := FillImage(c, more, t, ops, done, our);
    PublishedRests(c, t, n, k);
    more, t := StepTo(c, more, t, Ring.IrqPublish, ops, done, our);
  }

  /** Image n, the last of k, is in the thread's hands, looked at. */
  ghost predicate Held(c: Ring.Cfg, s: Ring.State, n: nat, k: nat)
    requires c.Ok()
  {
    && Ring.Shaped(c, s) && s.irq == Ring.Ready && |s.published| == k && |s.consumed| == n
    && s.w == k % c.modulus && s.r == n % c.modulus
    && s.thread.Scanning? && s.thread.r == n % c.modulus && s.thread.got.views != []
  }

  lemma {:induction false} LookAtImage(
      c: Ring.Cfg, es: seq<Event>, s: Ring.State, n: nat, k: nat, ops: seq<I.Op>, done: nat, our: Bytes)
    returns (more: seq<Event>, t: Ring.State)
    requires At(c, es, s, ops, done, our) && Ring.AtRest(c, s, k, n) && k == n + 1
    ensures At(c, more, t, ops, done, our) && Held(c, t, n, k) && t.offered == s.offered
  {
    Ring.WrapDistinct(c, k, n);
    more, t := StepTo(c, es, s, Ring.ThreadLoadR, ops, done, our);
    more, t := StepTo(c, more, t, Ring.ThreadLoadW, ops, done, our);
    more, t := StepTo(c, more, t, Ring.ThreadLen, ops, done, our);
    more, t := StepTo(c, more, t, Ring.ThreadCarry, ops, done, our);
    more, t := StepTo(c, more, t, Ring.ThreadRead, ops, done, our);
  }

  lemma {:induction false} PutThenTake(ops: seq<I.Op>, frame: Bytes)
    requires AllRead(ops)
    ensures AllRead(ops + [I.Put(frame)] + [I.Take])
  {
    var put := ops + [I.Put(frame)];
    var both := put + [I.Take];
    assert put[..|ops|] == ops && both[..|put|] == put;
    var at := I.InboxKeepsNewest(put);
    I.NothingLostExactlyWhenKeptUp(ops);
    I.KeptUpStep(put);
    I.KeptUpStep(both);
    I.NothingLostExactlyWhenKeptUp(put);
    I.HistoryStep(put);
    I.HistoryStep(both);
  }

  lemma {:induction false} PutOne(
      c: Ring.Cfg, es: seq<Event>, s: Ring.State, f: seq<Bytes>, ops: seq<I.Op>, done: nat, our: Bytes)
    returns (more: seq<Event>)
    requires At(c, es, s, ops, done, our) && s.thread.Scanning? && f == InHand(s, our) && done < |f|
    ensures At(c, more, s, ops + [I.Put(f[done])] + [I.Take], done + 1, our)
  {
    more := Extend(c, es, PutNext, our);
    more := Extend(c, more, Read(I.Take), our);
  }

  /** Publish the frames of the image in hand, each taken at once. */
  lemma {:induction false} PutFrames(
      c: Ring.Cfg, es: seq<Event>, s: Ring.State, f: seq<Bytes>, ops: seq<I.Op>, done: nat, our: Bytes)
    returns (more: seq<Event>, all: seq<I.Op>)
    requires At(c, es, s, ops, done, our) && s.thread.Scanning? && f == InHand(s, our) && done <= |f|
    requires AllRead(ops)
    ensures At(c, more, s, all, |f|, our) && AllRead(all)
    decreases |f| - done
  {
    if done == |f| {
      more, all := es, ops;
    } else {
      PutThenTake(ops, f[done]);
      more := PutOne(c, es, s, f, ops, done, our);
      more, all := PutFrames(c, more, s, f, ops + [I.Put(f[done])] + [I.Take], done + 1, our);
    }
  }

  lemma {:induction false} Release(
      c: Ring.Cfg, es: seq<Event>, s: Ring.State, act: Ring.Action, ops: seq<I.Op>, done: nat, our: Bytes)
    returns (more: seq<Event>, t: Ring.State)
    requires At(c, es, s, ops, done, our) && Finished(s, done, our) && act.ThreadRelease?
    ensures Ring.Shaped(c, s) && t == Ring.Next(c, s, act) && At(c, more, t, ops, 0, our)
  {
    more, t := StepWith(c, es, act, our);
  }

  lemma {:induction false} ReleasedRests(c: Ring.Cfg, s: Ring.State, t: Ring.State, n: nat, k: nat)
    requires c.Ok() && Held(c, s, n, k) && k == n + 1 && t == Ring.Next(c, s, Ring.ThreadRelease)
    ensures Ring.AtRest(c, t, k, k) && t.offered == s.offered
  {
    Ring.WrapNext(c, n);
  }

  lemma {:induction false} ReleaseImage(
      c: Ring.Cfg, es: seq<Event>, s: Ring.State, n: nat, k: nat, ops: seq<I.Op>, done: nat, our: Bytes)
    returns (more: seq<Event>, t: Ring.State)
    requires At(c, es, s, ops, done, our) && Held(c, s, n, k) && k == n + 1 && done == |InHand(s, our)|
    ensures At(c, more, t, ops, 0, our) && Ring.AtRest(c, t, k, k) && t.offered == s.offered
  {
    more, t := Release(c, es, s, Ring.ThreadRelease, ops, done, our);
    ReleasedRests(c, s, t, n, k);
  }

  lemma {:induction false} ServeOne(c: Ring.Cfg, es: seq<Event>, imgs: seq<Ring.Image>, img: Ring.Image, our: Bytes)
    returns (more: seq<Event>)
    requires Served(c, es, imgs, our)
    ensures Served(c, more, imgs + [img], our)
  {
    var n, k, s, ops := |imgs|, |imgs| + 1, Now(c, After(c, es, our)), After(c, es, our).ops;
    more, s := WriteImage(c, es, s, img, n, k, ops, 0, our);
    more, s := LookAtImage(c, more, s, n, k, ops, 0, our);
    more, ops := PutFrames(c, more, s, InHand(s, our), ops, 0, our);
    more, s := ReleaseImage(c, more, s, n, k, ops, |InHand(s, our)|, our);
  }

  /** For any images there is a run that polls exactly these, drains them all, and whose reader
      keeps up. */
  lemma {:induction false} AnyImagesCanBeServed(c: Ring.Cfg, imgs: seq<Ring.Image>, our: Bytes)
    returns (es: seq<Event>)
    requires c.Ok()
    ensures Served(c, es, imgs, our)
    ensures forall images :: P.Offered(imgs, images) ==> Drained(c, es, images, our)
  {
    if imgs == [] {
      es := [];
      Ring.SmallQuotient(0, c.modulus);
      assert I.KeptUp([]);
    } else {
      var n := |imgs| - 1;
      es := AnyImagesCanBeServed(c, imgs[..n], our);
      es := ServeOne(c, es, imgs[..n], imgs[n], our);
      assert imgs[..n] + [imgs[n]] == imgs;
    }
  }
}
