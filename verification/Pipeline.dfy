/** The receive path end to end: halves, images, ring, thread, inbox, reader. */
module Pipeline {
  import opened Wire
  import R = Runs
  import Ring = ImageRing
  import X = RxStream
  import S = Receive
  import I = Inbox

  /** The images polled are those that `poll_into` delivers for these halves. */
  ghost predicate Offered(offered: seq<Ring.Image>, images: seq<Bytes>) {
    && |offered| == |images|
    && forall k :: 0 <= k < |images| ==>
         offered[k].len <= |offered[k].bytes| && offered[k].bytes[..offered[k].len] == images[k]
  }

  /** The images at these places. */
  ghost function Select(images: seq<Bytes>, places: seq<nat>): (r: seq<Bytes>)
    requires forall k :: 0 <= k < |places| ==> places[k] < |images|
    ensures |r| == |places| && forall k :: 0 <= k < |r| ==> r[k] == images[places[k]]
  {
    if places == [] then []
    else
      var n := |places| - 1;
      Select(images, places[..n]) + [images[places[n]]]
  }

  ghost predicate Increasing(places: seq<nat>) {
    forall j, k :: 0 <= j < k < |places| ==> places[j] < places[k]
  }

  lemma {:induction false} PlaceAtLeast(places: seq<nat>, k: nat)
    requires Increasing(places) && k < |places|
    ensures k <= places[k]
    decreases k
  {
    if k > 0 {
      PlaceAtLeast(places, k - 1);
    }
  }

  lemma {:induction false} RoomAbove(places: seq<nat>, k: nat, n: nat)
    requires Increasing(places) && k < |places| && forall j :: 0 <= j < |places| ==> places[j] < n
    ensures places[k] + (|places| - k) <= n
    decreases |places| - k
  {
    if k + 1 < |places| {
      RoomAbove(places, k + 1, n);
    }
  }

  /** If as many are selected as there are, all are. */
  lemma {:induction false} SelectAll(images: seq<Bytes>, places: seq<nat>)
    requires Increasing(places) && |places| == |images|
    requires forall k :: 0 <= k < |places| ==> places[k] < |images|
    ensures Select(images, places) == images
  {
    forall k | 0 <= k < |places|
      ensures places[k] == k
    {
      PlaceAtLeast(places, k);
      RoomAbove(places, k, |images|);
    }
  }

  /** The image bytes the thread scanned, if it saw the slot whole. */
  ghost function Seen(g: Ring.Got): Option<Bytes> {
    if g.views != [] && g.views[0].Some? && g.len <= |g.views[0].value|
    then Some(g.views[0].value[..g.len]) else None
  }

  /** The frames of the stream that these halves are cut from, less what the carry budget cuts out
      of it (nothing, if no half hits it) and the active stretch still in flight. */
  ghost function StreamFrames(g: X.Geometry, hs: seq<Bytes>, our: Bytes): seq<Bytes> {
    S.ProcessAll(R.AtLeast(R.Runs(X.Body(X.Surviving(g, hs))), S.MIN_RUN), our)
  }

  /** The frames of one image the thread took. */
  ghost function Frames(g: Ring.Got, our: Bytes): seq<Bytes> {
    if Seen(g).Some? then S.ProcessAll(R.AtLeast(R.Runs(Seen(g).value), S.MIN_RUN), our) else []
  }

  /** What the thread publishes from the images it took, in order. */
  ghost function Published(gots: seq<Ring.Got>, our: Bytes): seq<Bytes> {
    if gots == [] then []
    else
      var n := |gots| - 1;
      Published(gots[..n], our) + Frames(gots[n], our)
  }

  /** These are the images the thread scanned, each seen whole. */
  ghost predicate SawEach(gots: seq<Ring.Got>, images: seq<Bytes>) {
    |gots| <= |images| && forall k :: 0 <= k < |gots| ==> Seen(gots[k]) == Some(images[k])
  }

  lemma {:induction false} PublishedFromSeen(gots: seq<Ring.Got>, images: seq<Bytes>, our: Bytes)
    requires SawEach(gots, images)
    ensures Published(gots, our) == S.PublishedFrom(images[..|gots|], our)
  {
    if gots != [] {
      var n := |gots| - 1;
      PublishedFromSeen(gots[..n], images, our);
      assert images[..n + 1][..n] == images[..n];
    }
  }

  /** The thread looked at the slot at least once for every image. */
  ghost predicate ScannedAll(gots: seq<Ring.Got>) {
    forall k :: 0 <= k < |gots| ==> gots[k].views != []
  }

  /** A run of the ring that never begins an image while crowded, was offered these images, and
      whose thread scanned what it took. */
  ghost predicate Captured(c: Ring.Cfg, acts: seq<Ring.Action>, images: seq<Bytes>) {
    && c.Ok() && Ring.Legal(c, acts) && Ring.Roomy(c, acts)
    && Offered(Ring.After(c, acts).offered, images)
    && ScannedAll(Ring.After(c, acts).consumed)
  }

  /** However the interrupt and the thread interleave, and however many images are dropped: the
      ring accepts images in order, and each taken from it is read whole and is the next one
      it accepted. */
  lemma {:induction false} RingDelivers(c: Ring.Cfg, acts: seq<Ring.Action>, images: seq<Bytes>)
    requires Captured(c, acts, images)
    ensures var s := Ring.After(c, acts);
            && Increasing(s.kept) && (forall k :: 0 <= k < |s.kept| ==> s.kept[k] < |images|)
            && SawEach(s.consumed, Select(images, s.kept))
  {
    Ring.RingIsCorrect(c, acts);
  }

  /** What is published. Images dropped or not, the frames published so far are, in order, those of
      the images accepted and taken so far. */
  lemma {:induction false} AcceptedIsPublished(c: Ring.Cfg, acts: seq<Ring.Action>, images: seq<Bytes>, our: Bytes)
    requires Captured(c, acts, images)
    ensures var s := Ring.After(c, acts);
            && (forall k :: 0 <= k < |s.kept| ==> s.kept[k] < |images|)
            && Ring.Released(s) <= |s.kept|
            && Published(s.consumed, our)
               == S.PublishedFrom(Select(images, s.kept)[..Ring.Released(s)], our)
  {
    var s := Ring.After(c, acts);
    RingDelivers(c, acts, images);
    PublishedFromSeen(s.consumed, Select(images, s.kept), our);
  }

  lemma {:induction false} NoMoreThan(places: seq<nat>, n: nat)
    requires Increasing(places) && forall j :: 0 <= j < |places| ==> places[j] < n
    ensures |places| <= n
  {
    if places != [] {
      RoomAbove(places, 0, n);
    }
  }

  lemma {:induction false} AllTaken(c: Ring.Cfg, acts: seq<Ring.Action>, images: seq<Bytes>)
    requires Captured(c, acts, images) && Ring.Released(Ring.After(c, acts)) == |images|
    ensures SawEach(Ring.After(c, acts).consumed, images)
  {
    var kept := Ring.After(c, acts).kept;
    RingDelivers(c, acts, images);
    NoMoreThan(kept, |images|);
    SelectAll(images, kept);
  }

  lemma {:induction false} DrainedIsStream(
      gots: seq<Ring.Got>, g: X.Geometry, hs: seq<Bytes>, our: Bytes)
    requires 0 < g.buf <= g.maxCarry && X.Halves(g, hs)
    requires SawEach(gots, X.Images(g, hs)) && |gots| == |X.Images(g, hs)|
    ensures Published(gots, our) == StreamFrames(g, hs, our)
  {
    var images := X.Images(g, hs);
    PublishedFromSeen(gots, images, our);
    assert images[..|gots|] == images;
    S.PublishedIgnoresBoundaries(g, hs, our);
  }

  /** Neither the half-buffer boundaries nor the interleaving of interrupt and thread can be seen
      in what is published: when no image was dropped and the thread has drained the ring, the
      frames it published are exactly, and in order, those of the stream. */
  lemma {:induction false} StreamIsPublished(
      c: Ring.Cfg, acts: seq<Ring.Action>, g: X.Geometry, hs: seq<Bytes>, our: Bytes)
    requires Captured(c, acts, X.Images(g, hs))
    requires 0 < g.buf <= g.maxCarry && X.Halves(g, hs)
    requires Ring.Released(Ring.After(c, acts)) == |X.Images(g, hs)|
    ensures Published(Ring.After(c, acts).consumed, our) == StreamFrames(g, hs, our)
  {
    RingDelivers(c, acts, X.Images(g, hs));
    AllTaken(c, acts, X.Images(g, hs));
    DrainedIsStream(Ring.After(c, acts).consumed, g, hs, our);
  }

  // ---- Into the inbox ----

  /** These frames pushed one after the other. */
  ghost function PushAll(b: I.Box, frames: seq<Bytes>): I.Box {
    if frames == [] then b
    else I.Push(PushAll(b, frames[..|frames| - 1]), frames[|frames| - 1])
  }

  lemma {:induction false} PushAllConcat(b: I.Box, f: seq<Bytes>, g: seq<Bytes>)
    ensures PushAll(b, f + g) == PushAll(PushAll(b, f), g)
    decreases |g|
  {
    if g == [] {
      assert f + g == f;
    } else {
      assert (f + g)[..|f + g| - 1] == f + g[..|g| - 1];
      PushAllConcat(b, f, g[..|g| - 1]);
    }
  }

  method PushEach(shared: I.RxShared, frames: seq<Bytes>)
    modifies shared
    ensures shared.State() == PushAll(old(shared.State()), frames)
  {
    for i := 0 to |frames|
      invariant shared.State() == PushAll(old(shared.State()), frames[..i])
    {
      assert frames[..i + 1][..i] == frames[..i];
      shared.PushFrame(frames[i]);
    }
    assert frames[..|frames|] == frames;
  }

  /** `scan_runs`, publishing as it goes: the frames of the image's long runs are pushed into the
      inbox in order. */
  method ScanIntoInbox(bytes: Bytes, our: Bytes, shared: I.RxShared)
    modifies shared
    ensures shared.State()
            == PushAll(old(shared.State()), S.ProcessAll(R.AtLeast(R.Runs(bytes), 100), our))
  {
    var runs := R.ScanRuns(bytes, S.MIN_RUN);
    S.LongRuns(R.Runs(bytes), S.MIN_RUN);
    assert S.ProcessAll(runs[..0], our) == [];
    for i := 0 to |runs|
      invariant shared.State() == PushAll(old(shared.State()), S.ProcessAll(runs[..i], our))
    {
      var frames := S.ProcessRun(runs[i], our);
      S.ProcessAllNext(runs, i, our);
      PushAllConcat(old(shared.State()), S.ProcessAll(runs[..i], our), frames);
      PushEach(shared, frames);
    }
    assert runs[..|runs|] == runs;
  }

  /** From halves to the reader. When, besides, what was put into the inbox is what the thread
      published: the frames the reader took followed by those waiting are those of the stream
      exactly when it kept up. */
  lemma {:induction false} StreamReachesReader(
      c: Ring.Cfg, acts: seq<Ring.Action>, g: X.Geometry, hs: seq<Bytes>, our: Bytes, ops: seq<I.Op>)
    requires Captured(c, acts, X.Images(g, hs))
    requires 0 < g.buf <= g.maxCarry && X.Halves(g, hs)
    requires Ring.Released(Ring.After(c, acts)) == |X.Images(g, hs)|
    requires I.PutIn(ops) == Published(Ring.After(c, acts).consumed, our)
    ensures I.KeptUp(ops) <==> I.TakenOut(ops) + I.Run(ops).frames == StreamFrames(g, hs, our)
  {
    StreamIsPublished(c, acts, g, hs, our);
    I.NothingLostExactlyWhenKeptUp(ops);
  }
}
