/**
 * Preview and video reference counts.  A delivered frame is held by every preview subscriber and, while
 * recording, every video subscriber; it goes back to the camera when the last of them returns it.  `Ledger`
 * is the view of the holders; `Counts` is what the adapter stores.
 */
module CameraBuffers {

  type Buffer = int

  datatype Kind = PreviewFrame | VideoFrame

  /** What the adapter keeps: count per buffer and kind, and how often each buffer was given to the camera. */
  datatype Counts = Counts(recording: bool, preview: map<Buffer, int>, video: map<Buffer, int>, filled: multiset<Buffer>)

  function CountOf(m: map<Buffer, int>, b: Buffer): int { if b in m then m[b] else 0 }

  function Get(c: Counts, b: Buffer, k: Kind): int {
    match k
    case PreviewFrame => CountOf(c.preview, b)
    case VideoFrame => CountOf(c.video, b)
  }

  /** replaceValueFor: a buffer that is not registered is not added. */
  function Replace(m: map<Buffer, int>, b: Buffer, n: int): map<Buffer, int> { if b in m then m[b := n] else m }

  function Put(c: Counts, b: Buffer, k: Kind, n: int): Counts {
    match k
    case PreviewFrame => c.(preview := Replace(c.preview, b, n))
    case VideoFrame => c.(video := Replace(c.video, b, n))
  }

  function OtherKind(k: Kind): Kind { if k == PreviewFrame then VideoFrame else PreviewFrame }

  /** A holder returns a frame; the buffer is filled again when nobody holds it. */
  function Return(c: Counts, b: Buffer, k: Kind): Counts {
    var n := Get(c, b, k);
    if n <= 0 then c
    else
      var d := Put(c, b, k, n - 1);
      var left := n - 1 + (if d.recording then Get(d, b, OtherKind(k)) else 0);
      if left == 0 then d.(filled := d.filled + multiset{b}) else d
  }

  /** A frame goes out to its subscribers; `withVideo` is set while recording. */
  function Deliver(c: Counts, b: Buffer, previews: nat, withVideo: bool, videos: nat): Counts {
    var d := Put(c, b, PreviewFrame, previews);
    if withVideo then Put(d, b, VideoFrame, videos) else d
  }

  function Zeroes(s: set<Buffer>): map<Buffer, int> { map b | b in s :: 0 }

  function BeginRecording(c: Counts): Counts {
    c.(recording := true, video := c.video + Zeroes(c.preview.Keys))
  }

  /** Buffers only the encoder held, once: they go back to the camera when recording stops. */
  function HeldOnceByVideo(c: Counts): set<Buffer> {
    set b | b in c.video && c.video[b] == 1 && CountOf(c.preview, b) == 0
  }

  function EndRecording(c: Counts): Counts {
    c.(recording := false, video := map[], filled := c.filled + multiset(HeldOnceByVideo(c)))
  }

  // ---- the holders' view ----

  /** A buffer is with the camera, or out with a number of preview and video holders. */
  datatype Place = WithCamera | Out(previews: nat, videos: nat)

  datatype Ledger = Ledger(recording: bool, places: map<Buffer, Place>)

  datatype Event =
    | DeliverFrame(b: Buffer, previews: nat, videos: nat)
    | ReturnFrame(b: Buffer, kind: Kind)
    | StartRecording
    | StopRecording

  /**
   * Frames come from buffers the camera has and reach at least one subscriber; video subscribers get them only
   * while recording; recording starts and stops alternately.
   */
  ghost predicate Legal(l: Ledger, e: Event) {
    match e
    case DeliverFrame(b, p, v) => b in l.places && l.places[b].WithCamera? && p + v > 0 && (!l.recording ==> v == 0)
    case ReturnFrame(b, k) => b in l.places
    case StartRecording => !l.recording
    case StopRecording => l.recording
  }

  /** What becomes of a place when one holder of a kind gives its frame back; surplus returns change nothing. */
  function GivenBack(p: Place, k: Kind): Place {
    match p
    case WithCamera => p
    case Out(n, v) =>
      var n', v' := if k == PreviewFrame && n > 0 then n - 1 else n, if k == VideoFrame && v > 0 then v - 1 else v;
      if n' == 0 && v' == 0 && (n, v) != (0, 0) then WithCamera else Out(n', v')
  }

  /** Stopping writes the encoder's holdings off; a buffer held only by it, more than once, is stranded. */
  function WrittenOff(p: Place): Place {
    match p
    case WithCamera => p
    case Out(n, v) => if n == 0 && v == 1 then WithCamera else Out(n, 0)
  }

  function Step(l: Ledger, e: Event): Ledger {
    match e
    case DeliverFrame(b, p, v) => l.(places := l.places[b := Out(p, v)])
    case ReturnFrame(b, k) => if b in l.places then l.(places := l.places[b := GivenBack(l.places[b], k)]) else l
    case StartRecording => l.(recording := true)
    case StopRecording => Ledger(false, map b | b in l.places :: WrittenOff(l.places[b]))
  }

  function Apply(c: Counts, e: Event): Counts {
    match e
    case DeliverFrame(b, p, v) => Deliver(c, b, p, c.recording, v)
    case ReturnFrame(b, k) => Return(c, b, k)
    case StartRecording => BeginRecording(c)
    case StopRecording => EndRecording(c)
  }

  // ---- the counts are the holders ----

  ghost predicate PlaceIs(c: Counts, p: Place, b: Buffer) {
    match p
    case WithCamera => CountOf(c.preview, b) == 0 && CountOf(c.video, b) == 0
    case Out(n, v) => CountOf(c.preview, b) == n && CountOf(c.video, b) == v
  }

  /** Counts equal outstanding holders; video counts exist exactly while recording. */
  ghost predicate Agrees(c: Counts, l: Ledger) {
    && c.recording == l.recording
    && c.preview.Keys == l.places.Keys
    && c.video.Keys == (if l.recording then l.places.Keys else {})
    && (forall b :: b in l.places ==> PlaceIs(c, l.places[b], b))
  }

  /** Buffers that this event hands to the camera. */
  ghost function BackToCamera(l: Ledger, e: Event): set<Buffer> {
    set b | b in l.places && l.places[b].Out? && b in Step(l, e).places && Step(l, e).places[b].WithCamera?
  }

  /**
   * One event: counts stay equal to holders, and the camera is asked to fill a buffer exactly when its last
   * holder gives it up, never on a surplus return.
   */
  lemma DeliverAgrees(c: Counts, l: Ledger, b: Buffer, p: nat, v: nat)
    requires Agrees(c, l) && Legal(l, DeliverFrame(b, p, v))
    ensures var e := DeliverFrame(b, p, v);
      Agrees(Apply(c, e), Step(l, e)) && Apply(c, e).filled == c.filled && BackToCamera(l, e) == {}
  {
    var e := DeliverFrame(b, p, v);
    forall x | x in l.places
      ensures PlaceIs(Apply(c, e), Step(l, e).places[x], x)
    {
      assert PlaceIs(c, l.places[x], x);
    }
  }

  /** The returned buffer itself: its count drops, and it is filled exactly when it goes back to the camera. */
  lemma ReturnedBuffer(c: Counts, l: Ledger, b: Buffer, k: Kind)
    requires Agrees(c, l) && b in l.places
    ensures PlaceIs(Return(c, b, k), GivenBack(l.places[b], k), b)
    ensures Return(c, b, k).filled ==
            c.filled + (if l.places[b].Out? && GivenBack(l.places[b], k).WithCamera? then multiset{b} else multiset{})
  {
    assert PlaceIs(c, l.places[b], b);
    assert b in c.preview && (b in c.video <==> c.recording);
    assert CountOf(c.video, b) == 0 || c.recording;
  }

  lemma ReturnElsewhere(c: Counts, b: Buffer, k: Kind)
    ensures var d := Return(c, b, k);
      && d.recording == c.recording && d.preview.Keys == c.preview.Keys && d.video.Keys == c.video.Keys
      && forall x :: x != b ==> CountOf(d.preview, x) == CountOf(c.preview, x) && CountOf(d.video, x) == CountOf(c.video, x)
  {
  }

  lemma ReturnAgrees(c: Counts, l: Ledger, b: Buffer, k: Kind)
    requires Agrees(c, l) && b in l.places
    ensures var e := ReturnFrame(b, k);
      Agrees(Apply(c, e), Step(l, e)) && Apply(c, e).filled == c.filled + multiset(BackToCamera(l, e))
  {
    var e := ReturnFrame(b, k);
    ReturnedBuffer(c, l, b, k);
    ReturnElsewhere(c, b, k);
    forall x | x in l.places
      ensures PlaceIs(Apply(c, e), Step(l, e).places[x], x)
    {
      assert PlaceIs(c, l.places[x], x);
    }
    assert BackToCamera(l, e) == if l.places[b].Out? && GivenBack(l.places[b], k).WithCamera? then {b} else {};
  }

  lemma StartAgrees(c: Counts, l: Ledger)
    requires Agrees(c, l) && Legal(l, StartRecording)
    ensures Agrees(Apply(c, StartRecording), Step(l, StartRecording))
    ensures Apply(c, StartRecording).filled == c.filled && BackToCamera(l, StartRecording) == {}
  {
    forall x | x in l.places
      ensures PlaceIs(Apply(c, StartRecording), l.places[x], x)
    {
      assert PlaceIs(c, l.places[x], x);
    }
  }

  lemma StopAgrees(c: Counts, l: Ledger)
    requires Agrees(c, l) && Legal(l, StopRecording)
    ensures Agrees(Apply(c, StopRecording), Step(l, StopRecording))
    ensures Apply(c, StopRecording).filled == c.filled + multiset(BackToCamera(l, StopRecording))
  {
    forall x | x in l.places
      ensures PlaceIs(Apply(c, StopRecording), Step(l, StopRecording).places[x], x)
      ensures x in HeldOnceByVideo(c) <==> x in BackToCamera(l, StopRecording)
    {
      assert PlaceIs(c, l.places[x], x);
    }
    assert HeldOnceByVideo(c) == BackToCamera(l, StopRecording);
  }

  lemma StepAgrees(c: Counts, l: Ledger, e: Event)
    requires Agrees(c, l) && Legal(l, e)
    ensures Agrees(Apply(c, e), Step(l, e))
    ensures Apply(c, e).filled == c.filled + multiset(BackToCamera(l, e))
  {
    match e
    case DeliverFrame(b, p, v) => DeliverAgrees(c, l, b, p, v);
    case ReturnFrame(b, k) => ReturnAgrees(c, l, b, k);
    case StartRecording => StartAgrees(c, l);
    case StopRecording => StopAgrees(c, l);
  }

  // ---- runs ----

  ghost function LedgerAfter(l: Ledger, es: seq<Event>): Ledger {
    if es == [] then l else Step(LedgerAfter(l, es[..|es| - 1]), es[|es| - 1])
  }

  function CountsAfter(c: Counts, es: seq<Event>): Counts {
    if es == [] then c else Apply(CountsAfter(c, es[..|es| - 1]), es[|es| - 1])
  }

  ghost predicate LegalRun(l: Ledger, es: seq<Event>) {
    es == [] || (LegalRun(l, es[..|es| - 1]) && Legal(LedgerAfter(l, es[..|es| - 1]), es[|es| - 1]))
  }

  /** Deliveries of buffer b in a run. */
  function Deliveries(es: seq<Event>, b: Buffer): nat {
    if es == [] then 0
    else Deliveries(es[..|es| - 1], b) + (if es[|es| - 1].DeliverFrame? && es[|es| - 1].b == b then 1 else 0)
  }

  function IsOut(l: Ledger, b: Buffer): nat {
    if b in l.places && l.places[b].Out? then 1 else 0
  }

  /** In every run the stored counts equal the outstanding holders. */
  lemma {:induction false} RunsAgree(c: Counts, l: Ledger, es: seq<Event>)
    requires Agrees(c, l) && LegalRun(l, es)
    ensures Agrees(CountsAfter(c, es), LedgerAfter(l, es))
  {
    if es != [] {
      RunsAgree(c, l, es[..|es| - 1]);
      StepAgrees(CountsAfter(c, es[..|es| - 1]), LedgerAfter(l, es[..|es| - 1]), es[|es| - 1]);
    }
  }

  lemma OneStepBalance(l: Ledger, e: Event, b: Buffer)
    requires Legal(l, e)
    ensures IsOut(l, b) + (if e.DeliverFrame? && e.b == b then 1 else 0)
         == IsOut(Step(l, e), b) + multiset(BackToCamera(l, e))[b]
  {
  }

  /**
   * Every delivered frame is filled exactly once: for each buffer, deliveries plus its being out at the start
   * equal fills plus its being out at the end.
   */
  lemma {:induction false} FilledOncePerDelivery(c: Counts, l: Ledger, es: seq<Event>, b: Buffer)
    requires Agrees(c, l) && LegalRun(l, es)
    ensures IsOut(l, b) + Deliveries(es, b) + c.filled[b] == IsOut(LedgerAfter(l, es), b) + CountsAfter(c, es).filled[b]
  {
    if es != [] {
      var front, e := es[..|es| - 1], es[|es| - 1];
      FilledOncePerDelivery(c, l, front, b);
      RunsAgree(c, l, front);
      StepAgrees(CountsAfter(c, front), LedgerAfter(l, front), e);
      OneStepBalance(LedgerAfter(l, front), e, b);
    }
  }

  /** A buffer that is out but that nobody holds: it never returns to the camera. */
  predicate Stranded(p: Place) { p == Out(0, 0) }

  ghost predicate NoneStranded(l: Ledger) { forall b :: b in l.places ==> !Stranded(l.places[b]) }

  /** A stranded buffer stays stranded whatever is returned. */
  lemma StrandedForGood(l: Ledger, e: Event, b: Buffer)
    requires b in l.places && Stranded(l.places[b]) && Legal(l, e)
    ensures b in Step(l, e).places && Stranded(Step(l, e).places[b])
  {
  }

  /** Deliveries, returns and starting to record strand nothing. */
  lemma OnlyStoppingStrands(l: Ledger, e: Event)
    requires NoneStranded(l) && Legal(l, e) && !e.StopRecording?
    ensures NoneStranded(Step(l, e))
  {
  }

  /** Stopping strands no buffer exactly when none is held by the encoder alone more than once. */
  lemma StoppingStrandsExactlyWhen(l: Ledger)
    requires NoneStranded(l)
    ensures NoneStranded(Step(l, StopRecording)) <==>
      forall b :: b in l.places && l.places[b].Out? && l.places[b].previews == 0 ==> l.places[b].videos == 1
  {
    var after := Step(l, StopRecording);
    if NoneStranded(after) {
      forall b | b in l.places && l.places[b].Out? && l.places[b].previews == 0
        ensures l.places[b].videos == 1
      {
        assert !Stranded(after.places[b]);
      }
    }
  }

  lemma OneMore(l: Ledger, es: seq<Event>, e: Event)
    ensures LedgerAfter(l, es + [e]) == Step(LedgerAfter(l, es), e)
    ensures LegalRun(l, es + [e]) <==> LegalRun(l, es) && Legal(LedgerAfter(l, es), e)
  {
    assert (es + [e])[..|es + [e]| - 1] == es;
  }

  lemma EarlyStopStrands(l: Ledger, b: Buffer, videos: nat)
    requires !l.recording && b in l.places && l.places[b].WithCamera? && videos >= 2
    ensures var l1 := Step(l, StartRecording);
      var l2 := Step(l1, DeliverFrame(b, 0, videos));
      var l3 := Step(l2, StopRecording);
      && Legal(l, StartRecording) && Legal(l1, DeliverFrame(b, 0, videos)) && Legal(l2, StopRecording)
      && b in l3.places && Stranded(l3.places[b])
  {
    var l2 := Step(Step(l, StartRecording), DeliverFrame(b, 0, videos));
    assert l2.recording && b in l2.places && l2.places[b] == Out(0, videos);
  }

  /** It does happen: record a buffer for two or more video subscribers alone and stop before they return it. */
  lemma StoppingEarlyStrands(l: Ledger, b: Buffer, videos: nat)
    requires !l.recording && b in l.places && l.places[b].WithCamera? && videos >= 2
    ensures var es := [StartRecording] + [DeliverFrame(b, 0, videos)] + [StopRecording];
      LegalRun(l, es) && b in LedgerAfter(l, es).places && Stranded(LedgerAfter(l, es).places[b])
  {
    var one := [StartRecording];
    var two := one + [DeliverFrame(b, 0, videos)];
    assert [] + one == one;
    OneMore(l, [], StartRecording);
    OneMore(l, one, DeliverFrame(b, 0, videos));
    OneMore(l, two, StopRecording);
    EarlyStopStrands(l, b, videos);
  }
}
