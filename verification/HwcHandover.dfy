/**
 * Handing pipelines over from frame to frame: until something is posted, every frame prepared has to stay within four
 * overlays together with the composition on the screen, whichever display either belongs to.
 */
module HwcHandover {
  import opened Common
  import opened HwcLayers
  import opened HwcAllocator
  import opened HwcCounting
  import opened HwcFrame
  import opened HwcRuns

  /** The prepared composition and the one on the screen, as they would meet on each display. */
  predicate Fits(st: State) {
    && st.prepared.post2 + st.shown.clones <= MAX_HW_OVERLAYS
    && st.prepared.clones + st.shown.post2 <= MAX_HW_OVERLAYS
  }

  ghost predicate NoSet(es: seq<Event>) { forall i :: 0 <= i < |es| ==> !es[i].SetFrame? }

  /** Whatever is plugged, listed and prepared before the next set fits. */
  ghost predicate HandoverSafe(st: State) { forall es: seq<Event> :: NoSet(es) ==> Fits(Run(st, es)) }

  /** Counters that cover the screen make every frame fit. */
  lemma {:induction false} TrackedRunsFit(st: State, es: seq<Event>)
    requires CountsSafe(st) && Tracks(st) && NoSet(es)
    ensures CountsSafe(Run(st, es)) && Tracks(Run(st, es)) && Fits(Run(st, es))
  {
    if es != [] {
      var front := es[..|es| - 1];
      assert forall i :: 0 <= i < |front| ==> front[i] == es[i];
      TrackedRunsFit(st, front);
      NextKeepsCounts(Run(st, front), es[|es| - 1]);
    }
  }

  // ---- lists that use all overlays they may ----

  /** Layers every SGX frame gives an overlay while there is one. */
  predicate ProtectedVideo(l: Layer) {
    ValidLayer(l) && l.handle.value.format == NV12 && l.handle.value.isProtected && !l.handle.value.dockable && !l.Blended()
  }

  ghost predicate AllProtectedVideo(ls: seq<Layer>) { forall i :: 0 <= i < |ls| ==> ProtectedVideo(ls[i]) }

  lemma {:induction false} ProtectedVideoTaken(f: Frame, ls: seq<Layer>)
    requires AllProtectedVideo(ls) && f.useSgx && f.maxHw >= 1
    ensures Assign(f, ls).memUsed == 0 && |Assign(f, ls).ovls| == Min(1 + |ls|, f.maxHw)
  {
    if ls != [] {
      var front := ls[..|ls| - 1];
      assert forall i :: 0 <= i < |front| ==> front[i] == ls[i];
      ProtectedVideoTaken(f, front);
    }
  }

  lemma {:induction false} ProtectedVideoStats(ls: seq<Layer>)
    requires AllProtectedVideo(ls)
    ensures Stats(ls).scaled == |ls| && Stats(ls).dockable == 0
  {
    if ls != [] {
      var front := ls[..|ls| - 1];
      assert forall i :: 0 <= i < |front| ==> front[i] == ls[i];
      ProtectedVideoStats(front);
    }
  }

  /** Four such layers take all the overlays the frame is granted. */
  lemma FourTakeAll(s: Settings, ls: seq<Layer>, hdmi: Hdmi)
    requires Reserved(s) && AllProtectedVideo(ls) && |ls| == MAX_HW_OVERLAYS
    ensures Decide(s, 0).maxHw >= 1 && Stats(ls).dockable == 0
    ensures Prepare(s, ls, hdmi).Post2() == Decide(s, 0).maxHw
  {
    ReservationSafe(s, 0);
    ProtectedVideoStats(ls);
    ProtectedVideoTaken(Prepare(s, ls, hdmi).frame, ls);
  }

  lemma FourLayers() returns (ls: seq<Layer>)
    ensures AllProtectedVideo(ls) && |ls| == MAX_HW_OVERLAYS
  {
    var l := Layer(Some(Handle(NV12, 16, 16, true, false)), false, Transform(false, false, false), Opaque,
                   Rect(0, 0, 16, 16), Rect(0, 0, 16, 16), true);
    ls := [l, l, l, l];
  }

  lemma RunOfTwo(st: State, a: Event, b: Event)
    ensures Run(st, [a, b]) == Next(Next(st, a), b)
  {
    assert [a, b][..1] == [a] && [a][..0] == [];
    assert Run(st, [a]) == Next(st, a);
  }

  /** With the external display unplugged, such a list leaves it only the overlays it was counted with. */
  lemma UnpluggedOverflows(st: State)
    requires CountsSafe(st) && st.shown.clones > st.s.lastExt
    ensures !HandoverSafe(st)
  {
    var ls := FourLayers();
    var h := Hdmi(true, false);
    var a := Hotplug(false, false, Properties(false, false, 0, false, 0, false), h);
    RunOfTwo(st, a, PrepareFrame(ls, h));
    NextKeepsCounts(st, a);
    FourTakeAll(Next(st, a).s, ls, h);
    assert NoSet([a, PrepareFrame(ls, h)]);
    assert !Fits(Run(st, [a, PrepareFrame(ls, h)]));
  }

  /** With mirroring plugged in, it takes as many external overlays as the internal ones were counted to leave. */
  lemma MirroringOverflows(st: State)
    requires CountsSafe(st) && st.shown.post2 > Max(st.s.lastInt, 2)
    ensures !HandoverSafe(st)
  {
    var ls := FourLayers();
    var h := Hdmi(true, false);
    var a := Hotplug(true, false, Properties(false, true, 0, false, 0, false), h);
    RunOfTwo(st, a, PrepareFrame(ls, h));
    NextKeepsCounts(st, a);
    FourTakeAll(Next(st, a).s, ls, h);
    MirrorClones(Next(st, a).s, ls, h);
    assert NoSet([a, PrepareFrame(ls, h)]);
    assert !Fits(Run(st, [a, PrepareFrame(ls, h)]));
  }

  /** Handover is safe exactly when the counters cover the screen. */
  lemma HandoverSafeExactlyWhen(st: State)
    requires CountsSafe(st)
    ensures HandoverSafe(st) <==> Tracks(st)
  {
    if Tracks(st) {
      forall es: seq<Event> | NoSet(es)
        ensures Fits(Run(st, es))
      {
        TrackedRunsFit(st, es);
      }
    } else if st.shown.clones > st.s.lastExt {
      UnpluggedOverflows(st);
    } else {
      MirroringOverflows(st);
    }
  }

  // ---- sets ----

  /** The post was reached and refused. */
  predicate Refused(st: State, screenOn: bool, swapOk: bool, postOk: bool) {
    screenOn && (st.useSgx ==> swapOk) && !postOk
  }

  /** The composition on the screen is no larger than the counts the prepared one leaves, two internal overlays apart. */
  predicate OldFits(st: State) {
    st.shown.clones <= st.extOvls && st.shown.post2 <= Max(st.prepared.post2, 2)
  }

  /** Handover survives a set exactly when the post is not refused or the old composition fits the new counts. */
  lemma SetKeepsHandoverExactlyWhen(st: State, screenOn: bool, swapOk: bool, postOk: bool)
    requires CountsSafe(st) && HandoverSafe(st)
    ensures HandoverSafe(AfterSet(st, screenOn, swapOk, postOk)) <==> !Refused(st, screenOn, swapOk, postOk) || OldFits(st)
  {
    SetKeepsCounts(st, screenOn, swapOk, postOk);
    HandoverSafeExactlyWhen(st);
    HandoverSafeExactlyWhen(AfterSet(st, screenOn, swapOk, postOk));
  }

  /**
   * The last set of a run that reached its end decides: it posted or blanked the screen, or was refused while what
   * was on the screen fitted its counts.
   */
  predicate TrackKept(st: State, es: seq<Event>) {
    if es == [] then Tracks(st)
    else
      var was, e := Run(st, es[..|es| - 1]), es[|es| - 1];
      if !e.SetFrame? || (e.screenOn && was.useSgx && !e.swapOk) then TrackKept(st, es[..|es| - 1])
      else !Refused(was, e.screenOn, e.swapOk, e.postOk) || OldFits(was)
  }

  lemma {:induction false} TrackKeptIsTracks(st: State, es: seq<Event>)
    requires CountsSafe(st)
    ensures CountsSafe(Run(st, es)) && (Tracks(Run(st, es)) <==> TrackKept(st, es))
  {
    if es != [] {
      TrackKeptIsTracks(st, es[..|es| - 1]);
      NextKeepsCounts(Run(st, es[..|es| - 1]), es[|es| - 1]);
    }
  }

  /**
   * After every event of every run, refused posts included, no subtraction of the next frame wraps and all counts
   * stay within four; handover is safe exactly when the last set that took effect kept track of the screen.
   */
  lemma RunsAreHandoverSafeExactlyWhen(st: State, es: seq<Event>)
    requires CountsSafe(st)
    ensures CountsSafe(Run(st, es))
    ensures HandoverSafe(Run(st, es)) <==> TrackKept(st, es)
  {
    TrackKeptIsTracks(st, es);
    HandoverSafeExactlyWhen(Run(st, es));
  }

  ghost predicate NoPostRefused(es: seq<Event>) {
    forall i :: 0 <= i < |es| && es[i].SetFrame? ==> es[i].postOk
  }

  lemma {:induction false} AcceptedPostsKeepTrack(st: State, es: seq<Event>)
    requires CountsSafe(st) && Tracks(st) && NoPostRefused(es)
    ensures CountsSafe(Run(st, es)) && Tracks(Run(st, es))
  {
    if es != [] {
      var front, e := es[..|es| - 1], es[|es| - 1];
      assert forall i :: 0 <= i < |front| ==> front[i] == es[i];
      AcceptedPostsKeepTrack(st, front);
      NextKeepsCounts(Run(st, front), e);
    }
  }

  /** In particular handover is safe throughout a run in which every post succeeds. */
  lemma RunsAreHandoverSafe(st: State, es: seq<Event>)
    requires CountsSafe(st) && HandoverSafe(st) && NoPostRefused(es)
    ensures HandoverSafe(Run(st, es))
  {
    HandoverSafeExactlyWhen(st);
    AcceptedPostsKeepTrack(st, es);
    HandoverSafeExactlyWhen(Run(st, es));
  }
}
