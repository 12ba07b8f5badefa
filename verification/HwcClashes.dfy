/**
 * When a frame's pipelines clash, with each other or with those the other display still shows, said in terms of what
 * prepare is given: settings, layer list, HDMI outcome and the composition on the screen.
 */
module HwcClashes {
  import opened Common
  import opened HwcLayers
  import opened HwcAllocator
  import opened HwcCounting
  import opened HwcFrame
  import opened HwcRuns
  import opened HwcHandover

  // ---- what the list does ----

  /** The frame a list is prepared with. */
  function FrameOf(s: Settings, ls: seq<Layer>): Frame
    requires Decide(s, Stats(ls).dockable).maxHw >= 0
  {
    ChooseFrame(s, Decide(s, Stats(ls).dockable), Stats(ls), |ls|)
  }

  /** The counting test accepts the list, so SGX is not used. */
  predicate Accepts(s: Settings, ls: seq<Layer>)
    requires Decide(s, Stats(ls).dockable).maxHw >= 0
  {
    var d := Decide(s, Stats(ls).dockable);
    CanRenderAll(FrameFor(s, d, false, false, |ls|), Stats(ls), |ls|, d.maxScaling)
  }

  /** Of an accepted list, every layer gets an overlay. */
  predicate Whole(s: Settings, ls: seq<Layer>) {
    TotalMem(ls) < MAX_TILER_SLOT && !(!s.rgbOrder && s.onTv && Stats(ls).bgr != 0)
  }

  /** Two layers that both need a video pipe, accepted and shown whole. */
  ghost predicate VideoPair(s: Settings, ls: seq<Layer>)
    requires Decide(s, Stats(ls).dockable).maxHw >= 0
  {
    && |ls| == 2
    && (forall i :: 0 <= i < 2 ==> ls[i].handle.Some? && NeedsVideoPipe(ls[i]))
    && Accepts(s, ls) && Whole(s, ls)
  }

  /** The loop gives some layer, or some dockable layer, an overlay. */
  ghost predicate SomeTaken(f: Frame, ls: seq<Layer>) {
    exists i :: 0 <= i < |ls| && Takes(f, Assign(f, ls[..i]), ls[i])
  }
  ghost predicate DockableTaken(f: Frame, ls: seq<Layer>) {
    exists i :: 0 <= i < |ls| && Takes(f, Assign(f, ls[..i]), ls[i]) && ls[i].handle.value.dockable
  }

  /** A layer that gets an overlay if none before it did: blended ones only as the first of the list. */
  predicate Takeable(f: Frame, ls: seq<Layer>, i: nat)
    requires i < |ls|
  {
    && CanRenderLayer(f, ls[i])
    && (!f.forceSgx || ls[i].handle.value.isProtected || (f.docking && ls[i].handle.value.dockable))
    && Mem1d(ls[i].handle.value) < MAX_TILER_SLOT
    && (ls[i].Blended() ==> i == 0)
  }

  ghost predicate SomeTakeable(f: Frame, ls: seq<Layer>) {
    exists i :: 0 <= i < |ls| && Takeable(f, ls, i)
  }

  ghost predicate NoneTaken(f: Frame, ls: seq<Layer>, n: nat)
    requires n <= |ls|
  {
    forall i :: 0 <= i < n ==> !Takes(f, Assign(f, ls[..i]), ls[i])
  }

  /** What the loop's state is while it has given no overlay. */
  lemma {:induction false} NoneTakenYet(f: Frame, ls: seq<Layer>, n: nat)
    requires f.useSgx && n <= |ls| && NoneTaken(f, ls, n)
    ensures var st := Assign(f, ls[..n]);
      && |st.ovls| == 1 && st.memUsed == 0
      && if n == 0 then st.fbZ == -1 && st.z == 0 else st.fbZ == 0 && st.z == 1
  {
    if n > 0 {
      NoneTakenYet(f, ls, n - 1);
      assert ls[..n][..n - 1] == ls[..n - 1];
      assert Assign(f, ls[..n]) == LeaveLayer(Assign(f, ls[..n - 1]), f);
    }
  }

  /** With SGX some layer is taken exactly when there is a second overlay and some layer that can be taken. */
  lemma SomeTakenExactlyWhen(f: Frame, ls: seq<Layer>)
    requires f.useSgx
    ensures SomeTaken(f, ls) <==> f.maxHw > 1 && SomeTakeable(f, ls)
  {
    if NoneTaken(f, ls, |ls|) {
      forall i | 0 <= i < |ls|
        ensures !(f.maxHw > 1 && Takeable(f, ls, i))
      {
        NoneTakenYet(f, ls, i);
      }
    } else {
      var i := FirstTaken(f, ls);
      NoneTakenYet(f, ls, i);
      assert Takeable(f, ls, i);
    }
  }

  lemma FirstTaken(f: Frame, ls: seq<Layer>) returns (i: nat)
    requires !NoneTaken(f, ls, |ls|)
    ensures i < |ls| && Takes(f, Assign(f, ls[..i]), ls[i]) && NoneTaken(f, ls, i)
  {
    i := 0;
    while !Takes(f, Assign(f, ls[..i]), ls[i])
      invariant i < |ls| && NoneTaken(f, ls, i)
      decreases |ls| - i
    {
      i := i + 1;
    }
  }

  lemma MirroredFrame(s: Settings, ls: seq<Layer>)
    requires Reserved(s) && MirrorsNow(s, Stats(ls).dockable)
    ensures Decide(s, Stats(ls).dockable).maxHw >= 1
    ensures var f := FrameOf(s, ls);
      && f.useSgx == !Accepts(s, ls)
      && f.maxHw == (if s.lastInt == 3 then 1 else 2)
      && (!f.useSgx ==> AcceptedFrame(f, ls, f.maxHw) && (Whole(s, ls) <==> AllPlaced(Allocate(f, ls).marks)))
  {
    ReservationSafe(s, Stats(ls).dockable);
    var f := FrameOf(s, ls);
    if !f.useSgx { CountingRefinesGreedy(f, ls, f.maxHw); }
  }

  // ---- clashes within a frame ----

  /** Mirroring has an overlay to use and its mode is set up. */
  predicate CanMirror(s: Settings, ls: seq<Layer>, hdmi: Hdmi) {
    MirrorsNow(s, Stats(ls).dockable) && s.lastInt < MAX_HW_OVERLAYS && (s.last.docking ==> hdmi.ready)
  }

  lemma MirrorClonesAll(s: Settings, ls: seq<Layer>, hdmi: Hdmi)
    requires Reserved(s) && MirrorsNow(s, Stats(ls).dockable)
    ensures Decide(s, Stats(ls).dockable).maxHw >= 1
    ensures var p := Prepare(s, ls, hdmi);
      |p.clones| == if CanMirror(s, ls, hdmi) then p.Post2() else 0
  {
    ReservationSafe(s, Stats(ls).dockable);
  }

  /**
   * The pipelines of a frame clash exactly when two layers that both need a video pipe are mirrored with two external
   * overlays available: they take pipelines 1 and 2 while their copies take 3 and 2.
   */
  lemma PipesClashExactlyWhen(s: Settings, ls: seq<Layer>, hdmi: Hdmi)
    requires Reserved(s)
    ensures Decide(s, Stats(ls).dockable).maxHw >= 1
    ensures !PipesOk(Prepare(s, ls, hdmi).Overlays()) <==>
      CanMirror(s, ls, hdmi) && s.lastInt <= 2 && VideoPair(s, ls)
  {
    ReservationSafe(s, Stats(ls).dockable);
    PipesClashOnlyMirroringTwoVideoLayers(s, ls, hdmi);
    if MirrorsNow(s, Stats(ls).dockable) {
      MirrorClonesAll(s, ls, hdmi);
      MirroredFrame(s, ls);
      ScaledPairOf(s, ls);
      PlanWithinLimits(s, ls, hdmi);
    } else {
      UnmirroredFits(s, ls, hdmi);
    }
  }

  lemma ScaledPairOf(s: Settings, ls: seq<Layer>)
    requires Reserved(s) && MirrorsNow(s, Stats(ls).dockable) && Decide(s, Stats(ls).dockable).maxHw >= 1
    ensures var st := Allocate(FrameOf(s, ls), ls);
      && (TwoVideoLayers(FrameOf(s, ls), ls) <==> VideoPair(s, ls))
      && (s.lastInt != 3 ==> (|st.ovls| == 2 && st.scaledGfx <==> VideoPair(s, ls)))
  {
    MirroredFrame(s, ls);
    var f := FrameOf(s, ls);
    if s.lastInt != 3 { ScaledPairIsTwoVideoLayers(f, ls, f.maxHw); }
  }

  // ---- clashes with what the other display shows ----

  predicate InternalUse(c: Shown, p: int) { InternalPipe(c.post2, c.scaledGfx, p) }
  predicate ExternalUse(c: Shown, p: int) { ExternalPipe(c.clones, p) }

  /** The prepared composition would take a pipeline the other display is still using. */
  ghost predicate Steals(st: State) {
    exists p: int ::
      || (InternalUse(st.prepared, p) && ExternalUse(st.shown, p))
      || (ExternalUse(st.prepared, p) && InternalUse(st.shown, p))
  }

  /** The internal pipelines of one composition, moved up by a scaled GFX layer, reach the other's external ones. */
  predicate Overlaps(inner: Shown, outer: Shown) {
    inner.post2 > 0 && outer.clones > 0 && inner.post2 + B(inner.scaledGfx) + outer.clones > MAX_HW_OVERLAYS
  }

  lemma StealsExactlyWhenOverlapping(st: State)
    requires CountsSafe(st)
    ensures Steals(st) <==> Overlaps(st.prepared, st.shown) || Overlaps(st.shown, st.prepared)
  {
    UseMeets(st.prepared, st.shown);
    UseMeets(st.shown, st.prepared);
  }

  /** The overlays add up to four, one of them a scaled GFX layer's, which takes a pipeline beyond its count. */
  predicate GapMeets(inner: Shown, outer: Shown) {
    inner.scaledGfx && inner.post2 > 0 && outer.clones > 0 && inner.post2 + outer.clones == MAX_HW_OVERLAYS
  }

  /**
   * In any state, after refused posts too, a pipeline is taken from the other display exactly when the overlays do not
   * fit, or fit to the last one and a scaled GFX layer is among them.
   */
  lemma StealsExactlyWhenTooMany(st: State)
    requires CountsSafe(st)
    ensures Steals(st) <==> !Fits(st) || GapMeets(st.prepared, st.shown) || GapMeets(st.shown, st.prepared)
  {
    StealsExactlyWhenOverlapping(st);
  }

  lemma UseMeets(inner: Shown, outer: Shown)
    requires inner.post2 <= MAX_HW_OVERLAYS && outer.clones <= 2
    ensures (exists p: int :: InternalUse(inner, p) && ExternalUse(outer, p)) <==> Overlaps(inner, outer)
  {
    if Overlaps(inner, outer) {
      var top := inner.post2 + B(inner.scaledGfx) - 1;
      var p := if top < MAX_HW_OVERLAYS then top else MAX_HW_OVERLAYS - 1;
      assert InternalUse(inner, p) && ExternalUse(outer, p);
    }
  }

  /** Docking has an overlay to use, its mode is set up, and there is something to dock. */
  ghost predicate CanDock(s: Settings, ls: seq<Layer>, hdmi: Hdmi)
    requires Decide(s, Stats(ls).dockable).maxHw >= 0
  {
    && DocksNow(s, Stats(ls).dockable) && s.lastInt < MAX_HW_OVERLAYS && hdmi.ready
    && (s.forceDock || DockableTaken(FrameOf(s, ls), ls))
  }

  /** A scaled composition is on the screen, and the new frame's clones reach the pipeline it was moved to. */
  ghost predicate MeetsScaled(st: State, ls: seq<Layer>, hdmi: Hdmi)
    requires Decide(st.s, Stats(ls).dockable).maxHw >= 0
  {
    && st.shown.scaledGfx
    && (if st.shown.post2 == 3
        then CanDock(st.s, ls, hdmi) || (CanMirror(st.s, ls, hdmi) && (!Accepts(st.s, ls) || Whole(st.s, ls)))
        else
          && st.shown.post2 == 2 && st.s.lastInt <= 2 && CanMirror(st.s, ls, hdmi)
          && (if Accepts(st.s, ls) then |ls| == 2 && Whole(st.s, ls) else SomeTakeable(FrameOf(st.s, ls), ls)))
  }

  /**
   * While handover is safe, preparing a list takes a pipeline the other display is still showing exactly when two
   * mirrored video layers follow two external overlays, or new clones meet a scaled composition: the counts do not
   * see the pipeline a scaled GFX layer moves to.
   */
  lemma PrepareStealsExactlyWhen(st: State, ls: seq<Layer>, hdmi: Hdmi)
    requires CountsSafe(st) && HandoverSafe(st)
    ensures Decide(st.s, Stats(ls).dockable).maxHw >= 1
    ensures Steals(AfterPrepare(st, ls, hdmi)) <==>
      || (MirrorsNow(st.s, Stats(ls).dockable) && st.shown.clones == 2 && VideoPair(st.s, ls))
      || MeetsScaled(st, ls, hdmi)
  {
    HandoverSafeExactlyWhen(st);
    PrepareKeepsCounts(st, ls, hdmi);
    StealsExactlyWhenOverlapping(AfterPrepare(st, ls, hdmi));
    NewMeetsOldClones(st, ls, hdmi);
    NewClonesMeetOld(st, ls, hdmi);
  }

  /** The new internal composition meets the old clones. */
  lemma NewMeetsOldClones(st: State, ls: seq<Layer>, hdmi: Hdmi)
    requires CountsSafe(st) && Tracks(st)
    ensures Decide(st.s, Stats(ls).dockable).maxHw >= 1
    ensures Overlaps(AfterPrepare(st, ls, hdmi).prepared, st.shown) <==>
      MirrorsNow(st.s, Stats(ls).dockable) && st.shown.clones == 2 && VideoPair(st.s, ls)
  {
    ReservationSafe(st.s, Stats(ls).dockable);
    PlanWithinLimits(st.s, ls, hdmi);
    if MirrorsNow(st.s, Stats(ls).dockable) {
      MirroredFrame(st.s, ls);
      ScaledPairOf(st.s, ls);
    } else {
      var p := Prepare(st.s, ls, hdmi);
      PipesWithinLimit(p.frame, ls, p.decision.maxScaling);
    }
  }

  /** The new clones meet the old internal composition. */
  lemma NewClonesMeetOld(st: State, ls: seq<Layer>, hdmi: Hdmi)
    requires CountsSafe(st) && Tracks(st)
    ensures Decide(st.s, Stats(ls).dockable).maxHw >= 1
    ensures Overlaps(st.shown, AfterPrepare(st, ls, hdmi).prepared) <==> MeetsScaled(st, ls, hdmi)
  {
    ReservationSafe(st.s, Stats(ls).dockable);
    PlanWithinLimits(st.s, ls, hdmi);
    if MirrorsNow(st.s, Stats(ls).dockable) {
      MirrorClonesAll(st.s, ls, hdmi);
      MirroredOverlays(st.s, ls);
    } else {
      DockedClones(st.s, ls, hdmi);
    }
  }

  /** How many overlays a mirrored frame has. */
  lemma MirroredOverlays(s: Settings, ls: seq<Layer>)
    requires Reserved(s) && MirrorsNow(s, Stats(ls).dockable)
    ensures Decide(s, Stats(ls).dockable).maxHw >= 1
    ensures var n := |Allocate(FrameOf(s, ls), ls).ovls|;
      && n <= (if s.lastInt == 3 then 1 else 2)
      && (s.lastInt == 3 ==> (n == 1 <==> !Accepts(s, ls) || Whole(s, ls)))
      && (s.lastInt != 3 ==>
            (n == 2 <==> if Accepts(s, ls) then |ls| == 2 && Whole(s, ls) else SomeTakeable(FrameOf(s, ls), ls)))
  {
    MirroredFrame(s, ls);
    var f := FrameOf(s, ls);
    AllocateZ(f, ls);
    if f.useSgx {
      TakenCounts(f, ls);
      SomeTakenExactlyWhen(f, ls);
    } else {
      PlacedCountBounds(f, ls);
      if AllPlaced(Allocate(f, ls).marks) { PlacedOverlays(f, ls); }
    }
  }

  lemma TakenCounts(f: Frame, ls: seq<Layer>)
    ensures |Allocate(f, ls).ovls| > Sgx(f) <==> SomeTaken(f, ls)
  {
    var raw := Assign(f, ls);
    AssignSources(f, ls);
    ChosenAreMarked(raw.marks);
    if SomeTaken(f, ls) {
      var i :| 0 <= i < |ls| && Takes(f, Assign(f, ls[..i]), ls[i]);
      MarkDecided(f, ls, i);
      assert i in Chosen(raw.marks);
    }
    if |Chosen(raw.marks)| > 0 {
      MarkDecided(f, ls, Chosen(raw.marks)[0]);
    }
  }

  /** Docking sends one overlay exactly when it can. */
  lemma DockedClones(s: Settings, ls: seq<Layer>, hdmi: Hdmi)
    requires Reserved(s) && !MirrorsNow(s, Stats(ls).dockable)
    ensures Decide(s, Stats(ls).dockable).maxHw >= 1
    ensures |Prepare(s, ls, hdmi).clones| == if CanDock(s, ls, hdmi) then 1 else 0
  {
    ReservationSafe(s, Stats(ls).dockable);
    var f := FrameOf(s, ls);
    DockingPicksLargest(f, ls);
    DockedIsTaken(f, ls);
    if DockableTaken(f, ls) {
      var i :| 0 <= i < |ls| && Takes(f, Assign(f, ls[..i]), ls[i]) && ls[i].handle.value.dockable;
      DockableCounted(ls, i);
    }
  }

  lemma DockedIsTaken(f: Frame, ls: seq<Layer>)
    ensures Allocate(f, ls).ixDocking >= 0 <==> DockableTaken(f, ls)
  {
    if DockableTaken(f, ls) { TakenIsDocked(f, ls); }
    var st := Allocate(f, ls);
    AssignSources(f, ls);
    ChosenAreMarked(st.marks);
    DockingPicksLargest(f, ls);
    if st.ixDocking >= 0 {
      assert st.ovls[st.ixDocking].src == Assign(f, ls).ovls[st.ixDocking].src;
      MarkDecided(f, ls, st.ovls[st.ixDocking].src.i);
    }
  }

  lemma TakenIsDocked(f: Frame, ls: seq<Layer>)
    requires DockableTaken(f, ls)
    ensures Allocate(f, ls).ixDocking >= 0
  {
    var raw, st := Assign(f, ls), Allocate(f, ls);
    var i :| 0 <= i < |ls| && Takes(f, Assign(f, ls[..i]), ls[i]) && ls[i].handle.value.dockable;
    AssignSources(f, ls);
    MarkDecided(f, ls, i);
    ChosenAreMarked(raw.marks);
    var k :| 0 <= k < |Chosen(raw.marks)| && Chosen(raw.marks)[k] == i;
    DockingPicksLargest(f, ls);
    assert st.ovls[Sgx(f) + k].src == raw.ovls[Sgx(f) + k].src == FromLayer(i);
  }

  lemma {:induction false} DockableCounted(ls: seq<Layer>, i: nat)
    requires i < |ls| && ValidLayer(ls[i]) && ls[i].handle.value.dockable
    ensures Stats(ls).dockable > 0
  {
    var front := ls[..|ls| - 1];
    if i < |front| { DockableCounted(front, i); }
  }

  // ---- reachable clashes ----

  ghost predicate AllNv12(ls: seq<Layer>) {
    forall i :: 0 <= i < |ls| ==> ValidLayer(ls[i]) && IsNv12(ls[i].handle.value.format)
  }

  /** Statistics of a list of video layers. */
  lemma {:induction false} VideoStats(ls: seq<Layer>)
    requires AllNv12(ls)
    ensures var n := Stats(ls);
      n.possible == n.scaled == n.nv12 == |ls| && n.mem == 0 && n.bgr == 0 && n.rgb == 0
    ensures TotalMem(ls) == 0
  {
    if ls != [] {
      var front, l := ls[..|ls| - 1], ls[|ls| - 1];
      assert forall i :: 0 <= i < |front| ==> front[i] == ls[i];
      VideoStats(front);
      assert ValidLayer(l) && IsNv12(l.handle.value.format);
      assert Stats(ls) == CountLayer(Stats(front), l);
    }
  }

  /** A list of as many video layers as there are scaling overlays is shown without SGX and shifts its pipes. */
  lemma VideoFrame(s: Settings, d: Decision, ls: seq<Layer>)
    requires AllNv12(ls) && 0 < |ls| <= d.maxScaling <= d.maxHw <= MAX_HW_OVERLAYS
    requires ForceSgx(s, |ls|) == 0
    ensures var f := ChooseFrame(s, d, Stats(ls), |ls|);
      !f.useSgx && |Allocate(f, ls).ovls| == |ls| && Allocate(f, ls).scaledGfx
  {
    VideoStats(ls);
    var f := ChooseFrame(s, d, Stats(ls), |ls|);
    assert AcceptedFrame(f, ls, d.maxScaling);
    CountingRefinesGreedy(f, ls, d.maxScaling);
    PlacedOverlays(f, ls);
    AllocatePipes(f, ls);
    var st := Allocate(f, ls);
    assert forall k :: 0 <= k < |ls| ==> st.ovls[k].src == FromLayer(k) && Video(ls, st.ovls[k]);
    assert InternalPipe(|ls|, false, 0);
  }

  /** Mirroring any two video layers after a frame that left two overlays free clashes on a pipeline. */
  lemma MirroredVideoPairClashes(s: Settings, ls: seq<Layer>, hdmi: Hdmi)
    requires Reserved(s) && MirrorsNow(s, Stats(ls).dockable) && s.lastInt <= 2 && s.forceSgx == 0 && hdmi.ready
    requires AllNv12(ls) && |ls| == 2
    ensures Decide(s, Stats(ls).dockable).maxHw >= 0 && !PipesOk(Prepare(s, ls, hdmi).Overlays())
  {
    ReservationSafe(s, Stats(ls).dockable);
    VideoFrame(s, Decide(s, Stats(ls).dockable), ls);
    MirrorClones(s, ls, hdmi);
    PipesOkIffTheyFit(s, ls, hdmi);
  }

  /** No external display is plugged in and SGX is not forced. */
  predicate Unplugged(s: Settings) { !s.mirror.enabled && !s.dock.enabled && s.forceSgx == 0 }

  /** Three video layers on the internal display, then docking is plugged in: the dock takes pipeline 3 from them. */
  lemma DockingStealsFromThreeVideoLayers(st0: State, ls: seq<Layer>, props: Properties, h: Hdmi)
    requires CountsSafe(st0) && HandoverSafe(st0) && Unplugged(st0.s) && st0.s.lastExt == 0
    requires AllNv12(ls) && |ls| == 3 && props.docking && h.ready
    ensures var st1 := AfterSet(AfterPrepare(st0, ls, h), true, true, true);
      var st2 := st1.(s := AfterHotplug(st1.s, true, true, props, h));
      HandoverSafe(st2) && Steals(AfterPrepare(st2, [], h))
  {
    ReservationSafe(st0.s, Stats(ls).dockable);
    VideoFrame(st0.s, Decide(st0.s, Stats(ls).dockable), ls);
    PrepareKeepsCounts(st0, ls, h);
    var st1 := AfterSet(AfterPrepare(st0, ls, h), true, true, true);
    assert st1.shown.post2 == 3 && st1.shown.scaledGfx;
    var st2 := st1.(s := AfterHotplug(st1.s, true, true, props, h));
    HandoverSafeExactlyWhen(st2);
    PrepareKeepsCounts(st2, [], h);
    var st3 := AfterPrepare(st2, [], h);
    AllocatePipes(Prepare(st2.s, [], h).frame, []);
    AssignSources(Prepare(st2.s, [], h).frame, []);
    assert st3.prepared.clones == 1;
    StealsExactlyWhenOverlapping(st3);
  }

  // ---- a refused post ----

  ghost predicate AllPlain(ls: seq<Layer>) {
    forall i :: 0 <= i < |ls| ==> ValidLayer(ls[i]) && !NeedsVideoPipe(ls[i]) && IsRgb(ls[i].handle.value.format)
  }

  lemma {:induction false} PlainStats(ls: seq<Layer>)
    requires AllPlain(ls)
    ensures var n := Stats(ls); n.possible == |ls| && n.scaled == n.nv12 == n.bgr == 0
  {
    if ls != [] {
      var front, l := ls[..|ls| - 1], ls[|ls| - 1];
      assert forall i :: 0 <= i < |front| ==> front[i] == ls[i];
      PlainStats(front);
      assert ValidLayer(l) && !NeedsVideoPipe(l);
      assert Stats(ls) == CountLayer(Stats(front), l);
    }
  }

  /** Unscaled layers below the slot that are no more than the overlays get one each. */
  lemma PlainFrame(s: Settings, d: Decision, ls: seq<Layer>)
    requires AllPlain(ls) && 0 < |ls| <= d.maxHw <= MAX_HW_OVERLAYS && d.maxScaling >= 0
    requires TotalMem(ls) < MAX_TILER_SLOT && ForceSgx(s, |ls|) == 0 && !d.current.enabled
    ensures var f := ChooseFrame(s, d, Stats(ls), |ls|);
      !f.useSgx && |Allocate(f, ls).ovls| == |ls| && !Allocate(f, ls).scaledGfx
  {
    PlainStats(ls);
    MemNeverWraps(ls);
    var f := ChooseFrame(s, d, Stats(ls), |ls|);
    assert AcceptedFrame(f, ls, d.maxScaling);
    CountingRefinesGreedy(f, ls, d.maxScaling);
    PlacedOverlays(f, ls);
    ScaledGfxCounted(f, ls);
    assert Assign(f, ls).scaledGfx == Allocate(f, ls).scaledGfx;
  }

  /** With an empty list only the framebuffer is shown. */
  lemma EmptyFrame(s: Settings, d: Decision)
    requires d.maxHw >= 0
    ensures var f := ChooseFrame(s, d, Stats([]), 0);
      |Allocate(f, []).ovls| == 1 && !Allocate(f, []).scaledGfx
  {
    AssignSources(ChooseFrame(s, d, Stats([]), 0), []);
  }

  lemma FourShown(st0: State, ls: seq<Layer>, h: Hdmi)
    requires CountsSafe(st0) && Unplugged(st0.s) && st0.s.lastExt == 0
    requires AllPlain(ls) && |ls| == 4 && TotalMem(ls) < MAX_TILER_SLOT
    ensures var st1 := AfterSet(AfterPrepare(st0, ls, h), true, true, true);
      CountsSafe(st1) && Tracks(st1) && Unplugged(st1.s) && st1.shown == Shown(4, false, 0)
  {
    ReservationSafe(st0.s, Stats(ls).dockable);
    PlainFrame(st0.s, Decide(st0.s, Stats(ls).dockable), ls);
    PrepareKeepsCounts(st0, ls, h);
  }

  lemma EmptyRefused(st1: State, h: Hdmi)
    requires CountsSafe(st1) && Unplugged(st1.s) && st1.shown == Shown(4, false, 0)
    ensures var st2 := AfterSet(AfterPrepare(st1, [], h), true, true, false);
      CountsSafe(st2) && Unplugged(st2.s) && st2.shown == Shown(4, false, 0) && st2.s.lastInt == 1
  {
    PrepareKeepsCounts(st1, [], h);
    EmptyFrame(st1.s, Decide(st1.s, Stats([]).dockable));
  }

  /**
   * Four plain layers are shown, the post of the next frame is refused, and mirroring is plugged in: the counters say
   * one internal overlay is in use, so the mirrored frame takes pipeline 3 while it is still shown.
   */
  lemma RefusedPostLosesTrack(st0: State, ls: seq<Layer>, props: Properties, h: Hdmi)
    requires CountsSafe(st0) && Unplugged(st0.s) && st0.s.lastExt == 0
    requires AllPlain(ls) && |ls| == 4 && TotalMem(ls) < MAX_TILER_SLOT
    requires props.mirroring && !props.docking && h.ready
    ensures var st1 := Run(st0, [PrepareFrame(ls, h), SetFrame(true, true, true)]);
      var st2 := Run(st1, [PrepareFrame([], h), SetFrame(true, true, false)]);
      var st3 := Run(st2, [Hotplug(true, false, props, h), PrepareFrame([], h)]);
      CountsSafe(st1) && Tracks(st1) && CountsSafe(st2) && !Tracks(st2) && CountsSafe(st3) && Steals(st3)
  {
    RunOfTwo(st0, PrepareFrame(ls, h), SetFrame(true, true, true));
    FourShown(st0, ls, h);
    var st1 := AfterSet(AfterPrepare(st0, ls, h), true, true, true);
    RunOfTwo(st1, PrepareFrame([], h), SetFrame(true, true, false));
    EmptyRefused(st1, h);
    var st2 := AfterSet(AfterPrepare(st1, [], h), true, true, false);
    RunOfTwo(st2, Hotplug(true, false, props, h), PrepareFrame([], h));
    MirroringMeetsFour(st2.(s := AfterHotplug(st2.s, true, false, props, h)), h);
  }

  lemma MirroringMeetsFour(st: State, h: Hdmi)
    requires CountsSafe(st) && st.shown == Shown(4, false, 0) && st.s.lastInt == 1
    requires MirrorsNow(st.s, Stats([]).dockable) && h.ready
    ensures CountsSafe(AfterPrepare(st, [], h)) && Steals(AfterPrepare(st, [], h))
  {
    PrepareKeepsCounts(st, [], h);
    EmptyFrame(st.s, Decide(st.s, Stats([]).dockable));
    MirrorClonesAll(st.s, [], h);
    StealsExactlyWhenOverlapping(AfterPrepare(st, [], h));
  }
}
