/**
 * One frame of the composer as a function of the device's settings and of what the last frame used: how many
 * pipelines each display may take, what is cloned to the external display, and which pipelines that needs.
 */
module HwcFrame {
  import opened Common
  import opened HwcLayers
  import opened HwcAllocator
  import opened HwcPicture
  import opened HwcCounting

  datatype ExtTransform = ExtTransform(rotation: nat, hflip: bool, enabled: bool, docking: bool)

  const NO_TRANSFORM := ExtTransform(0, false, false, false)

  /** The part of the device state a frame depends on. */
  datatype Settings = Settings(mirror: ExtTransform, dock: ExtTransform, current: ExtTransform, last: ExtTransform,
                               forceDock: bool, onTv: bool, rgbOrder: bool, nv12Only: bool, fbBgr: bool,
                               forceSgx: nat, lastExt: int, lastInt: int)

  /** Outcome of setting up the HDMI mode this frame needs, and whether the display is a TV. */
  datatype Hdmi = Hdmi(ready: bool, tv: bool)

  datatype Decision = Decision(maxHw: int, maxScaling: int, extOvls: int, wanted: int, current: ExtTransform)

  function Max(a: int, b: int): int { if a > b then a else b }
  function Min(a: int, b: int): int { if a < b then a else b }

  /** Docking is chosen over mirroring. */
  predicate DocksNow(s: Settings, dockable: nat) {
    s.dock.enabled && !(s.mirror.enabled && !(dockable != 0 || s.forceDock))
  }

  predicate MirrorsNow(s: Settings, dockable: nat) {
    !DocksNow(s, dockable) && s.mirror.enabled
  }

  function Decide(s: Settings, dockable: nat): Decision {
    var docks, mirrors := DocksNow(s, dockable), MirrorsNow(s, dockable);
    var wanted := if docks then (if dockable != 0 || s.forceDock then 1 else 0) else if mirrors then 2 else 0;
    var granted := if docks then MAX_HW_OVERLAYS - Max(wanted, s.lastExt)
                   else if mirrors then MAX_HW_OVERLAYS / 2 else MAX_HW_OVERLAYS - s.lastExt;
    var current := if docks then (if s.mirror.enabled then s.mirror.(docking := true) else s.dock)
                   else if mirrors then s.mirror else s.current.(enabled := false);
    var ext := Min(MAX_HW_OVERLAYS - s.lastInt, wanted);
    var maxHw := if ext != 0 && current.enabled && !current.docking then ext else granted;
    Decision(maxHw, maxHw - (if mirrors then 0 else NUM_NONSCALING_OVERLAYS), ext, wanted, current)
  }

  /** What every frame leaves for the next one's reservation. */
  ghost predicate Reserved(s: Settings) {
    && 0 <= s.lastExt <= 2
    && 0 <= s.lastInt <= MAX_HW_OVERLAYS
    && s.lastInt + s.lastExt <= MAX_HW_OVERLAYS
    && (s.dock.enabled ==> s.dock.docking) && !s.mirror.docking
  }

  /** The unsigned subtractions never wrap, and both displays stay within what the last frame leaves free. */
  lemma ReservationSafe(s: Settings, dockable: nat)
    requires Reserved(s)
    ensures var d := Decide(s, dockable);
      && 1 <= d.maxHw <= MAX_HW_OVERLAYS
      && 0 <= d.maxScaling <= d.maxHw
      && (d.maxScaling == d.maxHw <==> MirrorsNow(s, dockable))
      && 0 <= d.extOvls <= d.wanted <= 2
      && d.extOvls + s.lastInt <= MAX_HW_OVERLAYS
      && d.maxHw + s.lastExt <= MAX_HW_OVERLAYS
      && d.maxHw + d.extOvls <= MAX_HW_OVERLAYS
      && (d.current.enabled && !d.current.docking <==> MirrorsNow(s, dockable))
      && (d.current.enabled <==> MirrorsNow(s, dockable) || DocksNow(s, dockable))
      && (d.extOvls != 0 ==> d.current.enabled)
      && (MirrorsNow(s, dockable) && d.extOvls != 0 ==> d.maxHw == d.extOvls)
      && (!MirrorsNow(s, dockable) ==> d.wanted <= 1)
  {
  }

  /** A single layer switches forced SGX off. */
  function ForceSgx(s: Settings, layers: nat): nat { if layers <= 1 then 0 else s.forceSgx }

  function FrameFor(s: Settings, d: Decision, useSgx: bool, swapRb: bool, layers: nat): Frame
    requires 0 <= d.maxHw
  {
    Frame(d.maxHw, useSgx, swapRb, s.rgbOrder, s.nv12Only, ForceSgx(s, layers) != 0,
          d.current.enabled && (d.current.rotation != 0 || d.current.hflip),
          s.onTv && d.current.enabled, d.current.docking && d.current.enabled)
  }

  /** SGX is used exactly when the counting test rejects the frame. */
  function ChooseFrame(s: Settings, d: Decision, n: Counts, composited: nat): Frame
    requires 0 <= d.maxHw
  {
    if CanRenderAll(FrameFor(s, d, false, false, composited), n, composited, d.maxScaling)
    then FrameFor(s, d, false, n.bgr != 0, composited)
    else FrameFor(s, d, true, s.fbBgr, composited)
  }

  /** Overlays sent to the external display: the docked one, the dock image, or a copy of each internal one. */
  function Clones(s: Settings, d: Decision, st: Alloc, hdmi: Hdmi): seq<Overlay> {
    var post2 := |st.ovls|;
    if !d.current.enabled || d.extOvls == 0 then []
    else if d.current.docking then
      if !hdmi.ready then []
      else if 0 <= st.ixDocking < post2 then
        [Overlay(CloneOf(st.ixDocking), st.z, MAX_HW_OVERLAYS - 1, 1, st.ovls[st.ixDocking].area)]
      else if s.forceDock then [Overlay(DockImage, post2, MAX_HW_OVERLAYS - 1, 1, 0)]
      else []
    else if s.last.docking && !hdmi.ready then []
    else seq(post2, k requires 0 <= k < post2 => MirrorOf(st, k))
  }

  function MirrorOf(st: Alloc, k: nat): Overlay
    requires k < |st.ovls|
  {
    Overlay(CloneOf(k), st.ovls[k].zorder + |st.ovls|, MAX_HW_OVERLAYS - 1 - k, 1, st.ovls[k].area)
  }

  /** Docking needed an HDMI mode and did not get it: cloning is switched off for this frame. */
  predicate CloneFailed(s: Settings, d: Decision, st: Alloc, hdmi: Hdmi) {
    && d.current.enabled && d.extOvls != 0 && d.current.docking && !hdmi.ready
    && (0 <= st.ixDocking || s.forceDock)
  }

  datatype Plan = Plan(decision: Decision, frame: Frame, internal: Alloc, clones: seq<Overlay>,
                       current: ExtTransform, extOvls: int)
  {
    function Overlays(): seq<Overlay> { internal.ovls + clones }
    function Post2(): nat { |internal.ovls| }
  }

  /** The plan that follows from the pipeline shares, the frame and the internal allocation. */
  function MakePlan(s: Settings, d: Decision, f: Frame, st: Alloc, hdmi: Hdmi): Plan {
    var clones := Clones(s, d, st, hdmi);
    var current := if CloneFailed(s, d, st, hdmi) then d.current.(enabled := false) else d.current;
    Plan(d, f, st, clones, current, if current.enabled || s.lastExt != 0 then |clones| else d.extOvls)
  }

  function Prepare(s: Settings, ls: seq<Layer>, hdmi: Hdmi): Plan
    requires Decide(s, Stats(ls).dockable).maxHw >= 0
  {
    var d := Decide(s, Stats(ls).dockable);
    var f := ChooseFrame(s, d, Stats(ls), |ls|);
    MakePlan(s, d, f, Allocate(f, ls), hdmi)
  }

  lemma CloneCount(s: Settings, d: Decision, st: Alloc, hdmi: Hdmi)
    ensures var clones := Clones(s, d, st, hdmi);
      && (d.extOvls == 0 || !d.current.enabled ==> clones == [])
      && (d.current.docking ==> |clones| <= 1)
      && (!d.current.docking ==> |clones| == 0 || |clones| == |st.ovls|)
  {
  }

  /** Every frame keeps both displays within what the last one leaves free and within four overlays. */
  lemma PlanWithinLimits(s: Settings, ls: seq<Layer>, hdmi: Hdmi)
    requires Reserved(s)
    ensures Decide(s, Stats(ls).dockable).maxHw >= 0
    ensures var p := Prepare(s, ls, hdmi);
      && p.Post2() <= p.decision.maxHw
      && p.Post2() + s.lastExt <= MAX_HW_OVERLAYS
      && p.extOvls + s.lastInt <= MAX_HW_OVERLAYS
      && |p.clones| <= p.extOvls <= 2
      && p.Post2() + p.extOvls <= MAX_HW_OVERLAYS
      && |p.Overlays()| <= MAX_HW_OVERLAYS
      && (|p.clones| > 0 ==> |p.clones| == 1 || MirrorsNow(s, Stats(ls).dockable))
  {
    ReservationSafe(s, Stats(ls).dockable);
    var p := Prepare(s, ls, hdmi);
    AllocateZ(p.frame, ls);
    CloneCount(s, p.decision, p.internal, hdmi);
  }

  lemma AppendZ(a: seq<Overlay>, b: seq<Overlay>)
    requires ZPermutation(a)
    requires forall k :: 0 <= k < |b| ==> |a| <= b[k].zorder < |a| + |b|
    requires forall j, k :: 0 <= j < k < |b| ==> b[j].zorder != b[k].zorder
    requires forall z :: |a| <= z < |a| + |b| ==> HasZ(b, z)
    ensures ZPermutation(a + b)
  {
    var ab := a + b;
    forall z | 0 <= z < |ab|
      ensures HasZ(ab, z)
    {
      if z < |a| {
        assert HasZ(a, z);
        var k :| 0 <= k < |a| && a[k].zorder == z;
        assert ab[k].zorder == z;
      } else {
        assert HasZ(b, z);
        var k :| 0 <= k < |b| && b[k].zorder == z;
        assert ab[|a| + k].zorder == z;
      }
    }
    assert forall k :: |a| <= k < |ab| ==> ab[k] == b[k - |a|];
  }

  lemma MirrorZ(st: Alloc)
    requires ZPermutation(st.ovls)
    ensures var b := seq(|st.ovls|, k requires 0 <= k < |st.ovls| => MirrorOf(st, k));
      ZPermutation(st.ovls + b)
  {
    var a := st.ovls;
    var b := seq(|st.ovls|, k requires 0 <= k < |st.ovls| => MirrorOf(st, k));
    assert forall k :: 0 <= k < |b| ==> b[k].zorder == a[k].zorder + |a|;
    forall z | |a| <= z < |a| + |b|
      ensures HasZ(b, z)
    {
      assert HasZ(a, z - |a|);
      var k :| 0 <= k < |a| && a[k].zorder == z - |a|;
      assert b[k].zorder == z;
    }
    AppendZ(a, b);
  }

  lemma ClonesZ(s: Settings, d: Decision, st: Alloc, hdmi: Hdmi)
    requires ZPermutation(st.ovls) && st.z == |st.ovls|
    ensures ZPermutation(st.ovls + Clones(s, d, st, hdmi))
  {
    var clones := Clones(s, d, st, hdmi);
    if clones == [] {
      assert st.ovls + clones == st.ovls;
    } else if d.current.docking {
      assert clones[0].zorder == |st.ovls|;
      AppendZ(st.ovls, clones);
    } else {
      assert clones == seq(|st.ovls|, k requires 0 <= k < |st.ovls| => MirrorOf(st, k));
      MirrorZ(st);
    }
  }

  /** In every frame, the z-orders of both displays together are a permutation of 0..num_ovls-1. */
  lemma PlanZOrders(s: Settings, ls: seq<Layer>, hdmi: Hdmi)
    requires Reserved(s) && Decide(s, Stats(ls).dockable).maxHw >= 0
    ensures ZPermutation(Prepare(s, ls, hdmi).Overlays())
  {
    var p := Prepare(s, ls, hdmi);
    AllocateZ(p.frame, ls);
    ClonesZ(s, p.decision, p.internal, hdmi);
  }

  // ---- pipelines of both displays ----

  /** The external display takes its pipelines from the top. */
  predicate ExternalPipe(clones: nat, p: int) { MAX_HW_OVERLAYS - clones <= p < MAX_HW_OVERLAYS }

  lemma CloneIx(s: Settings, d: Decision, st: Alloc, hdmi: Hdmi)
    ensures var clones := Clones(s, d, st, hdmi);
      forall k :: 0 <= k < |clones| ==> clones[k].ix == MAX_HW_OVERLAYS - 1 - k
  {
  }

  /** All pipelines of a frame are real and used once. */
  ghost predicate PipesOk(ovls: seq<Overlay>) {
    DistinctIx(ovls) && forall k :: 0 <= k < |ovls| ==> 0 <= ovls[k].ix < MAX_HW_OVERLAYS
  }

  /** `ovls` fill exactly the pipelines an internal display with or without a scaled GFX layer uses. */
  ghost predicate FillsInternal(ovls: seq<Overlay>, scaledGfx: bool) {
    && DistinctIx(ovls)
    && (scaledGfx ==> |ovls| > 0)
    && (forall k :: 0 <= k < |ovls| ==> InternalPipe(|ovls|, scaledGfx, ovls[k].ix))
    && (forall p :: InternalPipe(|ovls|, scaledGfx, p) ==> HasIx(ovls, p))
  }

  lemma FitMeansOk(ovls: seq<Overlay>, scaledGfx: bool, clones: seq<Overlay>)
    requires FillsInternal(ovls, scaledGfx) && |clones| <= 2
    requires forall k :: 0 <= k < |clones| ==> clones[k].ix == MAX_HW_OVERLAYS - 1 - k
    requires |ovls| + |clones| + B(scaledGfx) <= MAX_HW_OVERLAYS
    ensures PipesOk(ovls + clones)
  {
    var all := ovls + clones;
    assert forall k :: 0 <= k < |ovls| ==> all[k] == ovls[k];
    assert forall k :: |ovls| <= k < |all| ==> all[k] == clones[k - |ovls|];
  }

  lemma OverflowClashes(ovls: seq<Overlay>, scaledGfx: bool, clones: seq<Overlay>)
    requires FillsInternal(ovls, scaledGfx) && |clones| <= 2 && |ovls| + |clones| <= MAX_HW_OVERLAYS
    requires forall k :: 0 <= k < |clones| ==> clones[k].ix == MAX_HW_OVERLAYS - 1 - k
    requires |ovls| + |clones| + B(scaledGfx) > MAX_HW_OVERLAYS
    ensures !PipesOk(ovls + clones)
  {
    var all, top := ovls + clones, |ovls|;
    assert HasIx(ovls, top);
    var k :| 0 <= k < |ovls| && ovls[k].ix == top;
    assert all[k].ix == top;
    if |clones| > 0 {
      assert all[top + |clones| - 1] == clones[|clones| - 1];
    }
  }

  /** The pipelines are distinct and below four exactly when they number at most four, GFX gap included. */
  lemma PipesOkIffTheyFit(s: Settings, ls: seq<Layer>, hdmi: Hdmi)
    requires Reserved(s) && Decide(s, Stats(ls).dockable).maxHw >= 0
    ensures var p := Prepare(s, ls, hdmi);
      PipesOk(p.Overlays()) <==> p.Post2() + |p.clones| + B(p.internal.scaledGfx) <= MAX_HW_OVERLAYS
  {
    var p := Prepare(s, ls, hdmi);
    var st := p.internal;
    PlanWithinLimits(s, ls, hdmi);
    AllocatePipes(p.frame, ls);
    CloneIx(s, p.decision, st, hdmi);
    if |st.ovls| + |p.clones| + B(st.scaledGfx) <= MAX_HW_OVERLAYS {
      FitMeansOk(st.ovls, st.scaledGfx, p.clones);
    } else {
      OverflowClashes(st.ovls, st.scaledGfx, p.clones);
    }
  }

  /** Two layers that both need a video pipe, shown without SGX. */
  ghost predicate TwoVideoLayers(f: Frame, ls: seq<Layer>) {
    && !f.useSgx
    && |ls| == 2
    && (forall i :: 0 <= i < 2 ==> ls[i].handle.Some? && NeedsVideoPipe(ls[i]))
    && TotalMem(ls) < MAX_TILER_SLOT
    && !BgrOnTv(f, ls)
  }

  lemma {:induction false} ChosenLength(marks: seq<Mark>)
    ensures |Chosen(marks)| <= |marks|
    ensures |Chosen(marks)| == |marks| ==> AllPlaced(marks)
  {
    if marks != [] {
      var n := |marks| - 1;
      ChosenLength(marks[..n]);
      assert forall i :: 0 <= i < n ==> marks[..n][i] == marks[i];
    }
  }

  lemma PlacedCountBounds(f: Frame, ls: seq<Layer>)
    requires !f.useSgx
    ensures |Allocate(f, ls).ovls| <= |ls|
    ensures |Allocate(f, ls).ovls| == |ls| ==> AllPlaced(Allocate(f, ls).marks)
  {
    AssignSources(f, ls);
    ChosenLength(Allocate(f, ls).marks);
  }

  lemma ScaledPairIsTwoVideoLayers(f: Frame, ls: seq<Layer>, maxScaling: int)
    requires f.maxHw == 2 && (f.useSgx || AcceptedFrame(f, ls, maxScaling))
    ensures var st := Allocate(f, ls);
      |st.ovls| == 2 && st.scaledGfx <==> TwoVideoLayers(f, ls)
  {
    var st := Allocate(f, ls);
    AllocatePipes(f, ls);
    if !f.useSgx {
      CountingRefinesGreedy(f, ls, maxScaling);
      PlacedCountBounds(f, ls);
      StatsMeaning(ls);
      if |ls| == 2 && AllPlaced(st.marks) {
        PlacedOverlays(f, ls);
        GfxScalesIffBothDo(f, ls);
      }
    }
  }

  lemma GfxScalesIffBothDo(f: Frame, ls: seq<Layer>)
    requires !f.useSgx && |ls| == 2 && ls[0].handle.Some? && ls[1].handle.Some?
    requires var ovls := Allocate(f, ls).ovls; |ovls| == 2 && ovls[0].src == FromLayer(0) && ovls[1].src == FromLayer(1)
    ensures Allocate(f, ls).scaledGfx <==> NeedsVideoPipe(ls[0]) && NeedsVideoPipe(ls[1])
  {
    var st := Allocate(f, ls);
    AllocatePipes(f, ls);
    assert Video(ls, st.ovls[0]) == NeedsVideoPipe(ls[0]) && Video(ls, st.ovls[1]) == NeedsVideoPipe(ls[1]);
    if !st.scaledGfx {
      assert InternalPipe(2, false, 0);
      assert HasIx(st.ovls, 0);
    }
  }

  /**
   * The pipelines of a frame clash exactly when two layers that both need a video pipe are mirrored: they take
   * pipelines 1 and 2 while their copies take 3 and 2.  Docking and an internal-only frame never clash.
   */
  lemma PipesClashOnlyMirroringTwoVideoLayers(s: Settings, ls: seq<Layer>, hdmi: Hdmi)
    requires Reserved(s) && Decide(s, Stats(ls).dockable).maxHw >= 0
    ensures var p := Prepare(s, ls, hdmi);
      PipesOk(p.Overlays()) <==> !(|p.clones| == 2 && TwoVideoLayers(p.frame, ls))
  {
    PipesOkIffTheyFit(s, ls, hdmi);
    if !MirrorsNow(s, Stats(ls).dockable) {
      UnmirroredFits(s, ls, hdmi);
    } else if |Prepare(s, ls, hdmi).clones| == 2 {
      MirroredPair(s, ls, hdmi);
      var p := Prepare(s, ls, hdmi);
      ScaledPairIsTwoVideoLayers(p.frame, ls, p.decision.maxScaling);
    } else {
      FewClonesFit(s, ls, hdmi);
    }
  }

  lemma UnmirroredFits(s: Settings, ls: seq<Layer>, hdmi: Hdmi)
    requires Reserved(s) && Decide(s, Stats(ls).dockable).maxHw >= 0 && !MirrorsNow(s, Stats(ls).dockable)
    ensures var p := Prepare(s, ls, hdmi);
      p.Post2() + |p.clones| + B(p.internal.scaledGfx) <= MAX_HW_OVERLAYS && |p.clones| <= 1
  {
    var p := Prepare(s, ls, hdmi);
    ReservationSafe(s, Stats(ls).dockable);
    PlanWithinLimits(s, ls, hdmi);
    PipesWithinLimit(p.frame, ls, p.decision.maxScaling);
  }

  lemma FewClonesFit(s: Settings, ls: seq<Layer>, hdmi: Hdmi)
    requires Reserved(s) && Decide(s, Stats(ls).dockable).maxHw >= 0 && MirrorsNow(s, Stats(ls).dockable)
    requires |Prepare(s, ls, hdmi).clones| != 2
    ensures var p := Prepare(s, ls, hdmi);
      p.Post2() + |p.clones| + B(p.internal.scaledGfx) <= MAX_HW_OVERLAYS
  {
    var p := Prepare(s, ls, hdmi);
    ReservationSafe(s, Stats(ls).dockable);
    PlanWithinLimits(s, ls, hdmi);
    CloneCount(s, p.decision, p.internal, hdmi);
  }

  lemma MirroredPair(s: Settings, ls: seq<Layer>, hdmi: Hdmi)
    requires Reserved(s) && Decide(s, Stats(ls).dockable).maxHw >= 0
    requires |Prepare(s, ls, hdmi).clones| == 2
    ensures var p := Prepare(s, ls, hdmi);
      && p.Post2() == 2 && p.frame.maxHw == 2
      && (p.frame.useSgx || AcceptedFrame(p.frame, ls, p.decision.maxScaling))
  {
    ReservationSafe(s, Stats(ls).dockable);
    PlanWithinLimits(s, ls, hdmi);
  }

  // ---- the picture of a prepared frame ----

  /** The internal screen at one position: the overlays stacked over what SGX left in the framebuffer. */
  ghost function Screen<P(!new)>(c: Compositor<P>, f: Frame, st: Alloc, hints: seq<bool>, shot: Shot<P>): P
    requires ZPermutation(st.ovls) && |st.marks| == |hints| == |shot|
  {
    DssStack(c, st.ovls, if f.useSgx then FbContent(c, st.marks, hints, shot) else c.clear, shot, |st.ovls|)
  }

  /** The screen shows, everywhere and for any content and hints, the layers painted in list order. */
  ghost predicate ShowsList<P(!new)>(c: Compositor<P>, f: Frame, st: Alloc, ls: seq<Layer>)
    requires ZPermutation(st.ovls) && |st.marks| == |ls|
  {
    forall hints: seq<bool>, shot: Shot<P> :: Covers(st.marks, hints) && Shows(c, ls, shot) ==>
      Screen(c, f, st, hints, shot) == Paint(c, shot)
  }

  lemma SgxFrameShowsList<P(!new)>(c: Compositor<P>, f: Frame, ls: seq<Layer>)
    requires c.Lawful() && f.useSgx
    requires ZPermutation(Allocate(f, ls).ovls) && |Allocate(f, ls).marks| == |ls|
    ensures ShowsList(c, f, Allocate(f, ls), ls)
  {
    forall hints: seq<bool>, shot: Shot<P> | Covers(Allocate(f, ls).marks, hints) && Shows(c, ls, shot)
      ensures Screen(c, f, Allocate(f, ls), hints, shot) == Paint(c, shot)
    {
      SgxShowsWholeList(c, f, ls, hints, shot);
    }
  }

  lemma DssFrameShowsListIffPlaced<P(!new)>(c: Compositor<P>, px: P, f: Frame, ls: seq<Layer>)
    requires c.Lawful() && !f.useSgx && c.solid(px) && px != c.clear
    requires ZPermutation(Allocate(f, ls).ovls) && |Allocate(f, ls).marks| == |ls|
    ensures ShowsList(c, f, Allocate(f, ls), ls) <==> AllPlaced(Allocate(f, ls).marks)
  {
    var st := Allocate(f, ls);
    if AllPlaced(st.marks) {
      forall hints: seq<bool>, shot: Shot<P> | Covers(st.marks, hints) && Shows(c, ls, shot)
        ensures Screen(c, f, st, hints, shot) == Paint(c, shot)
      {
        DssShowsWholeList(c, f, ls, c.clear, shot);
      }
    } else {
      var i :| 0 <= i < |ls| && st.marks[i].BySgx?;
      LeftOutLayerIsInvisible(c, f, ls, c.clear, i, px);
      var shot: Shot<P> := Only(|ls|, i, px);
      var hints := seq(|ls|, _ => true);
      assert Covers(st.marks, hints) && Shows(c, ls, shot);
      assert Screen(c, f, st, hints, shot) != Paint(c, shot);
    }
  }

  /**
   * Every frame composed with SGX shows its whole list.  A frame without SGX shows its whole list exactly when
   * its memory is strictly below the slot and no BGR layer meets a TV with the RGB-order check off.
   */
  lemma FrameShowsList<P(!new)>(c: Compositor<P>, px: P, s: Settings, ls: seq<Layer>, hdmi: Hdmi)
    requires c.Lawful() && Reserved(s) && Decide(s, Stats(ls).dockable).maxHw >= 0
    requires c.solid(px) && px != c.clear
    ensures var p := Prepare(s, ls, hdmi);
      && ZPermutation(p.internal.ovls) && |p.internal.marks| == |ls|
      && (ShowsList(c, p.frame, p.internal, ls) <==>
          p.frame.useSgx || (TotalMem(ls) < MAX_TILER_SLOT && !BgrOnTv(p.frame, ls)))
  {
    var p := Prepare(s, ls, hdmi);
    ReservationSafe(s, Stats(ls).dockable);
    AllocateZ(p.frame, ls);
    AssignSources(p.frame, ls);
    if p.frame.useSgx {
      SgxFrameShowsList(c, p.frame, ls);
    } else {
      CountingRefinesGreedy(p.frame, ls, p.decision.maxScaling);
      DssFrameShowsListIffPlaced(c, px, p.frame, ls);
    }
  }
}
