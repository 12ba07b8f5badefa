/** Exactly what a prepared frame sends to the external display, and what it reserves there, by the settings and the list. */
module HwcCloning {
  import opened Common
  import opened HwcLayers
  import opened HwcAllocator
  import opened HwcPicture
  import opened HwcCounting
  import opened HwcFrame
  import opened HwcAllotment
  import opened HwcColours
  import opened HwcRuns

  /** Some layer with an overlay can be docked. */
  predicate DockableShown(ls: seq<Layer>, marks: seq<Mark>)
    requires |marks| == |ls|
  {
    exists i :: 0 <= i < |ls| && marks[i].ByDss? && ls[i].handle.Some? && ls[i].handle.value.dockable
  }

  /** The clone copies an overlay whose layer is dockable. */
  predicate DocksOne(ls: seq<Layer>, ovls: seq<Overlay>, o: Overlay) {
    && o.src.CloneOf? && o.src.ovl < |ovls|
    && var from := ovls[o.src.ovl].src;
       from.FromLayer? && from.i < |ls| && ls[from.i].handle.Some? && ls[from.i].handle.value.dockable
  }

  /** Docking has something to show: a layer with an overlay, or the dock image. */
  predicate HasDock(s: Settings, ls: seq<Layer>, marks: seq<Mark>)
    requires |marks| == |ls|
  {
    DockableShown(ls, marks) || s.forceDock
  }

  predicate ClonesOf(s: Settings, ls: seq<Layer>, p: Plan, hdmi: Hdmi)
    requires |p.internal.marks| == |ls|
  {
    var d, marks := p.decision, p.internal.marks;
    if !d.current.enabled || d.extOvls == 0 then p.clones == [] && p.current == d.current
    else if !d.current.docking then
      && p.current == d.current
      && |p.clones| == (if s.last.docking && !hdmi.ready then 0 else p.Post2())
      && (forall k :: 0 <= k < |p.clones| ==> p.clones[k].src == CloneOf(k))
    else if !HasDock(s, ls, marks) then p.clones == [] && p.current == d.current
    else if !hdmi.ready then p.clones == [] && p.current == d.current.(enabled := false)
    else
      && p.current == d.current && |p.clones| == 1
      && (if DockableShown(ls, marks) then DocksOne(ls, p.internal.ovls, p.clones[0]) else p.clones[0].src == DockImage)
  }

  /** What is reserved is what is sent, unless a docking mode fails while nothing was on the external display. */
  predicate ReservesClones(s: Settings, p: Plan) {
    p.extOvls == if p.current.enabled || s.lastExt != 0 then |p.clones| else p.decision.extOvls
  }

  /** The loop remembers an overlay to dock exactly when a dockable layer has one. */
  lemma DockRemembered(f: Frame, ls: seq<Layer>)
    ensures var st := Allocate(f, ls);
      && |st.marks| == |ls| && -1 <= st.ixDocking < |st.ovls|
      && (st.ixDocking >= 0 <==> DockableShown(ls, st.marks))
      && (st.ixDocking >= 0 ==> st.ovls[st.ixDocking].src.FromLayer?)
      && (st.ixDocking >= 0 ==> st.ovls[st.ixDocking].src.i < |ls|)
      && (st.ixDocking >= 0 ==> ls[st.ovls[st.ixDocking].src.i].handle.Some?)
      && (st.ixDocking >= 0 ==> ls[st.ovls[st.ixDocking].src.i].handle.value.dockable)
  {
    var st := Allocate(f, ls);
    DockingPicksLargest(f, ls);
    AllocationShowsMarked(f, ls);
    if i :| 0 <= i < |ls| && st.marks[i].ByDss? && ls[i].handle.Some? && ls[i].handle.value.dockable {
      assert HasLayer(st.ovls, i);
      var k :| 0 <= k < |st.ovls| && st.ovls[k].src == FromLayer(i);
      assert st.ixDocking >= 0;
    }
    if st.ixDocking >= 0 {
      assert OfMarked(st.ovls[st.ixDocking], st.marks);
    }
  }

  ghost predicate ClonedRight(s: Settings, ls: seq<Layer>, p: Plan, hdmi: Hdmi) {
    |p.internal.marks| == |ls| && ClonesOf(s, ls, p, hdmi) && ReservesClones(s, p)
  }

  lemma PlanClones(s: Settings, d: Decision, f: Frame, ls: seq<Layer>, hdmi: Hdmi)
    ensures ClonedRight(s, ls, MakePlan(s, d, f, Allocate(f, ls), hdmi), hdmi)
  {
    DockRemembered(f, ls);
  }

  /** So it is in every frame. */
  lemma {:induction false} ClonesExactlyWhen(s: Settings, ls: seq<Layer>, hdmi: Hdmi)
    requires Decide(s, Stats(ls).dockable).maxHw >= 0
    ensures ClonedRight(s, ls, Prepare(s, ls, hdmi), hdmi)
  {
    var d := Decide(s, Stats(ls).dockable);
    PlanClones(s, d, ChooseFrame(s, d, Stats(ls), |ls|), ls, hdmi);
  }

  /** The pixels a layer covers on the display. */
  function Covered(l: Layer): int {
    (l.displayFrame.right - l.displayFrame.left) * (l.displayFrame.bottom - l.displayFrame.top)
  }

  /** Of the dockable layers with an overlay none covers more than layer d, and none before it as much. */
  ghost predicate FirstLargest(ls: seq<Layer>, marks: seq<Mark>, d: nat)
    requires d < |ls| == |marks|
  {
    forall i :: 0 <= i < |ls| && marks[i].ByDss? && ls[i].handle.Some? && ls[i].handle.value.dockable ==>
      Covered(ls[i]) <= Covered(ls[d]) && (i < d ==> Covered(ls[i]) < Covered(ls[d]))
  }

  /** The overlays of layers i and d are in the layers' order. */
  lemma OverlaysRise(ovls: seq<Overlay>, sgx: nat, marks: seq<Mark>, j: nat, k: nat)
    requires SourcesAre(ovls, sgx, Chosen(marks)) && j < |ovls| && k < |ovls|
    requires ovls[j].src.FromLayer? && ovls[k].src.FromLayer? && ovls[j].src.i < ovls[k].src.i
    ensures j < k
  {
    ChosenAreMarked(marks);
    var c := Chosen(marks);
    assert ovls[j].src.i == c[j - sgx] && ovls[k].src.i == c[k - sgx];
  }

  lemma DockedCoversMore(ls: seq<Layer>, st: Alloc, sgx: nat, i: nat)
    requires |st.marks| == |ls| && 0 <= st.ixDocking < |st.ovls| && DockChoice(ls, st)
    requires SourcesAre(st.ovls, sgx, Chosen(st.marks)) && HasLayer(st.ovls, i)
    requires i < |ls| && ls[i].handle.Some? && ls[i].handle.value.dockable
    ensures var d := st.ovls[st.ixDocking].src.i;
      Covered(ls[i]) <= Covered(ls[d]) && (i < d ==> Covered(ls[i]) < Covered(ls[d]))
  {
    var d := st.ovls[st.ixDocking].src.i;
    var k :| 0 <= k < |st.ovls| && st.ovls[k].src == FromLayer(i);
    if i < d { OverlaysRise(st.ovls, sgx, st.marks, k, st.ixDocking); }
  }

  /** The overlay to dock is that of the first layer that covers most. */
  lemma DockedIsLargest(f: Frame, ls: seq<Layer>)
    ensures DocksLargest(ls, Allocate(f, ls))
  {
    var st := Allocate(f, ls);
    DockRemembered(f, ls);
    DockingPicksLargest(f, ls);
    AllocationShowsMarked(f, ls);
    AllocationSources(f, ls);
    if st.ixDocking >= 0 {
      var d := st.ovls[st.ixDocking].src.i;
      forall i | 0 <= i < |ls| && st.marks[i].ByDss? && ls[i].handle.Some? && ls[i].handle.value.dockable
        ensures Covered(ls[i]) <= Covered(ls[d]) && (i < d ==> Covered(ls[i]) < Covered(ls[d]))
      {
        DockedCoversMore(ls, st, Sgx(f), i);
      }
    }
  }

  ghost predicate DocksLargest(ls: seq<Layer>, st: Alloc) {
    && |st.marks| == |ls| && -1 <= st.ixDocking < |st.ovls|
    && (st.ixDocking >= 0 ==>
          && st.ovls[st.ixDocking].src.FromLayer? && st.ovls[st.ixDocking].src.i < |ls|
          && FirstLargest(ls, st.marks, st.ovls[st.ixDocking].src.i))
  }

  /** Preparing sets up an HDMI mode to dock something, or to mirror again after docking. */
  predicate SetsMode(s: Settings, ls: seq<Layer>, p: Plan)
    requires |p.internal.marks| == |ls|
  {
    && p.decision.current.enabled && p.decision.extOvls > 0
    && (if p.decision.current.docking then HasDock(s, ls, p.internal.marks) else s.last.docking)
  }

  /**
   * The next frame knows how this one was shown outside, and takes the display for a TV from the mode set up for one
   * on.
   */
  ghost predicate Remembers(st: State, ls: seq<Layer>, p: Plan, hdmi: Hdmi, next: State) {
    && |p.internal.marks| == |ls|
    && next.s.last == next.s.current == p.current
    && (next.s.onTv <==> st.s.onTv || (SetsMode(st.s, ls, p) && hdmi.ready && hdmi.tv))
  }

  lemma PlanRemembers(st: State, d: Decision, f: Frame, ls: seq<Layer>, hdmi: Hdmi)
    requires 0 <= d.extOvls
    ensures var p := MakePlan(st.s, d, f, Allocate(f, ls), hdmi);
      Remembers(st, ls, p, hdmi, AfterPlan(st, |ls|, p, hdmi))
  {
    DockRemembered(f, ls);
  }

  lemma {:induction false} PrepareRemembers(st: State, ls: seq<Layer>, hdmi: Hdmi)
    requires CountsSafe(st)
    ensures Decide(st.s, Stats(ls).dockable).maxHw >= 0
    ensures Remembers(st, ls, Prepare(st.s, ls, hdmi), hdmi, AfterPrepare(st, ls, hdmi))
  {
    var d := Decide(st.s, Stats(ls).dockable);
    ReservationSafe(st.s, Stats(ls).dockable);
    PlanRemembers(st, d, ChooseFrame(st.s, d, Stats(ls), |ls|), ls, hdmi);
  }
}
