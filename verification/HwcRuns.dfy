/**
 * The composer over time: prepare, set, hotplug and idle events in any order.  Overlays cannot move between
 * displays in one step, so every frame has to stay off the pipelines the other display used last.
 */
module HwcRuns {
  import opened Common
  import opened HwcLayers
  import opened HwcAllocator
  import opened HwcCounting
  import opened HwcFrame

  /** A composition as the hardware sees it: internal overlays, whether GFX is replaced, external overlays. */
  datatype Shown = Shown(post2: nat, scaledGfx: bool, clones: nat)

  const NOTHING := Shown(0, false, 0)

  /** Settings, the last prepared composition with its reservation, and the last posted composition. */
  datatype State = State(s: Settings, useSgx: bool, blending: bool, extOvls: int, wanted: int,
                         prepared: Shown, shown: Shown)

  /** What hotplug reads from the system properties. */
  datatype Properties = Properties(docking: bool, mirroring: bool, dockRotation: nat, dockFlip: bool,
                                   mirrorRotation: nat, mirrorFlip: bool)

  datatype Event =
    | PrepareFrame(ls: seq<Layer>, hdmi: Hdmi)
    | SetFrame(screenOn: bool, swapOk: bool, postOk: bool)
    | Hotplug(connected: bool, forceDock: bool, props: Properties, hdmi: Hdmi)
    | IdleTimeout

  /** HDMI setup was attempted while preparing. */
  predicate HdmiUsed(s: Settings, p: Plan) {
    && p.decision.current.enabled && p.decision.extOvls != 0
    && (if p.decision.current.docking then 0 <= p.internal.ixDocking || s.forceDock else s.last.docking)
  }

  function AfterPlan(st: State, layers: nat, p: Plan, hdmi: Hdmi): State {
    State(st.s.(current := p.current, last := p.current, forceSgx := ForceSgx(st.s, layers),
                onTv := st.s.onTv || (HdmiUsed(st.s, p) && hdmi.ready && hdmi.tv)),
          p.frame.useSgx, p.internal.blending, p.extOvls, p.decision.wanted,
          Shown(p.Post2(), p.internal.scaledGfx, |p.clones|), st.shown)
  }

  function AfterPrepare(st: State, ls: seq<Layer>, hdmi: Hdmi): State {
    if Decide(st.s, Stats(ls).dockable).maxHw < 0 then st
    else AfterPlan(st, |ls|, Prepare(st.s, ls, hdmi), hdmi)
  }

  /**
   * A failed buffer swap leaves everything; switching the screen off frees the pipelines.  A refused post leaves the
   * old composition on the screen, although the counters are those of the refused one.
   */
  function AfterSet(st: State, screenOn: bool, swapOk: bool, postOk: bool): State {
    if screenOn && st.useSgx && !swapOk then st
    else
      st.(s := st.s.(lastExt := st.extOvls, lastInt := st.prepared.post2,
                     forceSgx := if screenOn && st.s.forceSgx > 0 then st.s.forceSgx - 1 else st.s.forceSgx),
          shown := if !screenOn then NOTHING else if postOk then st.prepared else st.shown)
  }

  function AfterHotplug(s: Settings, connected: bool, forceDock: bool, props: Properties, hdmi: Hdmi): Settings {
    if !connected
    then s.(forceDock := forceDock, dock := s.dock.(enabled := false), mirror := s.mirror.(enabled := false))
    else
      var dock := if forceDock then ExtTransform(0, false, props.docking, true)
                  else ExtTransform(props.dockRotation % 4, props.dockFlip, props.docking, true);
      var mirror := ExtTransform(props.mirrorRotation % 4, props.mirrorFlip, props.mirroring && !forceDock, false);
      var s' := s.(forceDock := forceDock, dock := dock);
      if !mirror.enabled then s'.(mirror := mirror)
      else s'.(current := mirror, mirror := mirror.(enabled := hdmi.ready), onTv := s.onTv || (hdmi.ready && hdmi.tv))
  }

  function AfterIdle(st: State): State {
    if st.s.forceSgx == 0 && st.blending then st.(s := st.s.(forceSgx := 2)) else st
  }

  function Next(st: State, e: Event): State {
    match e
    case PrepareFrame(ls, hdmi) => AfterPrepare(st, ls, hdmi)
    case SetFrame(screenOn, swapOk, postOk) => AfterSet(st, screenOn, swapOk, postOk)
    case Hotplug(connected, forceDock, props, hdmi) => st.(s := AfterHotplug(st.s, connected, forceDock, props, hdmi))
    case IdleTimeout => AfterIdle(st)
  }

  /**
   * The counters: the prepared composition stays within four overlays together with what they hold for the other
   * display, on both displays, and the reservation for the next frame is sound.
   */
  ghost predicate CountsSafe(st: State) {
    && Reserved(st.s)
    && 0 <= st.extOvls <= 2
    && st.prepared.clones <= st.extOvls
    && st.prepared.post2 + st.extOvls <= MAX_HW_OVERLAYS
    && st.prepared.post2 + st.s.lastExt <= MAX_HW_OVERLAYS
    && st.extOvls + st.s.lastInt <= MAX_HW_OVERLAYS
    && st.shown.post2 <= MAX_HW_OVERLAYS && st.shown.clones <= 2
  }

  /** The counters cover the composition on the screen; two internal overlays never need to be covered. */
  predicate Tracks(st: State) {
    st.shown.clones <= st.s.lastExt && st.shown.post2 <= Max(st.s.lastInt, 2)
  }

  lemma PrepareKeepsCounts(st: State, ls: seq<Layer>, hdmi: Hdmi)
    requires CountsSafe(st)
    ensures Decide(st.s, Stats(ls).dockable).maxHw >= 1
    ensures CountsSafe(AfterPrepare(st, ls, hdmi)) && Tracks(AfterPrepare(st, ls, hdmi)) == Tracks(st)
  {
    ReservationSafe(st.s, Stats(ls).dockable);
    PlanWithinLimits(st.s, ls, hdmi);
  }

  lemma SetKeepsCounts(st: State, screenOn: bool, swapOk: bool, postOk: bool)
    requires CountsSafe(st)
    ensures CountsSafe(AfterSet(st, screenOn, swapOk, postOk))
  {
  }

  lemma HotplugKeepsCounts(st: State, connected: bool, forceDock: bool, props: Properties, hdmi: Hdmi)
    requires CountsSafe(st)
    ensures var next := st.(s := AfterHotplug(st.s, connected, forceDock, props, hdmi));
      CountsSafe(next) && Tracks(next) == Tracks(st)
  {
  }

  lemma NextKeepsCounts(st: State, e: Event)
    requires CountsSafe(st)
    ensures CountsSafe(Next(st, e))
    ensures !e.SetFrame? ==> Tracks(Next(st, e)) == Tracks(st)
  {
    match e
    case PrepareFrame(ls, hdmi) => PrepareKeepsCounts(st, ls, hdmi);
    case SetFrame(screenOn, swapOk, postOk) => SetKeepsCounts(st, screenOn, swapOk, postOk);
    case Hotplug(connected, forceDock, props, hdmi) => HotplugKeepsCounts(st, connected, forceDock, props, hdmi);
    case IdleTimeout =>
  }

  function Run(st: State, es: seq<Event>): State {
    if es == [] then st else Next(Run(st, es[..|es| - 1]), es[|es| - 1])
  }

  lemma {:induction false} RunsKeepCounts(st: State, es: seq<Event>)
    requires CountsSafe(st)
    ensures CountsSafe(Run(st, es))
  {
    if es != [] {
      RunsKeepCounts(st, es[..|es| - 1]);
      NextKeepsCounts(Run(st, es[..|es| - 1]), es[|es| - 1]);
    }
  }

  // ---- mirroring becomes available ----

  /** Mirroring is on, and stays the choice for this list. */
  ghost predicate Mirroring(st: State, ls: seq<Layer>) {
    MirrorsNow(st.s, Stats(ls).dockable)
  }

  /** Set asks for another frame when it wanted external overlays and had none. */
  predicate Invalidates(st: State) { st.wanted != 0 && st.extOvls == 0 }

  /**
   * With mirroring kept on and mode setup succeeding, the second frame mirrors: external overlays are granted
   * and every internal overlay is copied.  A first frame that could not copy its overlays asks for the second.
   */
  lemma MirroringBySecondFrame(st0: State, ls1: seq<Layer>, h1: Hdmi, ls2: seq<Layer>, h2: Hdmi)
    requires CountsSafe(st0) && Mirroring(st0, ls1) && h1.ready && h2.ready
    ensures var st1 := AfterPrepare(st0, ls1, h1);
      && (st1.prepared.post2 > 0 ==> (Invalidates(st1) <==> st1.prepared.clones == 0))
      && var st2 := AfterSet(st1, true, true, true);
         (Mirroring(st2, ls2) ==>
            && Decide(st2.s, Stats(ls2).dockable).extOvls >= 1
            && var st3 := AfterPrepare(st2, ls2, h2); st3.prepared.clones == st3.prepared.post2)
  {
    PrepareKeepsCounts(st0, ls1, h1);
    ReservationSafe(st0.s, Stats(ls1).dockable);
    PlanWithinLimits(st0.s, ls1, h1);
    var p1 := Prepare(st0.s, ls1, h1);
    MirrorClones(st0.s, ls1, h1);
    var st1 := AfterPrepare(st0, ls1, h1);
    var st2 := AfterSet(st1, true, true, true);
    assert st1.prepared.post2 <= 2;
    if Mirroring(st2, ls2) {
      ReservationSafe(st2.s, Stats(ls2).dockable);
      MirrorClones(st2.s, ls2, h2);
    }
  }

  lemma MirrorClones(s: Settings, ls: seq<Layer>, hdmi: Hdmi)
    requires Reserved(s) && MirrorsNow(s, Stats(ls).dockable) && hdmi.ready
    ensures var d := Decide(s, Stats(ls).dockable);
      && d.maxHw >= 0
      && var p := Prepare(s, ls, hdmi);
         && p.Post2() <= 2
         && |p.clones| == (if d.extOvls == 0 then 0 else p.Post2())
         && p.extOvls == |p.clones|
  {
    ReservationSafe(s, Stats(ls).dockable);
    PlanWithinLimits(s, ls, hdmi);
  }
}
