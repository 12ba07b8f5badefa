/**
 * What the settings come to over time: the share of overlays each display gets, the transform of the external
 * display since it was last plugged, and the two frames an idle screen is composed with SGX.
 */
module HwcSettings {
  import opened Common
  import opened HwcLayers
  import opened HwcFrame
  import opened HwcRuns

  // ---- shares ----

  /**
   * Docking comes before mirroring when there is something to dock, and when mirroring is off.  Whatever the last
   * frame leaves free is granted: to the display that wants it, and to the internal one.
   */
  ghost predicate NothingHeldBack(s: Settings, dockable: nat, d: Decision) {
    var docks := s.dock.enabled && (!s.mirror.enabled || dockable > 0 || s.forceDock);
    var mirrors := s.mirror.enabled && !docks;
    && d.wanted == (if mirrors then 2 else if docks && (dockable > 0 || s.forceDock) then 1 else 0)
    && (d.extOvls == d.wanted || (d.extOvls < d.wanted && d.extOvls + s.lastInt == MAX_HW_OVERLAYS))
    && (mirrors ==> d.maxHw == (if d.extOvls > 0 then d.extOvls else 2) && d.maxScaling == d.maxHw)
    && (!mirrors ==> d.maxHw + Max(d.wanted, s.lastExt) == MAX_HW_OVERLAYS && d.maxScaling == d.maxHw - NUM_NONSCALING_OVERLAYS)
  }

  lemma SharesHoldNothingBack(s: Settings, dockable: nat)
    requires Reserved(s)
    ensures NothingHeldBack(s, dockable, Decide(s, dockable))
  {
    ReservationSafe(s, dockable);
  }

  // ---- the transform of the external display ----

  /** The last plugging or unplugging of a run. */
  function LastPlug(es: seq<Event>): Option<Event> {
    if es == [] then None
    else if es[|es| - 1].Hotplug? then Some(es[|es| - 1])
    else LastPlug(es[..|es| - 1])
  }

  predicate Mirrorable(e: Event)
    requires e.Hotplug?
  {
    e.connected && e.props.mirroring && !e.forceDock && e.hdmi.ready
  }

  /** Docked, rather than mirrored, for a list with or without a dockable layer. */
  predicate Dockable(e: Event, dockable: nat)
    requires e.Hotplug?
  {
    e.connected && e.props.docking && (!Mirrorable(e) || dockable > 0)
  }

  /** What the external display shows, and how it is turned, by its last plugging alone. */
  predicate ShownAsPlugged(e: Event, dockable: nat, t: ExtTransform)
    requires e.Hotplug?
  {
    && (t.enabled <==> Mirrorable(e) || Dockable(e, dockable))
    && (t.enabled ==>
          && (t.docking <==> Dockable(e, dockable))
          && t.rotation == (if Mirrorable(e) then e.props.mirrorRotation % 4 else if e.forceDock then 0 else e.props.dockRotation % 4)
          && t.hflip == (if Mirrorable(e) then e.props.mirrorFlip else !e.forceDock && e.props.dockFlip))
  }

  /** The parts of the settings only a plugging changes. */
  predicate SameDisplays(s: Settings, t: Settings) {
    t.mirror == s.mirror && t.dock == s.dock && t.forceDock == s.forceDock
  }

  lemma OnlyPluggingChanges(st: State, e: Event)
    requires !e.Hotplug?
    ensures SameDisplays(st.s, Next(st, e).s)
  {
  }

  ghost predicate Plugged(e: Event, s: Settings)
    requires e.Hotplug?
  {
    && s.mirror.enabled == Mirrorable(e) && s.dock.enabled == (e.connected && e.props.docking) && s.forceDock == e.forceDock
    && (e.connected ==>
          && s.mirror.rotation == e.props.mirrorRotation % 4 && s.mirror.hflip == e.props.mirrorFlip && !s.mirror.docking
          && s.dock.rotation == (if e.forceDock then 0 else e.props.dockRotation % 4)
          && s.dock.hflip == (!e.forceDock && e.props.dockFlip) && s.dock.docking)
  }

  lemma {:induction false} RunKeepsPlugged(st: State, es: seq<Event>)
    requires LastPlug(es).Some?
    ensures LastPlug(es).value.Hotplug? && Plugged(LastPlug(es).value, Run(st, es).s)
  {
    var front, e := es[..|es| - 1], es[|es| - 1];
    if !e.Hotplug? {
      RunKeepsPlugged(st, front);
      OnlyPluggingChanges(Run(st, front), e);
    }
  }

  lemma PluggedShows(e: Event, s: Settings, dockable: nat)
    requires e.Hotplug? && Plugged(e, s)
    ensures ShownAsPlugged(e, dockable, Decide(s, dockable).current)
  {
  }

  /**
   * After every run in which the display was plugged or unplugged, the next frame turns and mirrors its copy as the
   * properties read at the last plugging say: the mirroring transform while mirroring is possible, docked or not, no
   * transform when docking is forced, and the docking one otherwise.  After unplugging nothing is shown there.
   */
  lemma TransformIsAsPlugged(st: State, es: seq<Event>, dockable: nat)
    requires LastPlug(es).Some?
    ensures LastPlug(es).value.Hotplug?
    ensures ShownAsPlugged(LastPlug(es).value, dockable, Decide(Run(st, es).s, dockable).current)
  {
    RunKeepsPlugged(st, es);
    PluggedShows(LastPlug(es).value, Run(st, es).s, dockable);
  }

  // ---- idle screens ----

  /** A set that posts its frame: the screen is on and the buffer swap, if there is one, succeeds. */
  predicate Posts(st: State, e: Event) { e.SetFrame? && e.screenOn && (st.useSgx ==> e.swapOk) }

  function FramesPosted(st: State, es: seq<Event>): nat {
    if es == [] then 0
    else FramesPosted(st, es[..|es| - 1]) + B(Posts(Run(st, es[..|es| - 1]), es[|es| - 1]))
  }

  /** No idle timeout, and no list of at most one layer, which ends forced composition. */
  predicate KeepsForcing(es: seq<Event>) {
    es == [] || (KeepsForcing(es[..|es| - 1]) && !es[|es| - 1].IdleTimeout? &&
                 (es[|es| - 1].PrepareFrame? ==> |es[|es| - 1].ls| > 1))
  }

  lemma PrepareForces(st: State, ls: seq<Layer>, hdmi: Hdmi)
    requires CountsSafe(st)
    ensures AfterPrepare(st, ls, hdmi).s.forceSgx == if |ls| <= 1 then 0 else st.s.forceSgx
  {
    PrepareKeepsCounts(st, ls, hdmi);
  }

  lemma SetForces(st: State, screenOn: bool, swapOk: bool, postOk: bool)
    ensures AfterSet(st, screenOn, swapOk, postOk).s.forceSgx
         == Max(0, st.s.forceSgx - B(Posts(st, SetFrame(screenOn, swapOk, postOk))))
  {
  }

  lemma ForcedStep(st: State, e: Event)
    requires CountsSafe(st) && !e.IdleTimeout? && (e.PrepareFrame? ==> |e.ls| > 1)
    ensures Next(st, e).s.forceSgx == Max(0, st.s.forceSgx - B(Posts(st, e)))
  {
    match e
    case PrepareFrame(ls, hdmi) => PrepareForces(st, ls, hdmi);
    case SetFrame(screenOn, swapOk, postOk) => SetForces(st, screenOn, swapOk, postOk);
    case Hotplug(_, _, _, _) =>
  }

  ghost predicate ForcedFor(st: State, es: seq<Event>, after: State) {
    after.s.forceSgx == Max(0, st.s.forceSgx - FramesPosted(st, es))
  }

  lemma {:induction false} ForcedCount(st: State, es: seq<Event>)
    requires CountsSafe(st) && KeepsForcing(es)
    ensures ForcedFor(st, es, Run(st, es))
  {
    if es != [] {
      var front, e := es[..|es| - 1], es[|es| - 1];
      ForcedCount(st, front);
      RunsKeepCounts(st, front);
      ForcedStep(Run(st, front), e);
      assert FramesPosted(st, es) == FramesPosted(st, front) + B(Posts(Run(st, front), e));
    }
  }

  lemma ForcedFrameUsesSgx(st: State, ls: seq<Layer>, hdmi: Hdmi)
    requires CountsSafe(st) && st.s.forceSgx > 0 && |ls| > 1
    ensures AfterPrepare(st, ls, hdmi).useSgx
  {
    ReservationSafe(st.s, Stats(ls).dockable);
  }

  ghost predicate ForcedUntil(after: State, posted: nat, ls: seq<Layer>, hdmi: Hdmi) {
    && (posted < 2 && |ls| > 1 ==> AfterPrepare(after, ls, hdmi).useSgx)
    && (posted < 2 ==> Next(after, IdleTimeout) == after)
    && (after.s.forceSgx == 0 <==> posted >= 2)
  }

  lemma ForcedThen(after: State, posted: nat, ls: seq<Layer>, hdmi: Hdmi)
    requires CountsSafe(after) && after.s.forceSgx == Max(0, 2 - posted)
    ensures ForcedUntil(after, posted, ls, hdmi)
  {
    if posted < 2 && |ls| > 1 { ForcedFrameUsesSgx(after, ls, hdmi); }
  }

  lemma ForcedSince(idle: State, es: seq<Event>, ls: seq<Layer>, hdmi: Hdmi)
    requires CountsSafe(idle) && idle.s.forceSgx == 2 && KeepsForcing(es)
    ensures ForcedUntil(Run(idle, es), FramesPosted(idle, es), ls, hdmi)
  {
    ForcedCount(idle, es);
    RunsKeepCounts(idle, es);
    ForcedThen(Run(idle, es), FramesPosted(idle, es), ls, hdmi);
  }

  /**
   * An idle screen with blended overlays is composed with SGX until two frames have been posted: every frame
   * prepared before that uses SGX, whatever else happens and however often the screen idles again, and afterwards
   * nothing is forced.
   */
  lemma TwoForcedFrames(st: State, es: seq<Event>, ls: seq<Layer>, hdmi: Hdmi)
    requires CountsSafe(st) && st.s.forceSgx == 0 && st.blending && KeepsForcing(es)
    ensures var idle := Next(st, IdleTimeout);
      ForcedUntil(Run(idle, es), FramesPosted(idle, es), ls, hdmi)
  {
    ForcedSince(Next(st, IdleTimeout), es, ls, hdmi);
  }

  // ---- the TV ----

  predicate FindsTv(e: Event) {
    (e.Hotplug? && e.hdmi.ready && e.hdmi.tv) || (e.PrepareFrame? && e.hdmi.ready && e.hdmi.tv)
  }

  predicate SomeFindsTv(es: seq<Event>) { es != [] && (SomeFindsTv(es[..|es| - 1]) || FindsTv(es[|es| - 1])) }

  lemma TvStep(st: State, e: Event)
    ensures st.s.onTv ==> Next(st, e).s.onTv
    ensures Next(st, e).s.onTv ==> st.s.onTv || FindsTv(e)
    ensures e.Hotplug? && Mirrorable(e) && e.hdmi.tv ==> Next(st, e).s.onTv
  {
  }

  /** The display is taken for a TV once a mode was set up for one, and for good; plugging in to mirror is enough. */
  lemma {:induction false} TvIsRemembered(st: State, es: seq<Event>, e: Event)
    ensures st.s.onTv ==> Run(st, es).s.onTv
    ensures Run(st, es).s.onTv ==> st.s.onTv || SomeFindsTv(es)
    ensures e.Hotplug? && Mirrorable(e) && e.hdmi.tv ==> Next(Run(st, es), e).s.onTv
  {
    if es != [] {
      TvIsRemembered(st, es[..|es| - 1], e);
      TvStep(Run(st, es[..|es| - 1]), es[|es| - 1]);
    }
    TvStep(Run(st, es), e);
  }
}
