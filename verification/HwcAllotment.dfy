/**
 * Which layers of a prepared frame get an overlay, and whether the frame does without SGX, said about the list,
 * the settings and the answers alone: no counter of the loop and no count of the list is mentioned.
 */
module HwcAllotment {
  import opened Common
  import opened HwcLayers
  import opened HwcAllocator
  import opened HwcPicture
  import opened HwcCounting
  import opened HwcFrame

  /** Byte order of a pixel format; video formats are converted on the way and come out right in either setting. */
  datatype ByteOrder = Straight | Exchanged | Video | NoOrder

  function OrderOf(f: Format): ByteOrder {
    match f
    case RGB565 => Straight
    case BGRX8888 => Straight
    case BGRA8888 => Straight
    case RGBX8888 => Exchanged
    case RGBA8888 => Exchanged
    case NV12 => Video
    case NV12Padded => Video
    case OtherFormat => NoOrder
  }

  function LayerOrder(l: Layer): ByteOrder { if l.handle.None? then NoOrder else OrderOf(l.handle.value.format) }

  /** A buffer of this order looks right when the manager exchanges red and blue, or does not. */
  predicate Matches(o: ByteOrder, swap: bool) { o == Video || (o == Exchanged <==> swap) }

  // ---- which layers get an overlay ----

  /** A layer the DSS can show at all. */
  predicate Presentable(l: Layer) {
    && !l.skip && l.canScale && LayerOrder(l) != NoOrder
    && (LayerOrder(l) != Video ==>
          !l.transform.flipH && !l.transform.flipV && !l.transform.rot90 && Mem1d(l.handle.value) <= MAX_TILER_SLOT)
  }

  predicate TurnsPicture(t: ExtTransform) { t.enabled && (t.rotation != 0 || t.hflip) }

  /** A layer whose order, format and transform let this frame show it. */
  predicate Allowed(s: Settings, current: ExtTransform, useSgx: bool, swap: bool, l: Layer) {
    && Presentable(l)
    && (TurnsPicture(current) ==> LayerOrder(l) == Video)
    && (s.nv12Only && useSgx ==> LayerOrder(l) == Video)
    && (s.rgbOrder ==> Matches(LayerOrder(l), swap))
    && (s.onTv && current.enabled ==> LayerOrder(l) != Exchanged)
  }

  /** Forced SGX leaves only protected layers, and those to be docked, to overlays. */
  predicate Spared(s: Settings, current: ExtTransform, layers: nat, l: Layer)
    requires l.handle.Some?
  {
    || s.forceSgx == 0 || layers <= 1
    || l.handle.value.isProtected
    || (l.handle.value.dockable && current.enabled && current.docking)
  }

  /** The overlays taken by the first i layers, and the one-dimensional memory they use. */
  function TakenBefore(marks: seq<Mark>, i: nat): nat
    requires i <= |marks|
  {
    if i == 0 then 0 else TakenBefore(marks, i - 1) + B(marks[i - 1].ByDss?)
  }

  function MemBefore(ls: seq<Layer>, marks: seq<Mark>, i: nat): nat
    requires i <= |marks| == |ls|
  {
    if i == 0 then 0
    else MemBefore(ls, marks, i - 1) + if marks[i - 1].ByDss? && ls[i - 1].handle.Some? then Mem1d(ls[i - 1].handle.value) else 0
  }

  predicate SgxBefore(marks: seq<Mark>, i: nat)
    requires i <= |marks|
  {
    exists j :: 0 <= j < i && marks[j].BySgx?
  }

  /** What decides about layer i, read off the list and the answers before it. */
  predicate GetsOverlay(s: Settings, d: Decision, useSgx: bool, swap: bool, ls: seq<Layer>, marks: seq<Mark>, i: nat)
    requires i < |ls| == |marks|
  {
    var l := ls[i];
    && Allowed(s, d.current, useSgx, swap, l)
    && Spared(s, d.current, |ls|, l)
    && TakenBefore(marks, i) + B(useSgx) < d.maxHw
    && MemBefore(ls, marks, i) + Mem1d(l.handle.value) < MAX_TILER_SLOT
    && !(l.blending != Opaque && useSgx && SgxBefore(marks, i))
  }

  lemma RendersAllowed(s: Settings, d: Decision, useSgx: bool, swap: bool, layers: nat, l: Layer)
    requires d.maxHw >= 0
    ensures CanRenderLayer(FrameFor(s, d, useSgx, swap, layers), l) <==> Allowed(s, d.current, useSgx, swap, l)
  {
  }

  /** Some blended layer other than the backmost has an overlay. */
  predicate BlendsBefore(ls: seq<Layer>, marks: seq<Mark>, i: nat)
    requires i <= |marks| == |ls|
  {
    exists j :: 0 < j < i && marks[j].ByDss? && ls[j].blending != Opaque
  }

  /** The loop's counters after i layers are those of the answers. */
  ghost predicate Counted(f: Frame, st: Alloc, ls: seq<Layer>, marks: seq<Mark>, i: nat)
    requires i <= |marks| == |ls|
  {
    && |st.marks| == i
    && |st.ovls| == TakenBefore(marks, i) + B(f.useSgx)
    && st.memUsed == MemBefore(ls, marks, i)
    && st.fbZ >= -1 && st.z >= 0
    && (st.fbZ >= 0 <==> f.useSgx && SgxBefore(marks, i))
    && (st.blending <==> BlendsBefore(ls, marks, i))
  }

  lemma OneMoreCounted(f: Frame, ls: seq<Layer>, st: Alloc, marks: seq<Mark>, i: nat)
    requires i < |ls| == |marks| && Counted(f, st, ls, marks, i)
    requires marks[i].ByDss? <==> Takes(f, st, ls[i])
    ensures Counted(f, Step(f, st, ls[i]), ls, marks, i + 1)
  {
  }

  lemma CountersStep(f: Frame, ls: seq<Layer>, marks: seq<Mark>, i: nat)
    requires i < |ls| == |marks| && marks == Assign(f, ls).marks && Counted(f, Assign(f, ls[..i]), ls, marks, i)
    ensures Counted(f, Assign(f, ls[..i + 1]), ls, marks, i + 1)
  {
    assert ls[..i + 1] == ls[..i] + [ls[i]];
    AssignSnoc(f, ls[..i], ls[i]);
    assert marks[i].ByDss? <==> Takes(f, Assign(f, ls[..i]), ls[i]) by { MarkDecided(f, ls, i); }
    OneMoreCounted(f, ls, Assign(f, ls[..i]), marks, i);
  }

  lemma {:induction false} CountersFollowMarks(f: Frame, ls: seq<Layer>, marks: seq<Mark>, i: nat)
    requires i <= |ls| == |marks| && marks == Assign(f, ls).marks
    ensures Counted(f, Assign(f, ls[..i]), ls, marks, i)
  {
    if i == 0 {
      assert ls[..0] == [];
    } else {
      CountersFollowMarks(f, ls, marks, i - 1);
      CountersStep(f, ls, marks, i - 1);
    }
  }

  lemma TakesMeans(s: Settings, d: Decision, f: Frame, st: Alloc, ls: seq<Layer>, marks: seq<Mark>, i: nat)
    requires d.maxHw >= 0 && i < |ls| == |marks| && f == FrameFor(s, d, f.useSgx, f.swapRb, |ls|)
    requires Counted(f, st, ls, marks, i)
    ensures Takes(f, st, ls[i]) <==> GetsOverlay(s, d, f.useSgx, f.swapRb, ls, marks, i)
  {
    RendersAllowed(s, d, f.useSgx, f.swapRb, |ls|, ls[i]);
  }

  /** In every frame a layer gets an overlay exactly when the list and the answers before it say so. */
  lemma {:induction false} OverlayExactlyWhen(s: Settings, ls: seq<Layer>, hdmi: Hdmi, i: nat)
    requires Decide(s, Stats(ls).dockable).maxHw >= 0 && i < |ls|
    ensures OverlayWhen(s, ls, Prepare(s, ls, hdmi), i)
  {
    var p := Prepare(s, ls, hdmi);
    var f := p.frame;
    AssignSources(f, ls);
    MarkDecided(f, ls, i);
    CountersFollowMarks(f, ls, Assign(f, ls).marks, i);
    TakesMeans(s, p.decision, f, Assign(f, ls[..i]), ls, Assign(f, ls).marks, i);
  }

  predicate OverlayWhen(s: Settings, ls: seq<Layer>, p: Plan, i: nat)
    requires i < |ls|
  {
    && |p.internal.marks| == |ls|
    && (p.internal.marks[i].ByDss? <==>
        GetsOverlay(s, p.decision, p.frame.useSgx, p.frame.swapRb, ls, p.internal.marks, i))
  }

  lemma PresentableIsValid(l: Layer)
    ensures Presentable(l) <==> ValidLayer(l)
    ensures ValidLayer(l) ==> (LayerOrder(l) == Exchanged <==> IsBgr(l.handle.value.format))
  {
  }

  /** Some layer that can be shown keeps its bytes exchanged. */
  predicate SomeExchanged(ls: seq<Layer>) {
    exists i :: 0 <= i < |ls| && Presentable(ls[i]) && LayerOrder(ls[i]) == Exchanged
  }

  lemma ExchangedIsBgr(ls: seq<Layer>)
    ensures SomeExchanged(ls) <==> Stats(ls).bgr != 0
  {
    FormatCounts(ls);
  }

  /** The manager's setting follows the framebuffer's format with SGX, and without it the list's. */
  lemma {:induction false} SwapFollows(s: Settings, ls: seq<Layer>, hdmi: Hdmi)
    requires Decide(s, Stats(ls).dockable).maxHw >= 0
    ensures SwapFollowed(s, ls, Prepare(s, ls, hdmi).frame)
  {
    ExchangedIsBgr(ls);
  }

  predicate SwapFollowed(s: Settings, ls: seq<Layer>, f: Frame) {
    f.swapRb <==> if f.useSgx then s.fbBgr else SomeExchanged(ls)
  }

  /** Blending is remembered for idle screens exactly when a blended layer other than the backmost has an overlay. */
  lemma {:induction false} BlendingExactlyWhen(s: Settings, ls: seq<Layer>, hdmi: Hdmi)
    requires Decide(s, Stats(ls).dockable).maxHw >= 0
    ensures var st := Prepare(s, ls, hdmi).internal;
      |st.marks| == |ls| && (st.blending <==> BlendsBefore(ls, st.marks, |ls|))
  {
    var f := Prepare(s, ls, hdmi).frame;
    AssignSources(f, ls);
    CountersFollowMarks(f, ls, Assign(f, ls).marks, |ls|);
    assert ls[..|ls|] == ls;
  }

  // ---- which frames do without SGX ----

  /** The layer takes a video pipeline. */
  predicate OnVideoPipe(l: Layer) { LayerOrder(l) == Video || l.Scaled() }

  function VideoLayers(ls: seq<Layer>): set<nat> { set i: nat | i < |ls| && OnVideoPipe(ls[i]) }

  /** A list every overlay of which the DSS is expected to show by itself. */
  predicate DssAlone(s: Settings, d: Decision, ls: seq<Layer>) {
    && 0 < |ls| <= d.maxHw
    && (s.forceSgx == 0 || |ls| == 1)
    && (forall i :: 0 <= i < |ls| ==> Presentable(ls[i]))
    && |VideoLayers(ls)| <= d.maxScaling
    && TotalMem(ls) <= MAX_TILER_SLOT
    && (TurnsPicture(d.current) ==> forall i :: 0 <= i < |ls| ==> LayerOrder(ls[i]) == Video)
    && (s.rgbOrder && SomeExchanged(ls) ==>
          !(s.onTv && d.current.enabled) && forall i :: 0 <= i < |ls| ==> LayerOrder(ls[i]) != Straight)
  }

  lemma VideoLayersSnoc(ls: seq<Layer>)
    requires ls != []
    ensures var n := |ls| - 1;
      |VideoLayers(ls)| == |VideoLayers(ls[..n])| + B(OnVideoPipe(ls[n]))
  {
    var n := |ls| - 1;
    var front := ls[..n];
    assert forall i :: 0 <= i < n ==> front[i] == ls[i];
    if OnVideoPipe(ls[n]) {
      assert VideoLayers(ls) == VideoLayers(front) + {n};
    } else {
      assert VideoLayers(ls) == VideoLayers(front);
    }
  }

  lemma ScaledSnoc(ls: seq<Layer>)
    requires ls != [] && Presentable(ls[|ls| - 1])
    ensures var n := |ls| - 1;
      Stats(ls).scaled == Stats(ls[..n]).scaled + B(OnVideoPipe(ls[n]))
  {
    PresentableIsValid(ls[|ls| - 1]);
  }

  lemma {:induction false} VideoLayersCounted(ls: seq<Layer>)
    requires forall i :: 0 <= i < |ls| ==> Presentable(ls[i])
    ensures |VideoLayers(ls)| == Stats(ls).scaled
  {
    if ls != [] {
      VideoLayersCounted(ls[..|ls| - 1]);
      VideoLayersSnoc(ls);
      ScaledSnoc(ls);
    }
  }

  lemma AllPresentable(ls: seq<Layer>)
    ensures Stats(ls).possible == |ls| <==> forall i :: 0 <= i < |ls| ==> Presentable(ls[i])
  {
    StatsMeaning(ls);
    forall i | 0 <= i < |ls|
      ensures Presentable(ls[i]) <==> ValidLayer(ls[i])
    {
      PresentableIsValid(ls[i]);
    }
  }

  lemma OrdersCounted(ls: seq<Layer>)
    requires forall i :: 0 <= i < |ls| ==> Presentable(ls[i])
    ensures Stats(ls).rgb == 0 <==> forall i :: 0 <= i < |ls| ==> LayerOrder(ls[i]) != Straight
    ensures Stats(ls).nv12 == |ls| <==> forall i :: 0 <= i < |ls| ==> LayerOrder(ls[i]) == Video
  {
    AllPresentable(ls);
    FormatCounts(ls);
    forall i | 0 <= i < |ls|
      ensures ValidLayer(ls[i])
      ensures LayerOrder(ls[i]) == Straight <==> IsRgb(ls[i].handle.value.format)
      ensures LayerOrder(ls[i]) == Video <==> IsNv12(ls[i].handle.value.format)
    {
      PresentableIsValid(ls[i]);
    }
  }

  lemma AcceptedMeans(s: Settings, d: Decision, ls: seq<Layer>)
    requires 0 <= d.maxHw <= MAX_HW_OVERLAYS
    ensures CanRenderAll(FrameFor(s, d, false, false, |ls|), Stats(ls), |ls|, d.maxScaling) <==> DssAlone(s, d, ls)
  {
    AllPresentable(ls);
    if Stats(ls).possible == |ls| {
      VideoLayersCounted(ls);
      OrdersCounted(ls);
      ExchangedIsBgr(ls);
      StatsMeaning(ls);
      MemNeverWraps(ls);
    }
  }

  /** SGX stays out of a frame exactly when every layer is presentable and all of them fit the DSS together. */
  lemma {:induction false} SgxExactlyWhen(s: Settings, ls: seq<Layer>, hdmi: Hdmi)
    requires Reserved(s) && Decide(s, Stats(ls).dockable).maxHw >= 0
    ensures SgxWhen(s, ls, Prepare(s, ls, hdmi))
  {
    ReservationSafe(s, Stats(ls).dockable);
    AcceptedMeans(s, Decide(s, Stats(ls).dockable), ls);
  }

  predicate SgxWhen(s: Settings, ls: seq<Layer>, p: Plan) { p.frame.useSgx <==> !DssAlone(s, p.decision, ls) }

  /** A list counts as dockable exactly when a presentable layer of it is. */
  lemma {:induction false} DockableExactlyWhen(ls: seq<Layer>)
    ensures Stats(ls).dockable > 0 <==> SomeDockable(ls)
  {
    if ls != [] {
      var n := |ls| - 1;
      DockableExactlyWhen(ls[..n]);
      PresentableIsValid(ls[n]);
      assert forall i :: 0 <= i < n ==> ls[..n][i] == ls[i];
      assert SomeDockable(ls) <==> SomeDockable(ls[..n]) || IsDockable(ls[n]);
    }
  }

  predicate IsDockable(l: Layer) { Presentable(l) && l.handle.value.dockable }

  predicate SomeDockable(ls: seq<Layer>) { exists i :: 0 <= i < |ls| && IsDockable(ls[i]) }
}
