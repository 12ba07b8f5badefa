/**
 * The counting test that decides whether the DSS can show a frame without SGX, against the greedy loop that
 * then has to place every layer.  The two disagree in exactly two ways, both stated here.
 */
module HwcCounting {
  import opened Common
  import opened HwcLayers
  import opened HwcAllocator
  import opened HwcPicture

  /** All layers fit on overlays, judged by counts only. */
  predicate CanRenderAll(f: Frame, n: Counts, composited: nat, maxScaling: int) {
    && !f.forceSgx
    && n.possible != 0
    && n.possible <= f.maxHw
    && n.possible == composited
    && n.scaled <= maxScaling
    && n.nv12 <= maxScaling
    && n.mem <= MAX_TILER_SLOT
    && (!f.tform || n.nv12 == n.possible)
    && (n.bgr == 0 || (n.rgb == 0 && !f.onTv) || !f.rgbOrder)
  }

  /** A frame set up for overlays only after the counting test accepted it. */
  ghost predicate AcceptedFrame(f: Frame, ls: seq<Layer>, maxScaling: int) {
    && CanRenderAll(f, Stats(ls), |ls|, maxScaling)
    && !f.useSgx
    && f.swapRb == (Stats(ls).bgr != 0)
    && f.maxHw <= MAX_HW_OVERLAYS
  }

  /** Every layer of the list is shown by an overlay. */
  ghost predicate AllPlaced(marks: seq<Mark>) {
    forall i :: 0 <= i < |marks| ==> marks[i].ByDss?
  }

  /** A red-blue swapped layer the counting test lets through although a TV cannot show it. */
  ghost predicate BgrOnTv(f: Frame, ls: seq<Layer>) {
    !f.rgbOrder && f.onTv && Stats(ls).bgr != 0
  }

  lemma StepMarks(f: Frame, st: Alloc, l: Layer)
    ensures Step(f, st, l).marks == st.marks + [if Takes(f, st, l) then ByDss(f.useSgx && !l.Blended()) else BySgx]
  {
  }

  lemma {:induction false} MarksArePrefix(f: Frame, ls: seq<Layer>, i: nat)
    requires i <= |ls|
    ensures |Assign(f, ls).marks| == |ls|
    ensures Assign(f, ls).marks[..i] == Assign(f, ls[..i]).marks
  {
    if i < |ls| {
      var front := ls[..|ls| - 1];
      MarksArePrefix(f, front, i);
      assert front[..i] == ls[..i];
      StepMarks(f, Assign(f, front), ls[|front|]);
      var m, m' := Assign(f, front).marks, Assign(f, ls).marks;
      assert m' == m + [m'[|front|]];
      assert m'[..i] == m[..i];
    } else {
      AssignSources(f, ls);
      assert ls[..i] == ls;
    }
  }

  /** The mark of layer i was decided when the loop reached it. */
  lemma MarkDecided(f: Frame, ls: seq<Layer>, i: nat)
    requires i < |ls|
    ensures |Assign(f, ls).marks| == |ls|
    ensures Assign(f, ls).marks[i].ByDss? <==> Takes(f, Assign(f, ls[..i]), ls[i])
  {
    MarksArePrefix(f, ls, i + 1);
    AssignSources(f, ls[..i]);
    var p := ls[..i + 1];
    assert p[..i] == ls[..i] && p[i] == ls[i];
    assert Assign(f, ls).marks[i] == Assign(f, ls).marks[..i + 1][i];
  }

  lemma {:induction false} TotalMemMonotone(ls: seq<Layer>, i: nat)
    requires i <= |ls|
    ensures TotalMem(ls[..i]) <= TotalMem(ls)
  {
    if i < |ls| {
      TotalMemMonotone(ls[..|ls| - 1], i);
      assert ls[..|ls| - 1][..i] == ls[..i];
    } else {
      assert ls[..i] == ls;
    }
  }

  /** When everything so far was placed, the loop's memory counter is the exact total. */
  lemma {:induction false} PlacedMemory(f: Frame, ls: seq<Layer>)
    requires AllPlaced(Assign(f, ls).marks)
    ensures Assign(f, ls).memUsed == TotalMem(ls)
    ensures |Assign(f, ls).ovls| == Sgx(f) + |ls| && Assign(f, ls).fbZ == -1
  {
    AssignSources(f, ls);
    if ls != [] {
      var front := ls[..|ls| - 1];
      AssignSources(f, front);
      var st := Assign(f, front);
      MarkDecided(f, ls, |front|);
      assert Assign(f, ls).marks[..|front|] == st.marks;
      assert forall i :: 0 <= i < |front| ==> st.marks[i] == Assign(f, ls).marks[i];
      PlacedMemory(f, front);
      assert Assign(f, ls) == TakeLayer(st, f, ls[|front|]);
    }
  }

  /** An accepted frame whose memory stays strictly below the slot, without BGR on a TV, is placed whole. */
  lemma {:induction false} AcceptedPrefixPlaced(f: Frame, ls: seq<Layer>, maxScaling: int, i: nat)
    requires AcceptedFrame(f, ls, maxScaling) && i <= |ls|
    requires TotalMem(ls) < MAX_TILER_SLOT && !BgrOnTv(f, ls)
    ensures AllPlaced(Assign(f, ls[..i]).marks)
  {
    if i > 0 {
      var p := ls[..i];
      AcceptedPrefixPlaced(f, ls, maxScaling, i - 1);
      assert p[..i - 1] == ls[..i - 1] && p[i - 1] == ls[i - 1];
      PlacedMemory(f, ls[..i - 1]);
      TotalMemMonotone(ls, i);
      StatsMeaning(ls);
      FormatCounts(ls);
      var l := ls[i - 1];
      assert ValidLayer(l);
      assert TotalMem(p) == TotalMem(ls[..i - 1]) + LayerMem(l);
      assert CanRenderLayer(f, l);
      assert Takes(f, Assign(f, ls[..i - 1]), l);
    }
  }

  lemma PlacedFitsSlot(f: Frame, ls: seq<Layer>)
    requires ls != [] && AllPlaced(Assign(f, ls).marks)
    ensures TotalMem(ls) < MAX_TILER_SLOT
  {
    var n := |ls| - 1;
    var front := ls[..n];
    MarkDecided(f, ls, n);
    MarksArePrefix(f, ls, n);
    assert forall i :: 0 <= i < n ==> Assign(f, front).marks[i] == Assign(f, ls).marks[..n][i];
    PlacedMemory(f, front);
  }

  lemma PlacedIsNotBgrOnTv(f: Frame, ls: seq<Layer>)
    requires Stats(ls).possible == |ls| && AllPlaced(Assign(f, ls).marks)
    ensures !BgrOnTv(f, ls)
  {
    if BgrOnTv(f, ls) {
      StatsMeaning(ls);
      FormatCounts(ls);
      var i :| 0 <= i < |ls| && ValidLayer(ls[i]) && IsBgr(ls[i].handle.value.format);
      MarkDecided(f, ls, i);
    }
  }

  /**
   * The counting test refines the greedy loop: an accepted frame is placed whole exactly when its memory is
   * strictly below the slot (the test allows equality, the loop does not) and it has no BGR layer on a TV
   * with the RGB-order check switched off.
   */
  lemma CountingRefinesGreedy(f: Frame, ls: seq<Layer>, maxScaling: int)
    requires AcceptedFrame(f, ls, maxScaling)
    ensures AllPlaced(Allocate(f, ls).marks) <==> TotalMem(ls) < MAX_TILER_SLOT && !BgrOnTv(f, ls)
  {
    assert Allocate(f, ls).marks == Assign(f, ls).marks;
    StatsMeaning(ls);
    FormatCounts(ls);
    assert ls[..|ls|] == ls;
    if TotalMem(ls) < MAX_TILER_SLOT && !BgrOnTv(f, ls) {
      AcceptedPrefixPlaced(f, ls, maxScaling, |ls|);
    }
    if AllPlaced(Assign(f, ls).marks) {
      PlacedFitsSlot(f, ls);
      PlacedIsNotBgrOnTv(f, ls);
    }
  }

  /** A placed frame shows layer k on overlay k, bottom to top. */
  lemma {:induction false} ChosenAll(marks: seq<Mark>)
    requires AllPlaced(marks)
    ensures |Chosen(marks)| == |marks| && forall k :: 0 <= k < |marks| ==> Chosen(marks)[k] == k
  {
    if marks != [] { ChosenAll(marks[..|marks| - 1]); }
  }

  lemma {:induction false} RangeIsPaint<P(!new)>(c: Compositor<P>, ovls: seq<Overlay>, shot: Shot<P>, b: nat)
    requires b <= |ovls| && b <= |shot|
    requires forall k :: 0 <= k < b ==> ovls[k].src == FromLayer(k)
    ensures Range(c, ovls, shot, 0, b) == Paint(c, shot[..b])
  {
    if b > 0 {
      RangeIsPaint(c, ovls, shot, b - 1);
      assert shot[..b][..b - 1] == shot[..b - 1];
      assert At(c, shot[..b], b - 1) == At(c, shot, b - 1);
    }
  }

  lemma {:induction false} StackIsRange<P(!new)>(c: Compositor<P>, ovls: seq<Overlay>, fb: P, shot: Shot<P>, z: nat)
    requires ZPermutation(ovls) && z <= |ovls|
    requires forall k :: 0 <= k < |ovls| ==> ovls[k].zorder == k && ovls[k].src.FromLayer?
    ensures DssStack(c, ovls, fb, shot, z) == Range(c, ovls, shot, 0, z)
  {
    if z > 0 {
      ZIndexIs(ovls, z - 1);
      StackIsRange(c, ovls, fb, shot, z - 1);
    }
  }

  lemma PlacedOverlays(f: Frame, ls: seq<Layer>)
    requires !f.useSgx && AllPlaced(Allocate(f, ls).marks)
    ensures var ovls := Allocate(f, ls).ovls;
      |ovls| == |ls| && forall k :: 0 <= k < |ovls| ==> ovls[k].zorder == k && ovls[k].src == FromLayer(k)
  {
    AssignSources(f, ls);
    AssignKeepsZ(f, ls);
    var st, raw := Allocate(f, ls), Assign(f, ls);
    ChosenAll(raw.marks);
    forall k | 0 <= k < |st.ovls|
      ensures st.ovls[k].zorder == k && st.ovls[k].src == FromLayer(k)
    {
      assert st.ovls[k].src == raw.ovls[k].src && st.ovls[k].zorder == raw.ovls[k].zorder == ExpectedZ(f, raw.fbZ, k);
    }
  }

  /** Without SGX, a frame that is placed whole shows the picture of all layers painted in list order. */
  lemma DssShowsWholeList<P(!new)>(c: Compositor<P>, f: Frame, ls: seq<Layer>, fb: P, shot: Shot<P>)
    requires !f.useSgx && |shot| == |ls| && AllPlaced(Allocate(f, ls).marks)
    ensures var st := Allocate(f, ls);
      && |st.ovls| == |ls| && ZPermutation(st.ovls)
      && DssStack(c, st.ovls, fb, shot, |st.ovls|) == Paint(c, shot)
  {
    AllocateZ(f, ls);
    PlacedOverlays(f, ls);
    var ovls := Allocate(f, ls).ovls;
    StackIsRange(c, ovls, fb, shot, |ovls|);
    RangeIsPaint(c, ovls, shot, |ovls|);
    assert shot[..|shot|] == shot;
  }

  /** A position where only layer i shows something. */
  function Only<P>(n: nat, i: nat, px: P): Shot<P> {
    seq(n, j => if j == i then Some(px) else None)
  }

  lemma {:induction false} PaintOnly<P(!new)>(c: Compositor<P>, n: nat, i: nat, px: P)
    requires c.Lawful()
    ensures Paint(c, Only(n, i, px)) == if i < n then px else c.clear
  {
    if n > 0 {
      PaintOnly(c, n - 1, i, px);
      assert Only(n, i, px)[..n - 1] == Only(n - 1, i, px);
      Unital(c, px);
      Unital(c, c.clear);
    }
  }

  lemma {:induction false} StackIsClear<P(!new)>(c: Compositor<P>, ovls: seq<Overlay>, fb: P, shot: Shot<P>, z: nat)
    requires c.Lawful() && ZPermutation(ovls) && z <= |ovls|
    requires forall k :: 0 <= k < |ovls| ==> ShownBy(c, ovls[k], fb, shot) == c.clear
    ensures DssStack(c, ovls, fb, shot, z) == c.clear
  {
    if z > 0 {
      StackIsClear(c, ovls, fb, shot, z - 1);
      Unital(c, c.clear);
    }
  }

  lemma LeftOutShownNowhere(f: Frame, ls: seq<Layer>, i: nat, k: nat)
    requires !f.useSgx && i < |ls| && k < |Allocate(f, ls).ovls|
    requires |Allocate(f, ls).marks| == |ls| && Allocate(f, ls).marks[i].BySgx?
    ensures var o := Allocate(f, ls).ovls[k]; o.src.FromLayer? && o.src.i != i
  {
    AssignSources(f, ls);
    var st, raw := Allocate(f, ls), Assign(f, ls);
    ChosenAreMarked(raw.marks);
    assert st.ovls[k].src == raw.ovls[k].src == FromLayer(Chosen(raw.marks)[k]);
  }

  /** Without SGX, a layer the loop left out is not on the screen at all. */
  lemma LeftOutLayerIsInvisible<P(!new)>(c: Compositor<P>, f: Frame, ls: seq<Layer>, fb: P, i: nat, px: P)
    requires c.Lawful() && !f.useSgx && i < |ls|
    requires |Allocate(f, ls).marks| == |ls| && Allocate(f, ls).marks[i].BySgx?
    ensures var ovls := Allocate(f, ls).ovls;
      && ZPermutation(ovls)
      && DssStack(c, ovls, fb, Only(|ls|, i, px), |ovls|) == c.clear
      && Paint(c, Only(|ls|, i, px)) == px
  {
    AllocateZ(f, ls);
    var ovls, shot := Allocate(f, ls).ovls, Only(|ls|, i, px);
    forall k | 0 <= k < |ovls|
      ensures ShownBy(c, ovls[k], fb, shot) == c.clear
    {
      LeftOutShownNowhere(f, ls, i, k);
    }
    StackIsClear(c, ovls, fb, shot, |ovls|);
    PaintOnly(c, |ls|, i, px);
  }

  // ---- the pipelines a frame needs ----

  /** A scaled GFX layer means every overlay scales, so the overlays are among the counted ones. */
  lemma {:induction false} ScaledGfxCounted(f: Frame, ls: seq<Layer>)
    ensures Assign(f, ls).scaledGfx ==> |Assign(f, ls).ovls| <= Stats(ls).scaled
  {
    AssignKeepsPipes(f, ls);
    if ls != [] {
      ScaledGfxCounted(f, ls[..|ls| - 1]);
    }
  }

  /** The internal display never needs more pipelines than the counting code granted. */
  lemma PipesWithinLimit(f: Frame, ls: seq<Layer>, maxScaling: int)
    requires f.useSgx || CanRenderAll(f, Stats(ls), |ls|, maxScaling)
    requires 1 <= f.maxHw && maxScaling < f.maxHw
    ensures var st := Allocate(f, ls); |st.ovls| + B(st.scaledGfx) <= f.maxHw
  {
    AllocateZ(f, ls);
    AllocatePipes(f, ls);
    ScaledGfxCounted(f, ls);
  }

  // ---- the two disagreements, with concrete lists ----

  function Plain(fmt: Format, w: int, h: int): Layer {
    Layer(Some(Handle(fmt, w, h, false, false)), false, Transform(false, false, false), Opaque,
          Rect(0, 0, 16, 16), Rect(0, 0, 16, 16), true)
  }

  /** Any unscaled layer that fills the slot exactly is accepted by the test and dropped by the loop. */
  lemma SlotBoundary(l: Layer)
    requires ValidLayer(l) && !NeedsVideoPipe(l) && IsRgb(l.handle.value.format)
    requires Mem1d(l.handle.value) == MAX_TILER_SLOT
    ensures var ls := [l];
      var f := Frame(4, false, false, true, false, false, false, false, false);
      AcceptedFrame(f, ls, 3) && |Allocate(f, ls).ovls| == 0 && Allocate(f, ls).marks == [BySgx]
  {
    var ls := [l];
    assert ls[..0] == [];
    assert Stats([]) == Counts(0, 0, 0, 0, 0, 0, 0, 0);
    assert Stats(ls) == CountLayer(Stats(ls[..0]), l);
    var f := Frame(4, false, false, true, false, false, false, false, false);
    assert Assign(f, ls) == Step(f, Assign(f, ls[..0]), l);
  }

  /** 2048 x 2048 pixels of 4 bytes are exactly one slot. */
  lemma SlotBoundaryLosesLayer()
    ensures var ls := [Plain(BGRX8888, 2048, 2048)];
      var f := Frame(4, false, false, true, false, false, false, false, false);
      AcceptedFrame(f, ls, 3) && |Allocate(f, ls).ovls| == 0 && Allocate(f, ls).marks == [BySgx]
  {
    SlotBoundary(Plain(BGRX8888, 2048, 2048));
  }

  /** Any valid unscaled BGR layer below the slot, with the order check off, is accepted and then dropped. */
  lemma BgrOnTvDropped(l: Layer)
    requires ValidLayer(l) && !NeedsVideoPipe(l) && IsBgr(l.handle.value.format)
    ensures var ls := [l];
      var f := Frame(4, false, true, false, false, false, false, true, false);
      AcceptedFrame(f, ls, 3) && |Allocate(f, ls).ovls| == 0 && Allocate(f, ls).marks == [BySgx]
  {
    var ls := [l];
    assert ls[..0] == [];
    assert Stats([]) == Counts(0, 0, 0, 0, 0, 0, 0, 0);
    assert Stats(ls) == CountLayer(Stats(ls[..0]), l);
    var f := Frame(4, false, true, false, false, false, false, true, false);
    assert Assign(f, ls) == Step(f, Assign(f, ls[..0]), l);
  }

  /** A BGR layer on a TV with the RGB-order check off: accepted by the test, dropped by the loop. */
  lemma BgrOnTvLosesLayer()
    ensures var ls := [Plain(RGBA8888, 16, 16)];
      var f := Frame(4, false, true, false, false, false, false, true, false);
      AcceptedFrame(f, ls, 3) && |Allocate(f, ls).ovls| == 0 && Allocate(f, ls).marks == [BySgx]
  {
    BgrOnTvDropped(Plain(RGBA8888, 16, 16));
  }
}
