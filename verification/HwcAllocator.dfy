/**
 * The greedy overlay allocation of one frame: which layers go to a DSS overlay, at which z-order and on
 * which pipeline, and where the SGX framebuffer sits in the stack.  `Assign` states the loop as a fold;
 * the composer's method is proved equal to it and the lemmas here say what the fold achieves.
 */
module HwcAllocator {
  import opened Common
  import opened HwcLayers

  /** What stays fixed while a frame is allocated. */
  datatype Frame = Frame(maxHw: nat, useSgx: bool, swapRb: bool, rgbOrder: bool, nv12Only: bool,
                         forceSgx: bool, tform: bool, onTv: bool, docking: bool)

  datatype Source = Framebuffer | FromLayer(i: nat) | DockImage | CloneOf(ovl: nat)

  datatype Overlay = Overlay(src: Source, zorder: int, ix: int, mgr: int, area: int)

  /** Fate of a layer: drawn by SGX, or shown by an overlay with or without the clear-framebuffer hint. */
  datatype Mark = BySgx | ByDss(clearFb: bool)

  datatype Alloc = Alloc(ovls: seq<Overlay>, z: int, fbZ: int, memUsed: nat, scaledGfx: bool, ixDocking: int,
                         blending: bool, marks: seq<Mark>)

  predicate CanRenderLayer(f: Frame, l: Layer) {
    && ValidLayer(l)
    && var fmt := l.handle.value.format;
      && (!f.tform || IsNv12(fmt))
      && (!f.nv12Only || !f.useSgx || IsNv12(fmt))
      && (!(if f.swapRb then IsRgb(fmt) else IsBgr(fmt)) || !f.rgbOrder)
      && !(f.onTv && IsBgr(fmt))
  }

  /** The condition under which the loop gives layer `l` an overlay. */
  predicate Takes(f: Frame, st: Alloc, l: Layer) {
    && |st.ovls| < f.maxHw
    && CanRenderLayer(f, l)
    && (!f.forceSgx || l.handle.value.isProtected || (f.docking && l.handle.value.dockable))
    && st.memUsed + Mem1d(l.handle.value) < MAX_TILER_SLOT
    && !(l.Blended() && st.fbZ >= 0)
  }

  function Sgx(f: Frame): nat { if f.useSgx then 1 else 0 }

  /** State before the first layer; with SGX, slot 0 is kept for the framebuffer. */
  function Start(f: Frame): Alloc {
    Alloc(if f.useSgx then [Overlay(Framebuffer, 0, 0, 0, 0)] else [], 0, -1, 0, false, -1, false, [])
  }

  /** Pipeline indices after adding overlay number |ovls|: an unscaled one takes over GFX from a scaled one. */
  function Place(ovls: seq<Overlay>, o: Overlay, swap: bool): seq<Overlay> {
    var n := |ovls|;
    if swap && n > 0 then ovls[0 := ovls[0].(ix := n)] + [o.(ix := 0)] else ovls + [o.(ix := n)]
  }

  function TakeLayer(st: Alloc, f: Frame, l: Layer): Alloc
    requires l.handle.Some?
  {
    var i, n := |st.marks|, |st.ovls|;
    var video := NeedsVideoPipe(l);
    var swap := n > 0 && st.scaledGfx && !video;
    var area := l.Area();
    var ovls := Place(st.ovls, Overlay(FromLayer(i), st.z, n, 0, area), swap);
    Alloc(ovls, st.z + 1, st.fbZ, st.memUsed + Mem1d(l.handle.value),
          if n == 0 then video else if swap then false else st.scaledGfx,
          if l.handle.value.dockable &&
             (!(0 <= st.ixDocking < n) || area > st.ovls[st.ixDocking].area) then n else st.ixDocking,
          st.blending || (l.Blended() && i > 0),
          st.marks + [ByDss(f.useSgx && !l.Blended())])
  }

  /** DSS overlays above the framebuffer move down one step. */
  function Lowered(ovls: seq<Overlay>, from: int): (r: seq<Overlay>)
    ensures |r| == |ovls|
  {
    seq(|ovls|, j requires 0 <= j < |ovls| => if j >= from then ovls[j].(zorder := ovls[j].zorder - 1) else ovls[j])
  }

  function LeaveLayer(st: Alloc, f: Frame): Alloc {
    var marks := st.marks + [BySgx];
    if !f.useSgx then st.(marks := marks)
    else if st.fbZ < 0 then st.(fbZ := st.z, z := st.z + 1, marks := marks)
    else if st.fbZ < st.z - 1 then st.(ovls := Lowered(st.ovls, 1 + st.fbZ), fbZ := st.z - 1, marks := marks)
    else st.(marks := marks)
  }

  function Step(f: Frame, st: Alloc, l: Layer): Alloc {
    if Takes(f, st, l) then TakeLayer(st, f, l) else LeaveLayer(st, f)
  }

  function Assign(f: Frame, ls: seq<Layer>): Alloc {
    if ls == [] then Start(f) else Step(f, Assign(f, ls[..|ls| - 1]), ls[|ls| - 1])
  }

  /** After the loop: a scaled GFX layer moves to a video pipe and the framebuffer gets its z-order. */
  function Finish(f: Frame, st: Alloc): Alloc {
    var ovls := if st.scaledGfx && |st.ovls| > 0 then st.ovls[0 := st.ovls[0].(ix := |st.ovls|)] else st.ovls;
    if !f.useSgx || |ovls| == 0 then st.(ovls := ovls)
    else
      var fbZ := if st.fbZ < 0 then st.z else st.fbZ;
      var z := if st.fbZ < 0 then st.z + 1 else st.z;
      st.(ovls := ovls[0 := Overlay(Framebuffer, fbZ, 0, 0, 0)], fbZ := fbZ, z := z)
  }

  /** The internal display's overlays of a frame. */
  function Allocate(f: Frame, ls: seq<Layer>): Alloc { Finish(f, Assign(f, ls)) }

  // ---- z-orders ----

  /** The z-order overlay number `k` must have: list order, with a gap for the framebuffer. */
  function ExpectedZ(f: Frame, fbZ: int, k: int): int {
    if !f.useSgx then k
    else if fbZ >= 0 && k - 1 >= fbZ then k
    else k - 1
  }

  ghost predicate ZInv(f: Frame, st: Alloc) {
    && Sgx(f) <= |st.ovls|
    && (f.useSgx ==> |st.ovls| <= f.maxHw || |st.ovls| == 1)
    && (!f.useSgx ==> st.fbZ < 0 && |st.ovls| <= f.maxHw)
    && st.fbZ >= -1
    && (st.fbZ < 0 ==> st.z == |st.ovls| - Sgx(f))
    && (st.fbZ >= 0 ==> st.z == |st.ovls| && st.fbZ < st.z)
    && (forall k :: Sgx(f) <= k < |st.ovls| ==> st.ovls[k].zorder == ExpectedZ(f, st.fbZ, k))
  }

  lemma StepKeepsZ(f: Frame, st: Alloc, l: Layer)
    requires ZInv(f, st)
    ensures ZInv(f, Step(f, st, l))
  {
    var st' := Step(f, st, l);
    if Takes(f, st, l) {
      assert st'.fbZ == st.fbZ && |st'.ovls| == |st.ovls| + 1;
      forall k | Sgx(f) <= k < |st'.ovls|
        ensures st'.ovls[k].zorder == ExpectedZ(f, st'.fbZ, k)
      {
        if k < |st.ovls| { assert st'.ovls[k].zorder == st.ovls[k].zorder; }
      }
    }
  }

  lemma {:induction false} AssignKeepsZ(f: Frame, ls: seq<Layer>)
    ensures ZInv(f, Assign(f, ls))
  {
    if ls != [] {
      AssignKeepsZ(f, ls[..|ls| - 1]);
      StepKeepsZ(f, Assign(f, ls[..|ls| - 1]), ls[|ls| - 1]);
    }
  }

  /** The z-orders of `ovls` are exactly 0..|ovls|-1, each handed out once. */
  ghost predicate ZPermutation(ovls: seq<Overlay>) {
    && (forall k :: 0 <= k < |ovls| ==> 0 <= ovls[k].zorder < |ovls|)
    && (forall j, k :: 0 <= j < k < |ovls| ==> ovls[j].zorder != ovls[k].zorder)
    && (forall z :: 0 <= z < |ovls| ==> HasZ(ovls, z))
  }

  ghost predicate HasZ(ovls: seq<Overlay>, z: int) {
    exists k :: 0 <= k < |ovls| && ovls[k].zorder == z
  }

  /** Z-orders in list order around the framebuffer's are a permutation. */
  lemma ExpectedIsPermutation(f: Frame, fbZ: int, ovls: seq<Overlay>)
    requires Sgx(f) <= |ovls| && forall k :: Sgx(f) <= k < |ovls| ==> ovls[k].zorder == ExpectedZ(f, fbZ, k)
    requires f.useSgx ==> 0 <= fbZ < |ovls| && ovls[0].zorder == fbZ
    ensures ZPermutation(ovls)
  {
    forall z | 0 <= z < |ovls|
      ensures HasZ(ovls, z)
    {
      var k := if !f.useSgx then z else if z == fbZ then 0 else if z < fbZ then z + 1 else z;
      assert ovls[k].zorder == z;
    }
  }

  /** The internal stack: overlays keep list order and the framebuffer fills the one gap at `fbZ`. */
  lemma AllocateZ(f: Frame, ls: seq<Layer>)
    ensures var st := Allocate(f, ls);
      && ZPermutation(st.ovls) && st.z == |st.ovls|
      && |st.ovls| <= (if f.useSgx && f.maxHw == 0 then 1 else f.maxHw)
      && Sgx(f) <= |st.ovls|
      && (f.useSgx ==> st.ovls[0].zorder == st.fbZ && st.ovls[0].src == Framebuffer)
      && (forall j, k :: Sgx(f) <= j < k < |st.ovls| ==> st.ovls[j].zorder < st.ovls[k].zorder)
  {
    AssignKeepsZ(f, ls);
    var raw, st := Assign(f, ls), Allocate(f, ls);
    forall k | Sgx(f) <= k < |st.ovls|
      ensures st.ovls[k].zorder == ExpectedZ(f, st.fbZ, k)
    {
      assert st.ovls[k].zorder == raw.ovls[k].zorder;
    }
    ExpectedIsPermutation(f, st.fbZ, st.ovls);
  }

  // ---- which layer each overlay shows ----

  /** Indices of the layers marked for the DSS, in list order. */
  function Chosen(marks: seq<Mark>): seq<nat> {
    if marks == [] then []
    else Chosen(marks[..|marks| - 1]) + (if marks[|marks| - 1].ByDss? then [|marks| - 1] else [])
  }

  ghost predicate SourceInv(f: Frame, ls: seq<Layer>, st: Alloc) {
    && |st.marks| == |ls|
    && |st.ovls| == Sgx(f) + |Chosen(st.marks)|
    && (f.useSgx ==> st.ovls[0].src == Framebuffer)
    && (forall k :: Sgx(f) <= k < |st.ovls| ==> st.ovls[k].src == FromLayer(Chosen(st.marks)[k - Sgx(f)]))
    && (forall i :: 0 <= i < |ls| && st.marks[i].ByDss? ==>
                      ValidLayer(ls[i]) && st.marks[i].clearFb == (f.useSgx && !ls[i].Blended()))
  }

  lemma ChosenSnoc(marks: seq<Mark>, m: Mark)
    ensures Chosen(marks + [m]) == Chosen(marks) + (if m.ByDss? then [|marks|] else [])
  {
    assert (marks + [m])[..|marks|] == marks;
  }

  lemma StepSources(f: Frame, ls: seq<Layer>, st: Alloc, l: Layer)
    requires SourceInv(f, ls, st)
    ensures SourceInv(f, ls + [l], Step(f, st, l))
  {
    var st' := Step(f, st, l);
    var m := if Takes(f, st, l) then ByDss(f.useSgx && !l.Blended()) else BySgx;
    assert st'.marks == st.marks + [m];
    ChosenSnoc(st.marks, m);
    assert |st'.ovls| == |st.ovls| + B(m.ByDss?);
    assert m.ByDss? ==> st'.ovls[|st.ovls|].src == FromLayer(|ls|);
    forall k | 0 <= k < |st.ovls|
      ensures st'.ovls[k].src == st.ovls[k].src
    {
    }
    SourcesSnoc(f, ls, st, l, m, st'.ovls);
  }

  lemma SourcesSnoc(f: Frame, ls: seq<Layer>, st: Alloc, l: Layer, m: Mark, ovls: seq<Overlay>)
    requires SourceInv(f, ls, st)
    requires m.ByDss? ==> ValidLayer(l) && m.clearFb == (f.useSgx && !l.Blended())
    requires Chosen(st.marks + [m]) == Chosen(st.marks) + (if m.ByDss? then [|ls|] else [])
    requires |ovls| == |st.ovls| + B(m.ByDss?)
    requires forall k :: 0 <= k < |st.ovls| ==> ovls[k].src == st.ovls[k].src
    requires m.ByDss? ==> ovls[|st.ovls|].src == FromLayer(|ls|)
    ensures SourceInv(f, ls + [l], st.(marks := st.marks + [m], ovls := ovls))
  {
    var c, c' := Chosen(st.marks), Chosen(st.marks + [m]);
    forall k | Sgx(f) <= k < |ovls|
      ensures ovls[k].src == FromLayer(c'[k - Sgx(f)])
    {
      if k < |st.ovls| { assert c'[k - Sgx(f)] == c[k - Sgx(f)]; }
    }
    forall i | 0 <= i < |ls| + 1 && (st.marks + [m])[i].ByDss?
      ensures ValidLayer((ls + [l])[i]) && (st.marks + [m])[i].clearFb == (f.useSgx && !(ls + [l])[i].Blended())
    {
      if i < |ls| { assert (ls + [l])[i] == ls[i] && (st.marks + [m])[i] == st.marks[i]; }
    }
  }

  lemma {:induction false} AssignSources(f: Frame, ls: seq<Layer>)
    ensures SourceInv(f, ls, Assign(f, ls))
  {
    if ls != [] {
      var front, l := ls[..|ls| - 1], ls[|ls| - 1];
      AssignSources(f, front);
      StepSources(f, front, Assign(f, front), l);
      assert front + [l] == ls;
    }
  }

  /** Exactly the marked layers are chosen, once each and in list order. */
  lemma ChosenAreMarked(marks: seq<Mark>)
    ensures forall k :: 0 <= k < |Chosen(marks)| ==> Chosen(marks)[k] < |marks| && marks[Chosen(marks)[k]].ByDss?
    ensures forall j, k :: 0 <= j < k < |Chosen(marks)| ==> Chosen(marks)[j] < Chosen(marks)[k]
    ensures forall i :: 0 <= i < |marks| && marks[i].ByDss? ==> i in Chosen(marks)
  {
    ChosenRise(marks);
    ChosenCover(marks);
  }

  lemma {:induction false} ChosenRise(marks: seq<Mark>)
    ensures forall k :: 0 <= k < |Chosen(marks)| ==> Chosen(marks)[k] < |marks| && marks[Chosen(marks)[k]].ByDss?
    ensures forall j, k :: 0 <= j < k < |Chosen(marks)| ==> Chosen(marks)[j] < Chosen(marks)[k]
  {
    if marks != [] {
      ChosenRise(marks[..|marks| - 1]);
    }
  }

  lemma {:induction false} ChosenCover(marks: seq<Mark>)
    ensures forall i :: 0 <= i < |marks| && marks[i].ByDss? ==> i in Chosen(marks)
  {
    if marks != [] {
      var front := marks[..|marks| - 1];
      ChosenCover(front);
      forall i | 0 <= i < |marks| && marks[i].ByDss?
        ensures i in Chosen(marks)
      {
        if i < |front| { assert front[i] == marks[i]; }
      }
    }
  }

  // ---- pipelines ----

  /** Pipeline indices of the internal overlays: a permutation that swaps GFX (0) with at most one other. */
  ghost predicate PipesSwapped(ovls: seq<Overlay>) {
    && (forall k :: 0 < k < |ovls| && k != ovls[0].ix ==> ovls[k].ix == k)
    && (|ovls| > 0 ==> 0 <= ovls[0].ix < |ovls| && ovls[ovls[0].ix].ix == 0)
  }

  ghost predicate Video(ls: seq<Layer>, o: Overlay) {
    o.src.FromLayer? && o.src.i < |ls| && ls[o.src.i].handle.Some? && NeedsVideoPipe(ls[o.src.i])
  }

  ghost predicate PipeInv(f: Frame, ls: seq<Layer>, st: Alloc) {
    && PipesSwapped(st.ovls)
    && (f.useSgx ==> |st.ovls| > 0 && st.ovls[0].ix == 0 && !st.scaledGfx)
    && (st.scaledGfx ==> |st.ovls| > 0 && st.ovls[0].ix == 0 && forall k :: 0 <= k < |st.ovls| ==> Video(ls, st.ovls[k]))
    && (!st.scaledGfx ==> forall k :: 0 <= k < |st.ovls| && st.ovls[k].ix == 0 ==> !Video(ls, st.ovls[k]))
    && -1 <= st.ixDocking < |st.ovls|
    && (st.ixDocking >= 0 ==> Sgx(f) <= st.ixDocking && st.ovls[st.ixDocking].src.FromLayer?)
  }

  lemma VideoExtends(ls: seq<Layer>, l: Layer, o: Overlay)
    requires o.src.FromLayer? ==> o.src.i < |ls|
    ensures Video(ls + [l], o) == Video(ls, o)
  {
    if o.src.FromLayer? { assert (ls + [l])[o.src.i] == ls[o.src.i]; }
  }

  lemma SourcesInRange(f: Frame, ls: seq<Layer>, k: int)
    requires 0 <= k < |Assign(f, ls).ovls|
    ensures var o := Assign(f, ls).ovls[k]; o.src.Framebuffer? || (o.src.FromLayer? && o.src.i < |ls|)
  {
    AssignSources(f, ls);
    ChosenAreMarked(Assign(f, ls).marks);
  }

  lemma StepKeepsPipes(f: Frame, ls: seq<Layer>, st: Alloc, l: Layer)
    requires PipeInv(f, ls, st) && |st.marks| == |ls|
    requires forall k :: 0 <= k < |st.ovls| && st.ovls[k].src.FromLayer? ==> st.ovls[k].src.i < |ls|
    ensures PipeInv(f, ls + [l], Step(f, st, l))
  {
    var st' := Step(f, st, l);
    var ls' := ls + [l];
    forall k | 0 <= k < |st.ovls|
      ensures Video(ls', st'.ovls[k]) == Video(ls, st.ovls[k])
    {
      assert st'.ovls[k].src == st.ovls[k].src;
      VideoExtends(ls, l, st.ovls[k]);
    }
    if Takes(f, st, l) {
      assert ls'[|ls|] == l;
      assert Video(ls', st'.ovls[|st.ovls|]) == NeedsVideoPipe(l);
    } else {
      assert forall k :: 0 <= k < |st.ovls| ==> st'.ovls[k].ix == st.ovls[k].ix && st'.ovls[k].src == st.ovls[k].src;
    }
  }

  lemma {:induction false} AssignKeepsPipes(f: Frame, ls: seq<Layer>)
    ensures PipeInv(f, ls, Assign(f, ls))
  {
    if ls != [] {
      var front := ls[..|ls| - 1];
      AssignKeepsPipes(f, front);
      AssignSources(f, front);
      forall k | 0 <= k < |Assign(f, front).ovls| && Assign(f, front).ovls[k].src.FromLayer?
        ensures Assign(f, front).ovls[k].src.i < |front|
      {
        SourcesInRange(f, front, k);
      }
      StepKeepsPipes(f, front, Assign(f, front), ls[|ls| - 1]);
      assert front + [ls[|ls| - 1]] == ls;
    }
  }

  /** Pipelines `n` internal overlays use; a scaled GFX layer shifts them up by one. */
  predicate InternalPipe(n: nat, scaledGfx: bool, p: int) {
    B(scaledGfx) <= p < n + B(scaledGfx)
  }

  ghost predicate HasIx(ovls: seq<Overlay>, p: int) {
    exists k :: 0 <= k < |ovls| && ovls[k].ix == p
  }

  ghost predicate DistinctIx(ovls: seq<Overlay>) {
    forall j, k :: 0 <= j < k < |ovls| ==> ovls[j].ix != ovls[k].ix
  }

  /** Each internal overlay has its own pipeline, they fill the range `InternalPipe`, and GFX never scales. */
  lemma AllocatePipes(f: Frame, ls: seq<Layer>)
    ensures var st := Allocate(f, ls);
      && DistinctIx(st.ovls)
      && (forall k :: 0 <= k < |st.ovls| ==> InternalPipe(|st.ovls|, st.scaledGfx, st.ovls[k].ix))
      && (forall p :: InternalPipe(|st.ovls|, st.scaledGfx, p) ==> HasIx(st.ovls, p))
      && (forall k :: 0 <= k < |st.ovls| && st.ovls[k].ix == 0 ==> !Video(ls, st.ovls[k]))
      && (st.scaledGfx ==> !f.useSgx && forall k :: 0 <= k < |st.ovls| ==> Video(ls, st.ovls[k]))
      && -1 <= st.ixDocking < |st.ovls|
      && (st.ixDocking >= 0 ==> st.ovls[st.ixDocking].src.FromLayer?)
      && (st.scaledGfx ==> |st.ovls| > 0)
  {
    AssignKeepsPipes(f, ls);
    AssignKeepsZ(f, ls);
    var raw, st := Assign(f, ls), Allocate(f, ls);
    assert forall k :: Sgx(f) <= k < |st.ovls| ==> st.ovls[k].src == raw.ovls[k].src;
    forall p | InternalPipe(|st.ovls|, st.scaledGfx, p)
      ensures HasIx(st.ovls, p)
    {
      var k := if st.scaledGfx then (if p == |st.ovls| then 0 else p)
      else if p == 0 then raw.ovls[0].ix else if p == raw.ovls[0].ix then 0 else p;
      assert st.ovls[k].ix == p;
    }
  }

  // ---- the largest dockable overlay ----

  ghost predicate DockInv(ls: seq<Layer>, st: Alloc) {
    && -1 <= st.ixDocking < |st.ovls|
    && forall k :: 0 <= k < |st.ovls| && st.ovls[k].src.FromLayer? ==>
      && st.ovls[k].src.i < |ls|
      && ls[st.ovls[k].src.i].handle.Some?
      && st.ovls[k].area == ls[st.ovls[k].src.i].Area()
      && (ls[st.ovls[k].src.i].handle.value.dockable ==>
            st.ixDocking >= 0 && st.ovls[k].area <= st.ovls[st.ixDocking].area &&
            (k < st.ixDocking ==> st.ovls[k].area < st.ovls[st.ixDocking].area))
  }

  ghost predicate DockChoice(ls: seq<Layer>, st: Alloc) {
    && DockInv(ls, st)
    && (st.ixDocking >= 0 ==>
          && st.ovls[st.ixDocking].src.FromLayer?
          && ls[st.ovls[st.ixDocking].src.i].handle.value.dockable)
  }

  /** The docked overlay is the first largest dockable one; there is one whenever an overlay is dockable. */
  lemma DockingPicksLargest(f: Frame, ls: seq<Layer>)
    ensures DockChoice(ls, Allocate(f, ls))
  {
    AssignDock(f, ls);
    AssignSources(f, ls);
    AssignKeepsZ(f, ls);
    var raw, st := Assign(f, ls), Allocate(f, ls);
    forall k | 0 <= k < |st.ovls|
      ensures st.ovls[k].src == raw.ovls[k].src
      ensures k >= Sgx(f) ==> st.ovls[k].area == raw.ovls[k].area
    {
    }
  }

  lemma StepDock(f: Frame, ls: seq<Layer>, st: Alloc, l: Layer)
    requires DockChoice(ls, st) && |st.marks| == |ls|
    ensures DockChoice(ls + [l], Step(f, st, l))
  {
    var st' := Step(f, st, l);
    assert forall i :: 0 <= i < |ls| ==> (ls + [l])[i] == ls[i];
    forall k | 0 <= k < |st.ovls|
      ensures st'.ovls[k].src == st.ovls[k].src && st'.ovls[k].area == st.ovls[k].area
    {
    }
  }

  lemma {:induction false} AssignDock(f: Frame, ls: seq<Layer>)
    ensures DockChoice(ls, Assign(f, ls))
  {
    if ls != [] {
      var front, l := ls[..|ls| - 1], ls[|ls| - 1];
      AssignDock(f, front);
      AssignSources(f, front);
      StepDock(f, front, Assign(f, front), l);
      assert front + [l] == ls;
    }
  }
}
