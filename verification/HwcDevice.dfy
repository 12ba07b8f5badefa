/**
 * The composer device.  Its methods change the device in place, step by step, and are proved equal to the
 * per-frame functions, so every run of the device is a run of `HwcRuns.Next`.
 */
module HwcDevice {
  import opened Common
  import opened HwcLayers
  import opened HwcAllocator
  import opened HwcPicture
  import opened HwcCounting
  import opened HwcFrame
  import opened HwcRuns

  /** The caller's layer list; composition types and hints are answers written into it. */
  class LayerList {
    const layers: seq<Layer>
    var overlay: seq<bool>  // composition type is overlay, not framebuffer
    var clearFb: seq<bool>  // the clear-framebuffer hint

    constructor (layers: seq<Layer>)
      ensures this.layers == layers && Sized()
      ensures forall i :: 0 <= i < |layers| ==> !clearFb[i]
    {
      this.layers := layers;
      overlay := seq(|layers|, _ => false);
      clearFb := seq(|layers|, _ => false);
    }

    ghost predicate Sized()
      reads this
    {
      |overlay| == |clearFb| == |layers|
    }

    /** The first |marks| layers carry the marks; hints that were already set stay, and the rest is untouched. */
    ghost predicate Carries(marks: seq<Mark>, oldHints: seq<bool>)
      reads this
    {
      && Sized() && |marks| <= |oldHints| == |layers|
      && (forall i :: 0 <= i < |marks| ==> overlay[i] == marks[i].ByDss?)
      && (forall i :: 0 <= i < |marks| ==> clearFb[i] == (oldHints[i] || marks[i] == ByDss(true)))
      && (forall i :: |marks| <= i < |layers| ==> clearFb[i] == oldHints[i])
    }

    /** A list that carries all marks has the hints the picture relies on, whatever the caller left in it. */
    lemma CarriedHintsCover(marks: seq<Mark>, oldHints: seq<bool>)
      requires Carries(marks, oldHints) && |marks| == |layers|
      ensures Covers(marks, clearFb)
    {
      forall i | 0 <= i < |marks| && marks[i] == ByDss(true)
        ensures clearFb[i]
      {
        assert clearFb[i] == (oldHints[i] || marks[i] == ByDss(true));
      }
    }

    /** Writes the answer for layer i; a hint is only ever added. */
    method Answer(i: nat, byDss: bool, clear: bool, ghost marks: seq<Mark>, ghost oldHints: seq<bool>)
      requires i == |marks| < |layers| && Carries(marks, oldHints)
      requires clear ==> byDss
      modifies this`overlay, this`clearFb
      ensures Carries(marks + [if byDss then ByDss(clear) else BySgx], oldHints)
    {
      overlay := overlay[i := byDss];
      if clear {
        clearFb := clearFb[i := true];
      }
    }
  }

  class Device {
    const rgbOrder: bool
    const nv12Only: bool
    const fbBgr: bool
    const ovls: array<Overlay>
    var numOvls: nat
    var mirror: ExtTransform
    var dock: ExtTransform
    var current: ExtTransform
    var last: ExtTransform
    var forceDock: bool
    var onTv: bool
    var forceSgx: nat
    var ovlsBlending: bool
    var useSgx: bool
    var swapRb: bool
    var post2: nat
    var extOvls: int
    var extOvlsWanted: int
    var lastExtOvls: int
    var lastIntOvls: int
    ghost var prepared: Shown // the composition last prepared
    ghost var shown: Shown    // the composition last posted

    ghost function SettingsNow(): Settings
      reads this
    {
      Settings(mirror, dock, current, last, forceDock, onTv, rgbOrder, nv12Only, fbBgr, forceSgx, lastExtOvls, lastIntOvls)
    }

    ghost function Now(): State
      reads this
    {
      State(SettingsNow(), useSgx, ovlsBlending, extOvls, extOvlsWanted, prepared, shown)
    }

    ghost predicate Valid()
      reads this
    {
      && ovls.Length == MAX_HW_OVERLAYS
      && numOvls <= MAX_HW_OVERLAYS
      && prepared.post2 == post2
      && CountsSafe(Now())
    }

    constructor (rgbOrder: bool, nv12Only: bool, fbBgr: bool)
      ensures Valid() && fresh(ovls) && prepared == shown == NOTHING
    {
      this.rgbOrder, this.nv12Only, this.fbBgr := rgbOrder, nv12Only, fbBgr;
      ovls := new Overlay[MAX_HW_OVERLAYS](_ => Overlay(Framebuffer, 0, 0, 0, 0));
      numOvls, post2, forceSgx := 0, 0, 0;
      mirror, dock, current, last := NO_TRANSFORM, NO_TRANSFORM, NO_TRANSFORM, NO_TRANSFORM;
      forceDock, onTv, ovlsBlending, useSgx, swapRb := false, false, false, false, false;
      extOvls, extOvlsWanted, lastExtOvls, lastIntOvls := 0, 0, 0, 0;
      prepared, shown := NOTHING, NOTHING;
    }

    /** Shares the four pipelines between the displays. */
    method DecideSupportedCloning(dockable: nat) returns (maxHw: int, maxScaling: int)
      requires Reserved(SettingsNow())
      modifies this`extOvls, this`extOvlsWanted, this`current
      ensures var d := Decide(old(SettingsNow()), dockable);
        maxHw == d.maxHw && maxScaling == d.maxScaling && extOvls == d.extOvls && extOvlsWanted == d.wanted && current == d.current
    {
      var nonscaling := NUM_NONSCALING_OVERLAYS;
      maxHw := MAX_HW_OVERLAYS;
      if dock.enabled && !(mirror.enabled && !(dockable != 0 || forceDock)) {
        extOvls := if dockable != 0 || forceDock then 1 else 0;
        maxHw := maxHw - (if extOvls > lastExtOvls then extOvls else lastExtOvls);
        if mirror.enabled {
          current := mirror;
          current := current.(docking := true);
        } else {
          current := dock;
        }
      } else if mirror.enabled {
        maxHw := maxHw / 2;
        nonscaling := nonscaling / 2;
        extOvls := MAX_HW_OVERLAYS - maxHw;
        current := mirror;
      } else {
        maxHw := maxHw - lastExtOvls;
        extOvls := 0;
        current := current.(enabled := false);
      }
      extOvlsWanted := extOvls;
      extOvls := if MAX_HW_OVERLAYS - lastIntOvls < extOvls then MAX_HW_OVERLAYS - lastIntOvls else extOvls;
      if extOvls != 0 && current.enabled && !current.docking {
        maxHw := extOvls;
      }
      maxScaling := maxHw - nonscaling;
    }

    /** Moves the framebuffer to the top by lowering the overlays above it. */
    method RaiseFramebuffer(fbZ: int, z: int) returns (r: int)
      requires ovls.Length == MAX_HW_OVERLAYS && numOvls <= MAX_HW_OVERLAYS
      requires 0 <= fbZ < z == numOvls
      modifies ovls
      ensures r == z - 1
      ensures ovls[..numOvls] == Lowered(old(ovls[..numOvls]), 1 + fbZ)
    {
      r := fbZ;
      while r < z - 1
        invariant fbZ <= r < z
        invariant forall j :: 0 <= j < numOvls && (j <= fbZ || j > r) ==> ovls[j] == old(ovls[j])
        invariant forall j :: fbZ < j <= r ==> ovls[j] == old(ovls[j]).(zorder := old(ovls[j]).zorder - 1)
      {
        ovls[1 + r] := ovls[1 + r].(zorder := ovls[1 + r].zorder - 1);
        r := r + 1;
      }
    }

    /** The concrete loop state is `st`. */
    ghost predicate Represents(st: Alloc, z: int, fbZ: int, memUsed: nat, scaledGfx: bool, ixDocking: int)
      reads this, ovls
    {
      && ovls.Length == MAX_HW_OVERLAYS
      && numOvls == |st.ovls| <= MAX_HW_OVERLAYS
      && ovls[..numOvls] == st.ovls
      && ovlsBlending == st.blending
      && z == st.z && fbZ == st.fbZ && memUsed == st.memUsed && scaledGfx == st.scaledGfx && ixDocking == st.ixDocking
    }

    /** Gives layer `l` the next overlay. */
    method PlaceLayer(ghost f: Frame, ghost st: Alloc, l: Layer, i: nat, z: int, ghost fbZ: int, ghost memUsed: nat,
                      scaledGfx: bool, ixDocking: int)
      returns (scaledGfx': bool, ixDocking': int)
      requires Represents(st, z, fbZ, memUsed, scaledGfx, ixDocking)
      requires Takes(f, st, l) && f.maxHw <= MAX_HW_OVERLAYS && i == |st.marks|
      requires -1 <= ixDocking < numOvls
      modifies this`numOvls, this`ovlsBlending, ovls
      ensures Represents(TakeLayer(st, f, l), z + 1, fbZ, memUsed + Mem1d(l.handle.value), scaledGfx', ixDocking')
      ensures -1 <= ixDocking' < numOvls
    {
      var h := l.handle.value;
      var n := numOvls;
      if l.Blended() && i > 0 {
        ovlsBlending := true;
      }
      ovls[n] := Overlay(FromLayer(i), z, n, 0, l.Area());
      scaledGfx' := scaledGfx;
      if n == 0 {
        scaledGfx' := l.Scaled() || IsNv12(h.format);
      } else if scaledGfx && !l.Scaled() && !IsNv12(h.format) {
        ovls[n] := ovls[n].(ix := 0);
        ovls[0] := ovls[0].(ix := n);
        scaledGfx' := false;
      }
      ixDocking' := ixDocking;
      if h.dockable && (ixDocking < 0 || ovls[n].area > ovls[ixDocking].area) {
        ixDocking' := n;
      }
      numOvls := n + 1;
    }

    /** A layer left to SGX: the framebuffer gets its z-order, or moves above the overlays placed since. */
    method LeaveToSgx(f: Frame, ghost st: Alloc, z: int, fbZ: int, ghost memUsed: nat, ghost scaledGfx: bool,
                      ghost ixDocking: int)
      returns (z': int, fbZ': int)
      requires Represents(st, z, fbZ, memUsed, scaledGfx, ixDocking) && ZInv(f, st)
      modifies ovls
      ensures Represents(LeaveLayer(st, f), z', fbZ', memUsed, scaledGfx, ixDocking)
    {
      z', fbZ' := z, fbZ;
      if f.useSgx {
        if fbZ < 0 {
          fbZ' := z;
          z' := z + 1;
        } else {
          fbZ' := RaiseFramebuffer(fbZ, z);
          LoweringNothing(st);
        }
      }
    }

    /** The test that decides whether a layer gets an overlay. */
    method Accepts(f: Frame, ghost st: Alloc, l: Layer, ghost z: int, fbZ: int, memUsed: nat, ghost scaledGfx: bool,
                   ghost ixDocking: int)
      returns (takes: bool)
      requires Represents(st, z, fbZ, memUsed, scaledGfx, ixDocking)
      ensures takes == Takes(f, st, l)
    {
      return numOvls < f.maxHw && CanRenderLayer(f, l) &&
        (!f.forceSgx || l.handle.value.isProtected || (f.docking && l.handle.value.dockable)) &&
        memUsed + Mem1d(l.handle.value) < MAX_TILER_SLOT && !(l.Blended() && fbZ >= 0);
    }

    /** One turn of the allocation loop. */
    method VisitLayer(f: Frame, list: LayerList, i: nat, ghost hints: seq<bool>, ghost st: Alloc, z: int, fbZ: int,
                      memUsed: nat, scaledGfx: bool, ixDocking: int)
      returns (z': int, fbZ': int, memUsed': nat, scaledGfx': bool, ixDocking': int)
      requires Represents(st, z, fbZ, memUsed, scaledGfx, ixDocking) && ZInv(f, st)
      requires f.maxHw <= MAX_HW_OVERLAYS && i < |list.layers| && |st.marks| == i
      requires -1 <= ixDocking < numOvls && list.Carries(st.marks, hints)
      modifies this`numOvls, this`ovlsBlending, ovls, list`overlay, list`clearFb
      ensures Represents(Step(f, st, list.layers[i]), z', fbZ', memUsed', scaledGfx', ixDocking')
      ensures -1 <= ixDocking' < numOvls
      ensures list.Carries(Step(f, st, list.layers[i]).marks, hints)
    {
      var l := list.layers[i];
      StepMarks(f, st, l);
      z', fbZ', memUsed', scaledGfx', ixDocking' := z, fbZ, memUsed, scaledGfx, ixDocking;
      var takes := Accepts(f, st, l, z, fbZ, memUsed, scaledGfx, ixDocking);
      if takes {
        list.Answer(i, true, f.useSgx && !l.Blended(), st.marks, hints);
        scaledGfx', ixDocking' := PlaceLayer(f, st, l, i, z, fbZ, memUsed, scaledGfx, ixDocking);
        memUsed' := memUsed + Mem1d(l.handle.value);
        z' := z + 1;
      } else {
        list.Answer(i, false, false, st.marks, hints);
        z', fbZ' := LeaveToSgx(f, st, z, fbZ, memUsed, scaledGfx, ixDocking);
      }
    }

    lemma LoweringNothing(st: Alloc)
      requires 0 <= st.fbZ < st.z == |st.ovls|
      ensures st.fbZ == st.z - 1 ==> Lowered(st.ovls, 1 + st.fbZ) == st.ovls
    {
    }

    /** Overlay 0 is kept for the framebuffer when SGX is used. */
    method StartOverlays(f: Frame)
      requires ovls.Length == MAX_HW_OVERLAYS
      modifies this`numOvls, this`ovlsBlending, ovls
      ensures Represents(Start(f), 0, -1, 0, false, -1)
    {
      numOvls := 0;
      if f.useSgx {
        ovls[0] := Overlay(Framebuffer, 0, 0, 0, 0);
        numOvls := 1;
      }
      ovlsBlending := false;
    }

    /** The allocation loop and the framebuffer's own overlay. */
    method AllocateOverlays(f: Frame, list: LayerList) returns (z: int, fbZ: int, scaledGfx: bool, ixDocking: int)
      requires ovls.Length == MAX_HW_OVERLAYS && 1 <= f.maxHw <= MAX_HW_OVERLAYS && list.Sized()
      modifies this`numOvls, this`ovlsBlending, ovls, list`overlay, list`clearFb
      ensures var st := Allocate(f, list.layers);
        && Represents(st, z, fbZ, st.memUsed, scaledGfx, ixDocking)
        && |st.marks| == |list.layers|
        && list.Carries(st.marks, old(list.clearFb))
    {
      var ls := list.layers;
      StartOverlays(f);
      z, fbZ, scaledGfx, ixDocking := 0, -1, false, -1;
      var memUsed: nat := 0;
      ghost var st := Start(f);
      for i := 0 to |ls|
        invariant st == Assign(f, ls[..i]) && |st.marks| == i
        invariant Represents(st, z, fbZ, memUsed, scaledGfx, ixDocking)
        invariant -1 <= ixDocking < numOvls
        invariant list.Carries(st.marks, old(list.clearFb))
      {
        assert ls[..i + 1][..i] == ls[..i];
        AssignKeepsZ(f, ls[..i]);
        z, fbZ, memUsed, scaledGfx, ixDocking := VisitLayer(f, list, i, old(list.clearFb), st, z, fbZ, memUsed, scaledGfx, ixDocking);
        StepMarks(f, st, ls[i]);
        st := Step(f, st, ls[i]);
      }
      assert ls[..|ls|] == ls;
      AssignKeepsZ(f, ls);
      z, fbZ := FinishOverlays(f, st, z, fbZ, memUsed, scaledGfx, ixDocking);
    }

    method FinishOverlays(f: Frame, ghost st: Alloc, z: int, fbZ: int, ghost memUsed: nat, scaledGfx: bool, ghost ixDocking: int)
      returns (z': int, fbZ': int)
      requires Represents(st, z, fbZ, memUsed, scaledGfx, ixDocking) && ZInv(f, st)
      modifies ovls
      ensures Represents(Finish(f, st), z', fbZ', memUsed, scaledGfx, ixDocking)
    {
      z', fbZ' := z, fbZ;
      if scaledGfx && numOvls > 0 {
        ovls[0] := ovls[0].(ix := numOvls);
      }
      if f.useSgx {
        if fbZ < 0 {
          fbZ' := z;
          z' := z + 1;
        }
        ovls[0] := Overlay(Framebuffer, fbZ', 0, 0, 0);
      }
    }

    /** Copies overlay ix to the next free one for the external display; refuses when all four are used. */
    method CloneLayer(ix: nat, src: Source) returns (ok: bool)
      requires ovls.Length == MAX_HW_OVERLAYS && post2 <= numOvls <= MAX_HW_OVERLAYS
      requires numOvls < MAX_HW_OVERLAYS ==> ix <= numOvls
      modifies this`numOvls, ovls
      ensures ok <==> old(numOvls) < MAX_HW_OVERLAYS
      ensures !ok ==> numOvls == old(numOvls) && ovls[..] == old(ovls[..])
      ensures ok ==> numOvls == old(numOvls) + 1 && ovls[..old(numOvls)] == old(ovls[..numOvls])
      ensures ok ==> ovls[old(numOvls)] == Overlay(src, old(ovls[ix].zorder) + post2,
                                                   MAX_HW_OVERLAYS - 1 - (old(numOvls) - post2), 1, old(ovls[ix].area))
    {
      if numOvls >= MAX_HW_OVERLAYS {
        return false;
      }
      var extIx := numOvls - post2;
      var o := ovls[ix];
      ovls[numOvls] := Overlay(src, o.zorder + post2, MAX_HW_OVERLAYS - 1 - extIx, 1, o.area);
      numOvls := numOvls + 1;
      return true;
    }

    /** Copies every internal overlay; the guard in CloneLayer never fires. */
    method MirrorAll(ghost st: Alloc)
      requires ovls.Length == MAX_HW_OVERLAYS && numOvls == post2 == |st.ovls| && 2 * post2 <= MAX_HW_OVERLAYS
      requires ovls[..numOvls] == st.ovls
      modifies this`numOvls, ovls
      ensures numOvls == 2 * post2
      ensures ovls[..numOvls] == st.ovls + seq(|st.ovls|, k requires 0 <= k < |st.ovls| => MirrorOf(st, k))
    {
      var ix := 0;
      while ix < post2
        invariant 0 <= ix <= post2 && numOvls == post2 + ix
        invariant ovls[..post2] == st.ovls
        invariant forall k :: 0 <= k < ix ==> ovls[post2 + k] == MirrorOf(st, k)
      {
        assert ovls[ix] == ovls[..post2][ix] == st.ovls[ix];
        ghost var before := ovls[..numOvls];
        var ok := CloneLayer(ix, CloneOf(ix));
        assert ok;
        assert ovls[..numOvls - 1] == before;
        forall k | 0 <= k < numOvls - 1
          ensures ovls[k] == before[k]
        {
          assert ovls[..numOvls - 1][k] == before[k];
        }
        ix := ix + 1;
      }
      assert ovls[..numOvls] == st.ovls + seq(|st.ovls|, k requires 0 <= k < |st.ovls| => MirrorOf(st, k));
    }

    /** Docking shows one overlay, or the dock image, on the external display. */
    method Dock(ghost s: Settings, ghost d: Decision, ghost st: Alloc, z: int, ixDocking: int, hdmi: Hdmi)
      requires ovls.Length == MAX_HW_OVERLAYS && numOvls == post2 == |st.ovls| < MAX_HW_OVERLAYS
      requires ovls[..numOvls] == st.ovls
      requires z == st.z && ixDocking == st.ixDocking && -1 <= ixDocking < post2
      requires current == d.current && forceDock == s.forceDock && onTv == s.onTv
      requires d.current.enabled && d.extOvls != 0 && d.current.docking
      modifies this`numOvls, this`current, this`onTv, ovls
      ensures numOvls <= MAX_HW_OVERLAYS
      ensures ovls[..numOvls] == st.ovls + Clones(s, d, st, hdmi)
      ensures current == if CloneFailed(s, d, st, hdmi) then d.current.(enabled := false) else d.current
      ensures onTv == (s.onTv || (hdmi.ready && hdmi.tv && (0 <= ixDocking || s.forceDock)))
    {
      if ixDocking >= 0 {
        if !hdmi.ready {
          current := current.(enabled := false);
        } else {
          onTv := onTv || hdmi.tv;
          var ok := CloneLayer(ixDocking, CloneOf(ixDocking));
          ovls[numOvls - 1] := ovls[numOvls - 1].(zorder := z);
        }
      } else if forceDock {
        ovls[numOvls] := Overlay(DockImage, 0, 0, 0, 0);
        if !hdmi.ready {
          current := current.(enabled := false);
        } else {
          onTv := onTv || hdmi.tv;
          var ok := CloneLayer(numOvls, DockImage);
        }
      }
    }

    /** The external display's part of a frame. */
    method CloneOverlays(ghost s: Settings, ghost d: Decision, ghost st: Alloc, z: int, ixDocking: int, hdmi: Hdmi)
      requires ovls.Length == MAX_HW_OVERLAYS && numOvls == post2 == |st.ovls| <= MAX_HW_OVERLAYS
      requires ovls[..numOvls] == st.ovls
      requires z == st.z && ixDocking == st.ixDocking && RoomToClone(d, st)
      requires current == d.current && extOvls == d.extOvls && forceDock == s.forceDock && last == s.last && onTv == s.onTv
      modifies this`numOvls, this`current, this`onTv, ovls
      ensures numOvls == |st.ovls + Clones(s, d, st, hdmi)| <= MAX_HW_OVERLAYS
      ensures ovls[..numOvls] == st.ovls + Clones(s, d, st, hdmi)
      ensures current == if CloneFailed(s, d, st, hdmi) then d.current.(enabled := false) else d.current
      ensures onTv == (s.onTv ||
                       (d.current.enabled && d.extOvls != 0 && hdmi.ready && hdmi.tv &&
                        if d.current.docking then 0 <= ixDocking || s.forceDock else s.last.docking))
    {
      if current.enabled && extOvls != 0 {
        if current.docking {
          Dock(s, d, st, z, ixDocking, hdmi);
        } else {
          var res := true;
          if last.docking {
            res := hdmi.ready;
            onTv := onTv || (hdmi.ready && hdmi.tv);
          }
          if res {
            MirrorAll(st);
          }
        }
      }
      ghost var all := ovls[..numOvls];
      assert |all| == numOvls;
    }

    /** The limits under which cloning fits the overlay array. */
    ghost predicate RoomToClone(d: Decision, st: Alloc) {
      && |st.ovls| <= MAX_HW_OVERLAYS && -1 <= st.ixDocking < |st.ovls|
      && (d.current.docking && d.extOvls != 0 ==> |st.ovls| < MAX_HW_OVERLAYS)
      && (d.current.enabled && d.extOvls != 0 && !d.current.docking ==> 2 * |st.ovls| <= MAX_HW_OVERLAYS)
    }

    /** Counts the layers, shares the pipelines and decides between SGX and overlays only. */
    method PlanFrame(ls: seq<Layer>, ghost s: Settings) returns (f: Frame, ghost d: Decision)
      requires s == SettingsNow() && Reserved(s)
      modifies this`extOvls, this`extOvlsWanted, this`current, this`forceSgx, this`useSgx, this`swapRb
      ensures d == Decide(s, Stats(ls).dockable) && 1 <= d.maxHw <= MAX_HW_OVERLAYS
      ensures f == ChooseFrame(s, d, Stats(ls), |ls|)
      ensures current == d.current && forceSgx == ForceSgx(s, |ls|) && extOvls == d.extOvls && extOvlsWanted == d.wanted
      ensures useSgx == f.useSgx && swapRb == f.swapRb
    {
      var num := GatherLayerStatistics(ls);
      ReservationSafe(s, num.dockable);
      d := Decide(s, num.dockable);
      var maxHw, maxScaling := DecideSupportedCloning(num.dockable);
      if forceSgx > 0 && |ls| <= 1 {
        forceSgx := 0;
      }
      f := ComposeWith(s, d, maxHw, maxScaling, num, |ls|);
      useSgx, swapRb := f.useSgx, f.swapRb;
    }

    /** SGX composes the frame unless the DSS can show every layer. */
    method ComposeWith(ghost s: Settings, ghost d: Decision, maxHw: int, maxScaling: int, num: Counts, composited: nat)
      returns (f: Frame)
      requires 0 <= maxHw == d.maxHw && maxScaling == d.maxScaling && current == d.current
      requires forceSgx == ForceSgx(s, composited) && onTv == s.onTv
      requires rgbOrder == s.rgbOrder && nv12Only == s.nv12Only && fbBgr == s.fbBgr
      ensures f == ChooseFrame(s, d, num, composited)
    {
      var tv := onTv && current.enabled;
      var tform := current.enabled && (current.rotation != 0 || current.hflip);
      var all := forceSgx == 0 && num.possible != 0 && num.possible <= maxHw && num.possible == composited &&
                 num.scaled <= maxScaling && num.nv12 <= maxScaling && num.mem <= MAX_TILER_SLOT &&
                 (!tform || num.nv12 == num.possible) &&
                 (num.bgr == 0 || (num.rgb == 0 && !tv) || !rgbOrder);
      f := Frame(maxHw, !all, if all then num.bgr != 0 else fbBgr, rgbOrder, nv12Only, forceSgx != 0, tform, tv,
                 current.docking && current.enabled);
    }

    lemma PlanLeavesRoom(s: Settings, d: Decision, f: Frame, ls: seq<Layer>)
      requires Reserved(s) && d == Decide(s, Stats(ls).dockable) && d.maxHw >= 0
      requires f == ChooseFrame(s, d, Stats(ls), |ls|)
      ensures RoomToClone(d, Allocate(f, ls))
    {
      ReservationSafe(s, Stats(ls).dockable);
      AllocateZ(f, ls);
      AllocatePipes(f, ls);
    }

    /** Clones for the external display and keeps the books for set. */
    method CloneAndAccount(ghost s: Settings, ghost p: Plan, z: int, scaledGfx: bool, ixDocking: int, hdmi: Hdmi)
      requires p == MakePlan(s, p.decision, p.frame, p.internal, hdmi)
      requires ovls.Length == MAX_HW_OVERLAYS && numOvls == |p.internal.ovls| <= MAX_HW_OVERLAYS
      requires ovls[..numOvls] == p.internal.ovls && RoomToClone(p.decision, p.internal)
      requires z == p.internal.z && ixDocking == p.internal.ixDocking && scaledGfx == p.internal.scaledGfx
      requires current == p.decision.current && extOvls == p.decision.extOvls && lastExtOvls == s.lastExt
      requires forceDock == s.forceDock && last == s.last && onTv == s.onTv
      modifies this`numOvls, this`post2, this`current, this`onTv, this`last, this`extOvls, this`prepared, ovls
      ensures numOvls == |p.Overlays()| <= MAX_HW_OVERLAYS && ovls[..numOvls] == p.Overlays()
      ensures prepared == Shown(p.Post2(), p.internal.scaledGfx, |p.clones|) && post2 == prepared.post2
      ensures current == last == p.current && extOvls == p.extOvls
      ensures onTv == (s.onTv || (HdmiUsed(s, p) && hdmi.ready && hdmi.tv))
    {
      post2 := numOvls;
      CloneOverlays(s, p.decision, p.internal, z, ixDocking, hdmi);
      last := current;
      if current.enabled || lastExtOvls != 0 {
        extOvls := numOvls - post2;
      }
      prepared := Shown(post2, scaledGfx, numOvls - post2);
    }

    /** The external display's half of a frame, which completes the plan. */
    method CompletePlan(ghost was: State, ghost layers: nat, ghost p: Plan, z: int, scaledGfx: bool, ixDocking: int, hdmi: Hdmi)
      requires p == MakePlan(was.s, p.decision, p.frame, p.internal, hdmi)
      requires ovls.Length == MAX_HW_OVERLAYS && numOvls == |p.internal.ovls| <= MAX_HW_OVERLAYS
      requires ovls[..numOvls] == p.internal.ovls && RoomToClone(p.decision, p.internal)
      requires z == p.internal.z && ixDocking == p.internal.ixDocking && scaledGfx == p.internal.scaledGfx
      requires SettingsNow() == was.s.(current := p.decision.current, forceSgx := ForceSgx(was.s, layers))
      requires extOvls == p.decision.extOvls && extOvlsWanted == p.decision.wanted
      requires useSgx == p.frame.useSgx && ovlsBlending == p.internal.blending && shown == was.shown
      modifies this`numOvls, this`post2, this`current, this`onTv, this`last, this`extOvls, this`prepared, ovls
      ensures numOvls == |p.Overlays()| <= MAX_HW_OVERLAYS && ovls[..numOvls] == p.Overlays()
      ensures post2 == prepared.post2 && Now() == AfterPlan(was, layers, p, hdmi)
    {
      CloneAndAccount(was.s, p, z, scaledGfx, ixDocking, hdmi);
    }

    /** The internal display's half of a frame. */
    method PlanAndAllocate(list: LayerList, ghost s: Settings, ghost hdmi: Hdmi)
      returns (z: int, scaledGfx: bool, ixDocking: int, ghost p: Plan)
      requires ovls.Length == MAX_HW_OVERLAYS && list.Sized() && s == SettingsNow() && Reserved(s)
      modifies this`extOvls, this`extOvlsWanted, this`current, this`forceSgx, this`useSgx, this`swapRb,
               this`numOvls, this`ovlsBlending, ovls, list`overlay, list`clearFb
      ensures Decide(s, Stats(list.layers).dockable).maxHw >= 0 && p == HwcFrame.Prepare(s, list.layers, hdmi)
      ensures numOvls == |p.internal.ovls| <= MAX_HW_OVERLAYS && ovls[..numOvls] == p.internal.ovls
      ensures z == p.internal.z && scaledGfx == p.internal.scaledGfx && ixDocking == p.internal.ixDocking
      ensures current == p.decision.current && extOvls == p.decision.extOvls && extOvlsWanted == p.decision.wanted
      ensures forceSgx == ForceSgx(s, |list.layers|) && useSgx == p.frame.useSgx && swapRb == p.frame.swapRb
      ensures ovlsBlending == p.internal.blending
      ensures list.Carries(p.internal.marks, old(list.clearFb))
    {
      var f, d := PlanFrame(list.layers, s);
      var fbZ;
      z, fbZ, scaledGfx, ixDocking := AllocateOverlays(f, list);
      p := MakePlan(s, d, f, Allocate(f, list.layers), hdmi);
    }

    /** Both halves of a frame, when cloning finds room. */
    method PlanAndComplete(list: LayerList, hdmi: Hdmi, ghost was: State) returns (ghost p: Plan)
      requires ovls.Length == MAX_HW_OVERLAYS && list.Sized() && was == Now() && Reserved(was.s)
      modifies this, ovls, list
      ensures Decide(was.s, Stats(list.layers).dockable).maxHw >= 0 && p == HwcFrame.Prepare(was.s, list.layers, hdmi)
      ensures numOvls == |p.Overlays()| <= MAX_HW_OVERLAYS && ovls[..numOvls] == p.Overlays()
      ensures post2 == prepared.post2 && Now() == AfterPlan(was, |list.layers|, p, hdmi)
      ensures swapRb == p.frame.swapRb && list.Carries(p.internal.marks, old(list.clearFb))
    {
      var z, scaledGfx, ixDocking;
      z, scaledGfx, ixDocking, p := PlanAndAllocate(list, was.s, hdmi);
      PlanLeavesRoom(was.s, p.decision, p.frame, list.layers);
      CompletePlan(was, |list.layers|, p, z, scaledGfx, ixDocking, hdmi);
    }

    /**
     * Prepares a frame.  The new state is the frame function's, the list carries its answers, the overlay
     * array holds both displays' overlays, and the reservation stays sound.
     */
    method Prepare(list: LayerList, hdmi: Hdmi)
      requires Valid() && list.Sized()
      modifies this, ovls, list
      ensures Valid()
      ensures Now() == AfterPrepare(old(Now()), list.layers, hdmi)
      ensures Decide(old(SettingsNow()), Stats(list.layers).dockable).maxHw >= 0
      ensures var p := HwcFrame.Prepare(old(SettingsNow()), list.layers, hdmi);
        && ovls[..numOvls] == p.Overlays()
        && swapRb == p.frame.swapRb
        && list.Carries(p.internal.marks, old(list.clearFb))
    {
      ghost var was := Now();
      PrepareKeepsCounts(was, list.layers, hdmi);
      ghost var p := PlanAndComplete(list, hdmi, was);
    }

    /**
     * Posts the prepared frame; the counters move on even when the post is refused.  `again` asks for another frame
     * because external overlays were still missing.
     */
    method Set(screenOn: bool, swapOk: bool, postOk: bool) returns (ok: bool, again: bool)
      requires Valid()
      modifies this
      ensures Valid()
      ensures Now() == AfterSet(old(Now()), screenOn, swapOk, postOk)
      ensures again == Invalidates(old(Now()))
      ensures ok == !(screenOn && ((useSgx && !swapOk) || !postOk))
    {
      ghost var st0 := Now();
      SetKeepsCounts(st0, screenOn, swapOk, postOk);
      again := extOvlsWanted != 0 && extOvls == 0;
      if screenOn {
        if useSgx && !swapOk {
          return false, again;
        }
        if forceSgx > 0 {
          forceSgx := forceSgx - 1;
        }
        if postOk {
          shown := prepared;
        }
      } else {
        shown := NOTHING;
      }
      lastExtOvls := extOvls;
      lastIntOvls := post2;
      ok := !screenOn || postOk;
    }

    /** Re-reads the docking and mirroring settings for the external display. */
    method ReadSettings(connected: bool, nowForceDock: bool, props: Properties, hdmi: Hdmi)
      modifies this`dock, this`mirror, this`current, this`forceDock, this`onTv
      ensures SettingsNow() == AfterHotplug(old(SettingsNow()), connected, nowForceDock, props, hdmi)
    {
      forceDock := nowForceDock;
      dock := dock.(enabled := false);
      mirror := mirror.(enabled := false);
      if connected {
        dock := ExtTransform(props.dockRotation % 4, props.dockFlip, props.docking, true);
        mirror := ExtTransform(props.mirrorRotation % 4, props.mirrorFlip, props.mirroring, false);
        if forceDock {
          mirror := mirror.(enabled := false);
          dock := dock.(rotation := 0, hflip := false);
        }
        if mirror.enabled {
          current := mirror;
          if hdmi.ready {
            onTv := onTv || hdmi.tv;
          } else {
            mirror := mirror.(enabled := false);
          }
        }
      }
    }

    /** External display plugged, unplugged or docked. */
    method HandleHotplug(connected: bool, nowForceDock: bool, props: Properties, hdmi: Hdmi)
      requires Valid()
      modifies this`dock, this`mirror, this`current, this`forceDock, this`onTv
      ensures Valid()
      ensures Now() == old(Now()).(s := AfterHotplug(old(SettingsNow()), connected, nowForceDock, props, hdmi))
    {
      HotplugKeepsCounts(Now(), connected, nowForceDock, props, hdmi);
      ReadSettings(connected, nowForceDock, props, hdmi);
    }

    /** No frame for a while: compose blended overlays with SGX for two frames. */
    method IdleTimeout() returns (invalidate: bool)
      requires Valid()
      modifies this`forceSgx
      ensures Valid()
      ensures Now() == AfterIdle(old(Now()))
      ensures invalidate <==> old(forceSgx) == 0 && ovlsBlending
    {
      invalidate := forceSgx == 0 && ovlsBlending;
      if invalidate {
        forceSgx := 2;
      }
    }
  }
}
