/** What the external display shows: clones are on its manager, above the internal overlays in z-order. */
module HwcExternal {
  import opened Common
  import opened HwcLayers
  import opened HwcAllocator
  import opened HwcPicture
  import opened HwcFrame

  /** The overlay whose buffer this one shows. */
  function Resolve(ovls: seq<Overlay>, o: Overlay): Overlay {
    if o.src.CloneOf? && o.src.ovl < |ovls| then ovls[o.src.ovl] else o
  }

  /** One display: the overlays on its manager with z-order below `z`, stacked by z-order. */
  ghost function DisplayStack<P(!new)>(c: Compositor<P>, ovls: seq<Overlay>, mgr: int, fb: P, shot: Shot<P>, z: nat): P
    requires ZPermutation(ovls) && z <= |ovls|
  {
    if z == 0 then c.clear
    else
      assert HasZ(ovls, z - 1);
      var o := ovls[ZIndex(ovls, z - 1)];
      var below := DisplayStack(c, ovls, mgr, fb, shot, z - 1);
      if o.mgr == mgr then c.Over(ShownBy(c, Resolve(ovls, o), fb, shot), below) else below
  }

  /** Internal overlays, numbered from the bottom of the z-order, are on manager 0 and show layers or the framebuffer. */
  ghost predicate Inner(ovls: seq<Overlay>) {
    && ZPermutation(ovls)
    && (forall k :: 0 <= k < |ovls| ==> ovls[k].mgr == 0 && (ovls[k].src.FromLayer? || ovls[k].src.Framebuffer?))
  }

  lemma {:induction false} AssignOnManager0(f: Frame, ls: seq<Layer>)
    ensures forall k :: 0 <= k < |Assign(f, ls).ovls| ==> Assign(f, ls).ovls[k].mgr == 0
  {
    if ls != [] {
      AssignOnManager0(f, ls[..|ls| - 1]);
      AssignKeepsZ(f, ls[..|ls| - 1]);
    }
  }

  lemma AllocateIsInner(f: Frame, ls: seq<Layer>)
    ensures Inner(Allocate(f, ls).ovls)
  {
    var raw, st := Assign(f, ls), Allocate(f, ls);
    AllocateZ(f, ls);
    AssignOnManager0(f, ls);
    AssignSources(f, ls);
    forall k | 0 <= k < |st.ovls|
      ensures st.ovls[k].mgr == 0 && (st.ovls[k].src.FromLayer? || st.ovls[k].src.Framebuffer?)
    {
      assert k >= Sgx(f) ==> st.ovls[k].src == raw.ovls[k].src && st.ovls[k].mgr == raw.ovls[k].mgr;
    }
  }

  /** Overlays after the internal ones belong to the external display and lie above them. */
  ghost predicate Outer(inner: seq<Overlay>, clones: seq<Overlay>) {
    && ZPermutation(inner + clones)
    && forall k :: 0 <= k < |clones| ==> clones[k].mgr == 1 && clones[k].zorder >= |inner|
  }

  /** Below the internal height both displays meet the same overlay. */
  lemma BelowIsInner(inner: seq<Overlay>, clones: seq<Overlay>, z: nat)
    requires Inner(inner) && Outer(inner, clones) && z < |inner|
    ensures HasZ(inner, z) && HasZ(inner + clones, z)
    ensures var o := (inner + clones)[ZIndex(inner + clones, z)];
      o == inner[ZIndex(inner, z)] && o.mgr == 0 && !o.src.CloneOf?
  {
    var all := inner + clones;
    assert HasZ(inner, z);
    var j := ZIndex(inner, z);
    assert all[j] == inner[j];
    ZIndexIs(all, j);
  }

  /** Above it lie the clones. */
  lemma AboveIsClone(inner: seq<Overlay>, clones: seq<Overlay>, z: nat)
    requires Inner(inner) && Outer(inner, clones) && |inner| <= z < |inner + clones|
    ensures HasZ(inner + clones, z)
    ensures var k := ZIndex(inner + clones, z);
      k >= |inner| && (inner + clones)[k] == clones[k - |inner|] && clones[k - |inner|].mgr == 1
  {
    var all := inner + clones;
    assert HasZ(all, z);
    var k := ZIndex(all, z);
    assert forall i :: 0 <= i < |inner| ==> all[i] == inner[i];
  }

  /** Clones that copy every internal overlay, each above the internal ones by the internal height. */
  ghost predicate Mirrors(inner: seq<Overlay>, clones: seq<Overlay>) {
    && |clones| == |inner| && Outer(inner, clones)
    && forall k :: 0 <= k < |clones| ==> clones[k].src == CloneOf(k) && clones[k].zorder == inner[k].zorder + |inner|
  }

  /** At the same height above the internal overlays lies the copy of an overlay. */
  ghost predicate CopiedAt(inner: seq<Overlay>, all: seq<Overlay>, z: nat) {
    && HasZ(inner, z) && HasZ(all, |inner| + z)
    && var o := all[ZIndex(all, |inner| + z)];
       o.mgr == 1 && Resolve(all, o) == inner[ZIndex(inner, z)]
  }

  lemma CopyAt(inner: seq<Overlay>, clones: seq<Overlay>, z: nat)
    requires Inner(inner) && Mirrors(inner, clones) && z < |inner|
    ensures CopiedAt(inner, inner + clones, z)
  {
    var all := inner + clones;
    assert HasZ(inner, z);
    var j := ZIndex(inner, z);
    assert all[|inner| + j] == clones[j] && all[j] == inner[j];
    ZIndexIs(all, |inner| + j);
  }

  /** Sending overlays to the external display changes nothing on the internal one. */
  lemma {:induction false} InternalDisplayKeeps<P(!new)>(c: Compositor<P>, inner: seq<Overlay>, clones: seq<Overlay>, fb: P,
                                                         shot: Shot<P>, z: nat)
    requires Inner(inner) && Outer(inner, clones) && z <= |inner + clones|
    ensures DisplayStack(c, inner + clones, 0, fb, shot, z)
         == DssStack(c, inner, fb, shot, if z <= |inner| then z else |inner|)
  {
    if z > 0 {
      InternalDisplayKeeps(c, inner, clones, fb, shot, z - 1);
      if z <= |inner| {
        BelowIsInner(inner, clones, z - 1);
      } else {
        AboveIsClone(inner, clones, z - 1);
      }
    }
  }

  /** The external display shows the same overlays in the same order as the internal one, up to any height. */
  lemma {:induction false} MirroredDisplay<P(!new)>(c: Compositor<P>, inner: seq<Overlay>, all: seq<Overlay>, fb: P,
                                                    shot: Shot<P>, z: nat, h: nat)
    requires ZPermutation(inner) && ZPermutation(all) && z <= |inner| && h == |inner| + z <= |all|
    requires forall y: nat :: y < |inner| ==> CopiedAt(inner, all, y)
    requires DisplayStack(c, all, 1, fb, shot, |inner|) == c.clear
    ensures DisplayStack(c, all, 1, fb, shot, h) == DssStack(c, inner, fb, shot, z)
  {
    if z > 0 {
      MirroredDisplay(c, inner, all, fb, shot, z - 1, h - 1);
      assert CopiedAt(inner, all, z - 1);
    }
  }

  /** Below the internal height there is nothing on the external manager. */
  lemma {:induction false} NothingBelow<P(!new)>(c: Compositor<P>, inner: seq<Overlay>, clones: seq<Overlay>, fb: P,
                                                 shot: Shot<P>, z: nat)
    requires Inner(inner) && Outer(inner, clones) && z <= |inner|
    ensures DisplayStack(c, inner + clones, 1, fb, shot, z) == c.clear
  {
    if z > 0 {
      NothingBelow(c, inner, clones, fb, shot, z - 1);
      BelowIsInner(inner, clones, z - 1);
    }
  }

  // ---- a prepared frame ----

  /** The clones a frame may have: none, one docked image, or a copy of every internal overlay. */
  ghost predicate External(inner: seq<Overlay>, clones: seq<Overlay>, docked: bool) {
    clones == [] || (if docked then |clones| == 1 && Outer(inner, clones) else Mirrors(inner, clones))
  }

  lemma ClonesAreExternal(s: Settings, d: Decision, st: Alloc, hdmi: Hdmi)
    requires ZPermutation(st.ovls) && st.z == |st.ovls|
    ensures External(st.ovls, Clones(s, d, st, hdmi), d.current.docking)
  {
    ClonesZ(s, d, st, hdmi);
  }

  /**
   * The internal display shows the internal overlays alone.  A mirrored external display shows exactly what the
   * internal one does; a docked one shows the docked overlay, or the dock image, and nothing else.
   */
  ghost predicate Displays<P(!new)>(c: Compositor<P>, inner: seq<Overlay>, clones: seq<Overlay>, docked: bool, fb: P, shot: Shot<P>)
  {
    var all := inner + clones;
    && ZPermutation(inner) && ZPermutation(all)
    && DisplayStack(c, all, 0, fb, shot, |all|) == DssStack(c, inner, fb, shot, |inner|)
    && DisplayStack(c, all, 1, fb, shot, |all|) ==
       if clones == [] then c.clear
       else if docked then ShownBy(c, Resolve(all, clones[0]), fb, shot)
       else DssStack(c, inner, fb, shot, |inner|)
  }

  lemma NoClones<P(!new)>(c: Compositor<P>, inner: seq<Overlay>, docked: bool, fb: P, shot: Shot<P>)
    requires Inner(inner)
    ensures Displays(c, inner, [], docked, fb, shot)
  {
    assert inner + [] == inner;
    InternalDisplayKeeps(c, inner, [], fb, shot, |inner|);
    NothingBelow(c, inner, [], fb, shot, |inner|);
  }

  lemma Docked<P(!new)>(c: Compositor<P>, inner: seq<Overlay>, clones: seq<Overlay>, fb: P, shot: Shot<P>)
    requires c.Lawful() && Inner(inner) && Outer(inner, clones) && |clones| == 1
    ensures Displays(c, inner, clones, true, fb, shot)
  {
    var all := inner + clones;
    InternalDisplayKeeps(c, inner, clones, fb, shot, |inner| + 1);
    NothingBelow(c, inner, clones, fb, shot, |inner|);
    AboveIsClone(inner, clones, |inner|);
    Unital(c, ShownBy(c, Resolve(all, clones[0]), fb, shot));
  }

  lemma CopiesEverywhere(inner: seq<Overlay>, clones: seq<Overlay>)
    requires Inner(inner) && Mirrors(inner, clones)
    ensures forall y: nat :: y < |inner| ==> CopiedAt(inner, inner + clones, y)
  {
    forall y: nat | y < |inner|
      ensures CopiedAt(inner, inner + clones, y)
    {
      CopyAt(inner, clones, y);
    }
  }

  lemma MirroredTop<P(!new)>(c: Compositor<P>, inner: seq<Overlay>, clones: seq<Overlay>, fb: P, shot: Shot<P>)
    requires Inner(inner) && Mirrors(inner, clones)
    ensures DisplayStack(c, inner + clones, 1, fb, shot, |inner + clones|) == DssStack(c, inner, fb, shot, |inner|)
  {
    NothingBelow(c, inner, clones, fb, shot, |inner|);
    CopiesEverywhere(inner, clones);
    MirroredDisplay(c, inner, inner + clones, fb, shot, |inner|, |inner + clones|);
  }

  lemma Mirrored<P(!new)>(c: Compositor<P>, inner: seq<Overlay>, clones: seq<Overlay>, fb: P, shot: Shot<P>)
    requires Inner(inner) && Mirrors(inner, clones) && clones != []
    ensures Displays(c, inner, clones, false, fb, shot)
  {
    InternalDisplayKeeps(c, inner, clones, fb, shot, |inner + clones|);
    MirroredTop(c, inner, clones, fb, shot);
  }

  /** Every prepared frame does so, for any content of its layers and of the framebuffer. */
  lemma ExternalShows<P(!new)>(c: Compositor<P>, s: Settings, ls: seq<Layer>, hdmi: Hdmi, fb: P, shot: Shot<P>)
    requires c.Lawful() && Reserved(s) && Decide(s, Stats(ls).dockable).maxHw >= 0
    ensures var p := Prepare(s, ls, hdmi);
      Displays(c, p.internal.ovls, p.clones, p.decision.current.docking, fb, shot)
  {
    var p := Prepare(s, ls, hdmi);
    var inner, clones, docked := p.internal.ovls, p.clones, p.decision.current.docking;
    AllocateZ(p.frame, ls);
    AllocateIsInner(p.frame, ls);
    ClonesAreExternal(s, p.decision, p.internal, hdmi);
    if clones == [] {
      NoClones(c, inner, docked, fb, shot);
    } else if docked {
      Docked(c, inner, clones, fb, shot);
    } else {
      Mirrored(c, inner, clones, fb, shot);
    }
  }
}
