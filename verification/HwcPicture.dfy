/**
 * What the viewer sees.  A pixel is a premultiplied colour with coverage; the DSS stacks its overlays by
 * z-order, SGX draws its layers into the framebuffer in list order and clears it where a hinted overlay is.
 * The allocation shows the same pixel as painting every layer in list order.
 */
module HwcPicture {
  import opened Common
  import opened HwcLayers
  import opened HwcAllocator

  /**
   * How contributions combine at one screen position.  Any operation that is associative, has a transparent
   * unit and lets an opaque contribution hide what is below will do; `PremultipliedOver` is the DSS's.
   */
  datatype Compositor<!P(!new)> = Compositor(over: (P, P) -> P, clear: P, solid: P -> bool) {
    function Over(top: P, below: P): P { over(top, below) }
    ghost predicate Associates(x: P, y: P, z: P) { Over(Over(x, y), z) == Over(x, Over(y, z)) }
    ghost predicate Unit(x: P) { Over(x, clear) == x && Over(clear, x) == x }
    ghost predicate Hides(x: P, y: P) { solid(x) ==> Over(x, y) == x }
    ghost predicate Lawful() {
      && (forall x, y, z :: Associates(x, y, z))
      && (forall x :: Unit(x))
      && (forall x, y :: Hides(x, y))
    }
  }

  datatype Pixel = Pixel(colour: real, alpha: real)

  /** Premultiplied "over" on one colour channel and its coverage. */
  function PremultipliedOver(): Compositor<Pixel> {
    Compositor((top: Pixel, below: Pixel) =>
                 Pixel(top.colour + (1.0 - top.alpha) * below.colour, top.alpha + (1.0 - top.alpha) * below.alpha),
               Pixel(0.0, 0.0), (p: Pixel) => p.alpha == 1.0)
  }

  lemma Distribute(t: real, x: real, u: real, y: real)
    ensures t * (x + u * y) == t * x + (t * u) * y
  {
  }

  lemma PremultipliedOverAssociates(x: Pixel, y: Pixel, z: Pixel)
    ensures PremultipliedOver().Associates(x, y, z)
  {
    var t, u := 1.0 - x.alpha, 1.0 - y.alpha;
    var xy := PremultipliedOver().Over(x, y);
    assert 1.0 - xy.alpha == t - t * y.alpha == t * u;
    Distribute(t, y.colour, u, z.colour);
    Distribute(t, y.alpha, u, z.alpha);
  }

  /** The hardware's blending satisfies the laws, so every picture result below holds for real colours. */
  lemma PremultipliedOverIsLawful()
    ensures PremultipliedOver().Lawful()
  {
    var c := PremultipliedOver();
    forall x, y, z ensures c.Associates(x, y, z) { PremultipliedOverAssociates(x, y, z); }
  }

  lemma Assoc<P(!new)>(c: Compositor<P>, x: P, y: P, z: P)
    requires c.Lawful()
    ensures c.Over(c.Over(x, y), z) == c.Over(x, c.Over(y, z))
  {
    assert c.Associates(x, y, z);
  }

  lemma Unital<P(!new)>(c: Compositor<P>, x: P)
    requires c.Lawful()
    ensures c.Over(x, c.clear) == x && c.Over(c.clear, x) == x
  {
    assert c.Unit(x);
  }

  lemma SolidHides<P(!new)>(c: Compositor<P>, x: P, y: P)
    requires c.Lawful() && c.solid(x)
    ensures c.Over(x, y) == x
  {
    assert c.Hides(x, y);
  }

  /** What each layer contributes at one screen position, if it covers it. */
  type Shot<P> = seq<Option<P>>

  /** Unblended layers are opaque wherever they cover. */
  ghost predicate Shows<P(!new)>(c: Compositor<P>, ls: seq<Layer>, shot: Shot<P>) {
    && |shot| == |ls|
    && forall i :: 0 <= i < |ls| && shot[i].Some? && !ls[i].Blended() ==> c.solid(shot[i].value)
  }

  function At<P(!new)>(c: Compositor<P>, shot: Shot<P>, i: nat): P {
    if i < |shot| && shot[i].Some? then shot[i].value else c.clear
  }

  /** Reference: every layer painted in list order. */
  function Paint<P(!new)>(c: Compositor<P>, shot: Shot<P>): P {
    if shot == [] then c.clear else c.Over(At(c, shot, |shot| - 1), Paint(c, shot[..|shot| - 1]))
  }

  /** The hints in the list: those the allocation gave, and whatever others the caller left. */
  predicate Covers(marks: seq<Mark>, hints: seq<bool>) {
    |hints| == |marks| && forall i :: 0 <= i < |marks| && marks[i] == ByDss(true) ==> hints[i]
  }

  /** The framebuffer after SGX has gone through the list, clearing it under every overlay with the hint. */
  function FbContent<P(!new)>(c: Compositor<P>, marks: seq<Mark>, hints: seq<bool>, shot: Shot<P>): P
    requires |marks| == |hints| == |shot|
  {
    if marks == [] then c.clear
    else
      var n := |marks| - 1;
      var before := FbContent(c, marks[..n], hints[..n], shot[..n]);
      if marks[n].BySgx? then c.Over(At(c, shot, n), before)
      else if hints[n] && shot[n].Some? then c.clear
      else before
  }

  function ShownBy<P(!new)>(c: Compositor<P>, o: Overlay, fb: P, shot: Shot<P>): P {
    match o.src
    case Framebuffer => fb
    case FromLayer(i) => At(c, shot, i)
    case DockImage => c.clear
    case CloneOf(_) => c.clear
  }

  /** The overlay at a height. */
  ghost function ZIndex(ovls: seq<Overlay>, z: nat): (k: nat)
    requires HasZ(ovls, z)
    ensures k < |ovls| && ovls[k].zorder == z
  {
    var k :| 0 <= k < |ovls| && ovls[k].zorder == z;
    k
  }

  lemma ZIndexIs(ovls: seq<Overlay>, k: nat)
    requires ZPermutation(ovls) && k < |ovls|
    ensures 0 <= ovls[k].zorder && HasZ(ovls, ovls[k].zorder) && ZIndex(ovls, ovls[k].zorder) == k
  {
  }

  /** The DSS: overlays with z-order below `z`, stacked by z-order. */
  ghost function DssStack<P(!new)>(c: Compositor<P>, ovls: seq<Overlay>, fb: P, shot: Shot<P>, z: nat): P
    requires ZPermutation(ovls) && z <= |ovls|
  {
    if z == 0 then c.clear
    else
      assert HasZ(ovls, z - 1);
      c.Over(ShownBy(c, ovls[ZIndex(ovls, z - 1)], fb, shot), DssStack(c, ovls, fb, shot, z - 1))
  }

  /** Overlays numbered a..b-1 stacked in that order. */
  function Range<P(!new)>(c: Compositor<P>, ovls: seq<Overlay>, shot: Shot<P>, a: nat, b: nat): P
    requires b <= |ovls|
    decreases b
  {
    if b <= a then c.clear else c.Over(ShownBy(c, ovls[b - 1], c.clear, shot), Range(c, ovls, shot, a, b - 1))
  }

  lemma {:induction false} RangeSplit<P(!new)>(c: Compositor<P>, ovls: seq<Overlay>, shot: Shot<P>, a: nat, m: nat, b: nat)
    requires c.Lawful()
    requires a <= m <= b <= |ovls|
    ensures Range(c, ovls, shot, a, b) == c.Over(Range(c, ovls, shot, m, b), Range(c, ovls, shot, a, m))
    decreases b
  {
    if b == m {
      Unital(c, Range(c, ovls, shot, a, m));
    } else {
      RangeSplit(c, ovls, shot, a, m, b - 1);
      Assoc(c, ShownBy(c, ovls[b - 1], c.clear, shot), Range(c, ovls, shot, m, b - 1), Range(c, ovls, shot, a, m));
    }
  }

  lemma {:induction false} RangeCongruent<P(!new)>(c: Compositor<P>, o1: seq<Overlay>, s1: Shot<P>, o2: seq<Overlay>, s2: Shot<P>, a: nat, b: nat)
    requires b <= |o1| && b <= |o2|
    requires forall k :: a <= k < b ==> ShownBy(c, o1[k], c.clear, s1) == ShownBy(c, o2[k], c.clear, s2)
    ensures Range(c, o1, s1, a, b) == Range(c, o2, s2, a, b)
    decreases b
  {
    if a < b { RangeCongruent(c, o1, s1, o2, s2, a, b - 1); }
  }

  /** Height of the framebuffer: overlays 1..Split are below it. */
  function Split(st: Alloc): int { if st.fbZ < 0 then |st.ovls| - 1 else st.fbZ }

  /** While the list is processed: below, framebuffer and above stacks together show the painted prefix. */
  ghost predicate PictureInv<P(!new)>(c: Compositor<P>, st: Alloc, hints: seq<bool>, shot: Shot<P>)
    requires |st.ovls| >= 1 && 0 <= Split(st) < |st.ovls| && |st.marks| == |hints| == |shot|
  {
    var m := Split(st) + 1;
    var fb := FbContent(c, st.marks, hints, shot);
    var above := Range(c, st.ovls, shot, m, |st.ovls|);
    && (fb == c.clear || above == c.clear)
    && (st.fbZ < 0 ==> fb == c.clear)
    && c.Over(above, c.Over(fb, Range(c, st.ovls, shot, 1, m))) == Paint(c, shot)
  }

  ghost predicate StepContext<P(!new)>(c: Compositor<P>, f: Frame, ls: seq<Layer>, st: Alloc, l: Layer,
                                       hints: seq<bool>, shot: Shot<P>)
  {
    && f.useSgx
    && ZInv(f, st)
    && SourceInv(f, ls, st)
    && Shows(c, ls + [l], shot)
    && Covers(Step(f, st, l).marks, hints) && |hints| == |shot|
    && PictureInv(c, st, hints[..|ls|], shot[..|ls|])
  }

  /** Overlays already allocated show the same thing after the list grows by one layer. */
  lemma OldOverlaysStay<P(!new)>(c: Compositor<P>, f: Frame, ls: seq<Layer>, st: Alloc, l: Layer, hints: seq<bool>, shot: Shot<P>, a: nat, b: nat)
    requires StepContext(c, f, ls, st, l, hints, shot)
    requires 1 <= a && b <= |st.ovls|
    ensures |Step(f, st, l).ovls| >= b
    ensures Range(c, Step(f, st, l).ovls, shot, a, b) == Range(c, st.ovls, shot[..|ls|], a, b)
  {
    var st' := Step(f, st, l);
    ChosenAreMarked(st.marks);
    forall k | a <= k < b
      ensures ShownBy(c, st'.ovls[k], c.clear, shot) == ShownBy(c, st.ovls[k], c.clear, shot[..|ls|])
    {
      assert st'.ovls[k].src == st.ovls[k].src;
    }
    RangeCongruent(c, st'.ovls, shot, st.ovls, shot[..|ls|], a, b);
  }

  lemma TakeKeepsPicture<P(!new)>(c: Compositor<P>, f: Frame, ls: seq<Layer>, st: Alloc, l: Layer, hints: seq<bool>, shot: Shot<P>)
    requires c.Lawful()
    requires StepContext(c, f, ls, st, l, hints, shot)
    requires Takes(f, st, l)
    ensures PictureInv(c, Step(f, st, l), hints, shot)
  {
    var n, st' := |ls|, Step(f, st, l);
    var old', px := shot[..n], At(c, shot, n);
    var m, size := Split(st) + 1, |st.ovls|;
    assert st'.marks[..n] == st.marks;
    assert (ls + [l])[n] == l;
    assert ShownBy(c, st'.ovls[size], c.clear, shot) == px;
    OldOverlaysStay(c, f, ls, st, l, hints, shot, 1, m);
    OldOverlaysStay(c, f, ls, st, l, hints, shot, m, size);
    Unital(c, px);
    Unital(c, Paint(c, old'));
    var fb, below, above := FbContent(c, st.marks, hints[..n], old'), Range(c, st.ovls, old', 1, m), Range(c, st.ovls, old', m, size);
    Unital(c, below);
    Unital(c, above);
    Unital(c, c.Over(px, above));
    if st.fbZ < 0 {
      assert m == size && Split(st') + 1 == size + 1;
      assert Range(c, st'.ovls, shot, 1, size + 1) == c.Over(px, below);
      Unital(c, c.Over(px, below));
    } else {
      assert Split(st') + 1 == m;
      assert Range(c, st'.ovls, shot, m, size + 1) == c.Over(px, above);
      if shot[n].Some? {
        SolidHides(c, px, above);
        SolidHides(c, px, c.Over(c.clear, below));
        SolidHides(c, px, Paint(c, old'));
      } else {
        assert px == c.clear;
      }
    }
  }

  /** Drawing one more layer into a framebuffer that moves above everything keeps the picture. */
  lemma RaiseFramebuffer<P(!new)>(c: Compositor<P>, px: P, fb: P, below: P, above: P)
    requires c.Lawful() && (fb == c.clear || above == c.clear)
    ensures c.Over(c.Over(px, fb), c.Over(above, below)) == c.Over(px, c.Over(above, c.Over(fb, below)))
  {
    Assoc(c, px, fb, c.Over(above, below));
    Unital(c, c.Over(above, below));
    Unital(c, below);
    Unital(c, c.Over(fb, below));
  }

  lemma LeaveKeepsPicture<P(!new)>(c: Compositor<P>, f: Frame, ls: seq<Layer>, st: Alloc, l: Layer, hints: seq<bool>, shot: Shot<P>)
    requires c.Lawful()
    requires StepContext(c, f, ls, st, l, hints, shot)
    requires !Takes(f, st, l)
    ensures PictureInv(c, Step(f, st, l), hints, shot)
  {
    var n, st' := |ls|, LeaveLayer(st, f);
    assert st' == Step(f, st, l);
    var old' := shot[..n];
    var m, size := Split(st) + 1, |st.ovls|;
    assert st'.marks == st.marks + [BySgx];
    assert st'.marks[..n] == st.marks;
    OldOverlaysStay(c, f, ls, st, l, hints, shot, 1, size);
    RangeSplit(c, st.ovls, old', 1, m, size);
    assert |st'.ovls| == size && Split(st') + 1 == size;
    var fb' := FbContent(c, st'.marks, hints, shot);
    assert fb' == c.Over(At(c, shot, n), FbContent(c, st.marks, hints[..n], old'));
    RaiseFramebuffer(c, At(c, shot, n), FbContent(c, st.marks, hints[..n], old'), Range(c, st.ovls, old', 1, m),
                     Range(c, st.ovls, old', m, size));
    Unital(c, c.Over(fb', Range(c, st'.ovls, shot, 1, size)));
  }

  lemma StepKeepsPicture<P(!new)>(c: Compositor<P>, f: Frame, ls: seq<Layer>, st: Alloc, l: Layer, hints: seq<bool>, shot: Shot<P>)
    requires c.Lawful()
    requires StepContext(c, f, ls, st, l, hints, shot)
    ensures PictureInv(c, Step(f, st, l), hints, shot)
  {
    if Takes(f, st, l) {
      TakeKeepsPicture(c, f, ls, st, l, hints, shot);
    } else {
      LeaveKeepsPicture(c, f, ls, st, l, hints, shot);
    }
  }

  lemma CoversFront(f: Frame, st: Alloc, l: Layer, hints: seq<bool>)
    requires Covers(Step(f, st, l).marks, hints)
    ensures |Step(f, st, l).marks| == |st.marks| + 1 && Covers(st.marks, hints[..|st.marks|])
  {
    assert Step(f, st, l).marks[..|st.marks|] == st.marks;
    assert forall i :: 0 <= i < |st.marks| ==> Step(f, st, l).marks[i] == st.marks[i];
  }

  lemma SplitInRange(f: Frame, ls: seq<Layer>)
    ensures var st := Assign(f, ls); ZInv(f, st) && SourceInv(f, ls, st) && |st.marks| == |ls|
    ensures var st := Assign(f, ls); f.useSgx ==> |st.ovls| >= 1 && 0 <= Split(st) < |st.ovls|
  {
    AssignKeepsZ(f, ls);
    AssignSources(f, ls);
  }

  /** What the loop has built so far shows the painted list. */
  ghost predicate PictureOf<P(!new)>(c: Compositor<P>, f: Frame, ls: seq<Layer>, hints: seq<bool>, shot: Shot<P>) {
    var st := Assign(f, ls);
    && |st.ovls| >= 1 && 0 <= Split(st) < |st.ovls| && |st.marks| == |hints| == |shot|
    && PictureInv(c, st, hints, shot)
  }

  lemma AssignSnoc(f: Frame, ls: seq<Layer>, l: Layer)
    ensures Assign(f, ls + [l]) == Step(f, Assign(f, ls), l)
  {
    assert (ls + [l])[..|ls|] == ls;
  }

  lemma MarksLength(f: Frame, ls: seq<Layer>)
    ensures |Assign(f, ls).marks| == |ls|
  {
    AssignSources(f, ls);
  }

  lemma ShowsFront<P(!new)>(c: Compositor<P>, ls: seq<Layer>, shot: Shot<P>)
    requires Shows(c, ls, shot) && ls != []
    ensures Shows(c, ls[..|ls| - 1], shot[..|ls| - 1])
  {
  }

  lemma OneMoreLayer<P(!new)>(c: Compositor<P>, f: Frame, ls: seq<Layer>, l: Layer, hints: seq<bool>, shot: Shot<P>)
    requires c.Lawful()
    requires f.useSgx && Shows(c, ls + [l], shot) && Covers(Assign(f, ls + [l]).marks, hints) && |hints| == |shot|
    requires PictureOf(c, f, ls, hints[..|ls|], shot[..|ls|])
    ensures PictureOf(c, f, ls + [l], hints, shot)
  {
    AssignSnoc(f, ls, l);
    SplitInRange(f, ls);
    SplitInRange(f, ls + [l]);
    StepKeepsPicture(c, f, ls, Assign(f, ls), l, hints, shot);
  }

  lemma {:induction false} AssignKeepsPicture<P(!new)>(c: Compositor<P>, f: Frame, ls: seq<Layer>, hints: seq<bool>,
                                                       shot: Shot<P>)
    requires c.Lawful()
    requires f.useSgx && Shows(c, ls, shot) && Covers(Assign(f, ls).marks, hints)
    ensures PictureOf(c, f, ls, hints, shot)
  {
    MarksLength(f, ls);
    if ls == [] {
      SplitInRange(f, ls);
      Unital(c, c.clear);
    } else {
      var n := |ls| - 1;
      assert ls == ls[..n] + [ls[n]];
      AssignSnoc(f, ls[..n], ls[n]);
      MarksLength(f, ls[..n]);
      CoversFront(f, Assign(f, ls[..n]), ls[n], hints);
      ShowsFront(c, ls, shot);
      AssignKeepsPicture(c, f, ls[..n], hints[..n], shot[..n]);
      OneMoreLayer(c, f, ls[..n], ls[n], hints, shot);
    }
  }

  /** Overlays 1 and up in list order around a framebuffer at `fbZ`, which is overlay 0. */
  ghost predicate Stacked(ovls: seq<Overlay>, fbZ: int) {
    && 0 <= fbZ < |ovls| && ovls[0].zorder == fbZ && ovls[0].src == Framebuffer
    && (forall k :: 1 <= k < |ovls| ==> ovls[k].src.FromLayer?)
    && (forall k :: 1 <= k < |ovls| ==> ovls[k].zorder == if k - 1 >= fbZ then k else k - 1)
  }

  /** Stacking by z-order equals stacking by overlay number with the framebuffer at its split. */
  lemma {:induction false} StackBelow<P(!new)>(c: Compositor<P>, ovls: seq<Overlay>, fbZ: int, shot: Shot<P>, fb: P, z: nat)
    requires c.Lawful()
    requires Stacked(ovls, fbZ) && ZPermutation(ovls) && z <= |ovls|
    ensures DssStack(c, ovls, fb, shot, z) ==
         if z <= fbZ then Range(c, ovls, shot, 1, z + 1)
         else c.Over(Range(c, ovls, shot, fbZ + 1, z), c.Over(fb, Range(c, ovls, shot, 1, fbZ + 1)))
  {
    if z > 0 {
      StackBelow(c, ovls, fbZ, shot, fb, z - 1);
      var k := if z - 1 == fbZ then 0 else if z - 1 < fbZ then z else z - 1;
      ZIndexIs(ovls, k);
      Unital(c, c.Over(fb, Range(c, ovls, shot, 1, fbZ + 1)));
      if z - 1 > fbZ {
        Assoc(c, ShownBy(c, ovls[k], c.clear, shot), Range(c, ovls, shot, fbZ + 1, z - 1),
                        c.Over(fb, Range(c, ovls, shot, 1, fbZ + 1)));
      }
    }
  }

  lemma AllocatedZ(f: Frame, ls: seq<Layer>)
    requires f.useSgx
    ensures var st, raw := Allocate(f, ls), Assign(f, ls);
      && |raw.ovls| == |st.ovls| >= 1
      && st.fbZ == Split(raw) && 0 <= st.fbZ < |st.ovls|
      && (forall k :: 1 <= k < |st.ovls| ==> st.ovls[k].src == raw.ovls[k].src && st.ovls[k].src.FromLayer?)
      && (forall k :: 1 <= k < |st.ovls| ==> st.ovls[k].zorder == if k - 1 >= st.fbZ then k else k - 1)
  {
    AssignKeepsZ(f, ls);
    AssignKeepsPipes(f, ls);
    AssignSources(f, ls);
    var st, raw := Allocate(f, ls), Assign(f, ls);
    forall k | 1 <= k < |st.ovls|
      ensures st.ovls[k].src == raw.ovls[k].src && st.ovls[k].src.FromLayer?
      ensures st.ovls[k].zorder == if k - 1 >= st.fbZ then k else k - 1
    {
      assert st.ovls[k] == raw.ovls[k];
      assert raw.ovls[k].zorder == ExpectedZ(f, raw.fbZ, k);
    }
  }

  /**
   * With SGX composition, at every screen position, the DSS z-order stack over the drawn and cleared
   * framebuffer shows the picture of all layers painted in list order, whatever other hints the list carries: a
   * blended layer gets an overlay only while the framebuffer is still clear.
   */
  lemma SgxShowsWholeList<P(!new)>(c: Compositor<P>, f: Frame, ls: seq<Layer>, hints: seq<bool>, shot: Shot<P>)
    requires c.Lawful()
    requires f.useSgx && Shows(c, ls, shot) && Covers(Allocate(f, ls).marks, hints)
    ensures var st := Allocate(f, ls);
      && ZPermutation(st.ovls) && |st.marks| == |shot|
      && DssStack(c, st.ovls, FbContent(c, st.marks, hints, shot), shot, |st.ovls|) == Paint(c, shot)
  {
    AllocateZ(f, ls);
    assert Allocate(f, ls).marks == Assign(f, ls).marks;
    AssignKeepsPicture(c, f, ls, hints, shot);
    AllocatedZ(f, ls);
    var st, raw := Allocate(f, ls), Assign(f, ls);
    assert st.marks == raw.marks;
    StackBelow(c, st.ovls, st.fbZ, shot, FbContent(c, st.marks, hints, shot), |st.ovls|);
    RangeCongruent(c, st.ovls, shot, raw.ovls, shot, 1, st.fbZ + 1);
    RangeCongruent(c, st.ovls, shot, raw.ovls, shot, st.fbZ + 1, |st.ovls|);
  }
}
