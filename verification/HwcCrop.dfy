/**
 * Cropping an overlay to the mirrored region.  The source crop is first flipped into display coordinates, then
 * both axes are cut with truncating integer division, then the flips are undone.
 */
module HwcCrop {
  import opened Common
  import opened HwcLayers

  /** A stretch of one axis; the length is negative while an axis is flipped. */
  datatype Span = Span(at: int, len: int) {
    function End(): int { at + len }
    predicate Has(x: int) { at <= x < End() }
  }

  /** Division of a C int by a positive one. */
  function TruncDiv(a: int, b: int): int
    requires b > 0
  {
    if a >= 0 then a / b else -(-a / b)
  }

  function Flip(s: Span): Span { Span(s.at + s.len, -s.len) }

  function FlipIf(b: bool, s: Span): Span { if b then Flip(s) else s }

  lemma FlipTwice(b: bool, s: Span)
    ensures FlipIf(b, FlipIf(b, s)) == s
  {
  }

  datatype Axis = Axis(win: Span, crop: Span)

  function CutStart(a: Axis, lt: int): Axis
    requires a.win.len > 0
  {
    if a.win.at < lt then
      var d := TruncDiv((lt - a.win.at) * a.crop.len, a.win.len);
      Axis(Span(lt, a.win.len - (lt - a.win.at)), Span(a.crop.at + d, a.crop.len - d))
    else a
  }

  function CutEnd(a: Axis, rb: int): Axis
    requires a.win.len > 0
  {
    if a.win.End() > rb
    then Axis(Span(a.win.at, rb - a.win.at), Span(a.crop.at, TruncDiv(a.crop.len * (rb - a.win.at), a.win.len)))
    else a
  }

  /** The window is outside, or there is nothing to show. */
  predicate Outside(a: Axis, lt: int, rb: int) {
    a.win.len <= 0 || rb <= lt || a.win.End() <= lt || a.win.at >= rb || a.crop.len == 0
  }

  function CutAxis(a: Axis, lt: int, rb: int): Option<Axis> {
    if Outside(a, lt, rb) then None
    else
      var s := CutStart(a, lt);
      var e := CutEnd(s, rb);
      if e.crop.len == 0 || e.win.len == 0 then None else Some(e)
  }

  datatype Cfg = Cfg(winX: Span, winY: Span, cropX: Span, cropY: Span, rotation: nat, mirror: bool) {
    predicate Swaps() { rotation % 2 == 1 }
    predicate Half() { rotation / 2 % 2 == 1 }
    predicate FlipsX() { if Swaps() then Half() else mirror != Half() }
    predicate FlipsY() { if Swaps() then mirror == Half() else Half() }

    /** The display axes with their aligned crops. */
    function Horizontal(): Axis {
      Axis(winX, if Swaps() then FlipIf(FlipsY(), cropY) else FlipIf(FlipsX(), cropX))
    }
    function Vertical(): Axis {
      Axis(winY, if Swaps() then FlipIf(FlipsX(), cropX) else FlipIf(FlipsY(), cropY))
    }

    /** The configuration whose aligned axes are h and v. */
    function WithAxes(h: Axis, v: Axis): Cfg {
      Cfg(h.win, v.win, FlipIf(FlipsX(), if Swaps() then v.crop else h.crop),
          FlipIf(FlipsY(), if Swaps() then h.crop else v.crop), rotation, mirror)
    }
  }

  function CropToRect(c: Cfg, vis: Rect): Option<Cfg> {
    var h := CutAxis(c.Horizontal(), vis.left, vis.right);
    var v := CutAxis(c.Vertical(), vis.top, vis.bottom);
    if h.None? || v.None? then None else Some(c.WithAxes(h.value, v.value))
  }

  /** Aligning, and undoing the alignment, lose nothing. */
  lemma AxesRoundTrip(c: Cfg, h: Axis, v: Axis)
    ensures c.WithAxes(c.Horizontal(), c.Vertical()) == c
    ensures c.WithAxes(h, v).Horizontal() == h && c.WithAxes(h, v).Vertical() == v
  {
    var d := c.WithAxes(h, v);
    assert d.Swaps() == c.Swaps() && d.FlipsX() == c.FlipsX() && d.FlipsY() == c.FlipsY();
    FlipTwice(c.FlipsX(), c.cropX);
    FlipTwice(c.FlipsY(), c.cropY);
    FlipTwice(c.FlipsX(), if c.Swaps() then v.crop else h.crop);
    FlipTwice(c.FlipsY(), if c.Swaps() then h.crop else v.crop);
  }

  // ---- the code ----

  class OverlayConfig {
    var winXy: seq<int>
    var winWh: seq<int>
    var cropXy: seq<int>
    var cropWh: seq<int>
    const rotation: nat
    const mirror: bool

    ghost predicate Valid()
      reads this
    {
      |winXy| == |winWh| == |cropXy| == |cropWh| == 2 && rotation < 4
    }

    ghost function Value(): Cfg
      reads this
      requires Valid()
    {
      Cfg(Span(winXy[0], winWh[0]), Span(winXy[1], winWh[1]), Span(cropXy[0], cropWh[0]), Span(cropXy[1], cropWh[1]),
          rotation, mirror)
    }

    constructor (c: Cfg)
      requires c.rotation < 4
      ensures Valid() && Value() == c
    {
      winXy, winWh := [c.winX.at, c.winY.at], [c.winX.len, c.winY.len];
      cropXy, cropWh := [c.cropX.at, c.cropY.at], [c.cropX.len, c.cropY.len];
      rotation, mirror := c.rotation, c.mirror;
    }

    static method FlipAxis(xy: seq<int>, wh: seq<int>, i: nat) returns (xy': seq<int>, wh': seq<int>)
      requires |xy| == |wh| == 2 && i < 2
      ensures |xy'| == |wh'| == 2
      ensures xy'[1 - i] == xy[1 - i] && wh'[1 - i] == wh[1 - i]
      ensures Span(xy'[i], wh'[i]) == Flip(Span(xy[i], wh[i]))
    {
      wh' := wh[i := -wh[i]];
      xy' := xy[i := xy[i] - wh'[i]];
    }

    /** Flips the crop between buffer and display coordinates. */
    method Align(xy: seq<int>, wh: seq<int>) returns (xy': seq<int>, wh': seq<int>)
      requires Valid() && |xy| == |wh| == 2
      ensures |xy'| == |wh'| == 2
      ensures Span(xy'[0], wh'[0]) == FlipIf(Value().FlipsX(), Span(xy[0], wh[0]))
      ensures Span(xy'[1], wh'[1]) == FlipIf(Value().FlipsY(), Span(xy[1], wh[1]))
    {
      var swap := rotation % 2;
      var half := rotation / 2 % 2 == 1;
      xy', wh' := xy, wh;
      if swap == 1 {
        xy', wh' := FlipAxis(xy', wh', 1);
      }
      if half {
        xy', wh' := FlipAxis(xy', wh', 1 - swap);
      }
      if mirror != half {
        xy', wh' := FlipAxis(xy', wh', swap);
      }
    }

    /** Cuts display axis c of the four local pairs; false when nothing is left. */
    static method CutOne(winXy: seq<int>, winWh: seq<int>, cropXy: seq<int>, cropWh: seq<int>, c: nat, k: nat, lt: int, rb: int)
      returns (ok: bool, wxy: seq<int>, wwh: seq<int>, cxy: seq<int>, cwh: seq<int>)
      requires |winXy| == |winWh| == |cropXy| == |cropWh| == 2 && c < 2 && k < 2
      ensures |wxy| == |wwh| == |cxy| == |cwh| == 2
      ensures wxy[1 - c] == winXy[1 - c] && wwh[1 - c] == winWh[1 - c]
      ensures cxy[1 - k] == cropXy[1 - k] && cwh[1 - k] == cropWh[1 - k]
      ensures var r := CutAxis(Axis(Span(winXy[c], winWh[c]), Span(cropXy[k], cropWh[k])), lt, rb);
        ok == r.Some? && (ok ==> r.value == Axis(Span(wxy[c], wwh[c]), Span(cxy[k], cwh[k])))
    {
      wxy, wwh, cxy, cwh := winXy, winWh, cropXy, cropWh;
      if wwh[c] <= 0 || rb <= lt || wxy[c] + wwh[c] <= lt || wxy[c] >= rb || cwh[k] == 0 {
        return false, wxy, wwh, cxy, cwh;
      }
      if wxy[c] < lt {
        var a := TruncDiv((lt - wxy[c]) * cwh[k], wwh[c]);
        cxy := cxy[k := cxy[k] + a];
        cwh := cwh[k := cwh[k] - a];
        wwh := wwh[c := wwh[c] - (lt - wxy[c])];
        wxy := wxy[c := lt];
      }
      if wxy[c] + wwh[c] > rb {
        cwh := cwh[k := TruncDiv(cwh[k] * (rb - wxy[c]), wwh[c])];
        wwh := wwh[c := rb - wxy[c]];
      }
      ok := cwh[k] != 0 && wwh[c] != 0;
    }

    /** Crops window and source to the visible rectangle, or refuses and changes nothing. */
    method CropTo(vis: Rect) returns (ok: bool)
      requires Valid()
      modifies this
      ensures Valid()
      ensures var r := CropToRect(old(Value()), vis);
        ok == r.Some? && Value() == (if ok then r.value else old(Value()))
    {
      ghost var c0 := Value();
      var swap := rotation % 2;
      var wxy, wwh := winXy, winWh;
      var cxy, cwh := Align(cropXy, cropWh);
      ok, wxy, wwh, cxy, cwh := CutOne(wxy, wwh, cxy, cwh, 0, swap, vis.left, vis.right);
      if !ok { return; }
      ghost var h := Axis(Span(wxy[0], wwh[0]), Span(cxy[swap], cwh[swap]));
      ok, wxy, wwh, cxy, cwh := CutOne(wxy, wwh, cxy, cwh, 1, 1 - swap, vis.top, vis.bottom);
      if !ok { return; }
      cxy, cwh := Align(cxy, cwh);
      winXy, winWh, cropXy, cropWh := wxy, wwh, cxy, cwh;
    }
  }

  // ---- one axis ----

  lemma FloorDiv(n: int, d: int)
    requires d > 0 && n >= 0
    ensures n / d * d <= n < n / d * d + d && n / d >= 0
  {
  }

  lemma MulMono(a: int, b: int, k: int)
    requires a >= b && k >= 0
    ensures a * k >= b * k
  {
    assert (a - b) * k >= 0;
  }

  lemma Scale(x: int, y: int, k: int)
    requires x < y && k > 0
    ensures x * k < y * k
  {
    MulMono(y, x + 1, k);
    assert (x + 1) * k == x * k + k;
  }

  lemma Unscale(x: int, y: int, k: int)
    requires k > 0 && x * k < y * k
    ensures x < y
  {
    if x >= y { MulMono(x, y, k); }
  }

  lemma DivBelow(n: int, d: int, q: int)
    requires d > 0 && 0 <= n <= q * d
    ensures n / d <= q
  {
    FloorDiv(n, d);
    Scale(q, q + 1, d);
    Unscale(n / d, q + 1, d);
  }

  function Mirrored(a: Axis): Axis { Axis(a.win, Span(-a.crop.at, -a.crop.len)) }

  lemma TruncDivOdd(a: int, b: int)
    requires b > 0
    ensures TruncDiv(-a, b) == -TruncDiv(a, b)
  {
  }

  /** Negating the source axis negates the result, so flipped axes behave like unflipped ones. */
  lemma CutIsOdd(a: Axis, lt: int, rb: int)
    ensures var r, m := CutAxis(a, lt, rb), CutAxis(Mirrored(a), lt, rb);
      r.Some? == m.Some? && (r.Some? ==> m.value == Mirrored(r.value))
  {
    if !Outside(a, lt, rb) {
      var d := lt - a.win.at;
      assert d * -a.crop.len == -(d * a.crop.len);
      TruncDivOdd(d * a.crop.len, a.win.len);
      var s, t := CutStart(a, lt), CutStart(Mirrored(a), lt);
      assert t == Mirrored(s);
      var v := rb - s.win.at;
      assert -s.crop.len * v == -(s.crop.len * v);
      TruncDivOdd(s.crop.len * v, s.win.len);
    }
  }

  /** How far the visible window starts and ends inside the full one. */
  function Skip(a: Axis, lt: int): int { if a.win.at < lt then lt - a.win.at else 0 }
  function Reach(a: Axis, rb: int): int { (if a.win.End() > rb then rb else a.win.End()) - a.win.at }

  /**
   * One unflipped axis: the window becomes the intersection; the crop stays inside the original one and keeps
   * the edges that are not cut; its start is within one source pixel below the exact proportion and its end less
   * than two below and one above.
   */
  ghost predicate GoodCut(a: Axis, lt: int, rb: int, r: Axis) {
    && r.win.at == (if a.win.at < lt then lt else a.win.at)
    && r.win.End() == (if a.win.End() > rb then rb else a.win.End())
    && r.win.len > 0 && r.crop.len > 0
    && a.crop.at <= r.crop.at && r.crop.End() <= a.crop.End()
    && (lt <= a.win.at ==> r.crop.at == a.crop.at) && (a.win.End() <= rb ==> r.crop.End() == a.crop.End())
    && Near(a.win.len * (r.crop.at - a.crop.at), Skip(a, lt) * a.crop.len, a.win.len, 1, 0)
    && Near(a.win.len * (r.crop.End() - a.crop.at), Reach(a, rb) * a.crop.len, a.win.len, 2, 1)
  }

  /** x is less than `below` units under y and less than `above` units over it (or equal). */
  ghost predicate Near(x: int, y: int, unit: int, below: nat, above: nat) {
    x == y || y - below * unit < x < y + above * unit || (above == 0 && y - below * unit < x <= y)
  }

  lemma CutStartGood(a: Axis, lt: int, rb: int)
    requires !Outside(a, lt, rb) && a.crop.len > 0
    ensures var s := CutStart(a, lt);
      && s.win.at == (if a.win.at < lt then lt else a.win.at) && s.win.End() == a.win.End()
      && 0 < s.win.len <= a.win.len && s.win.at < rb
      && a.crop.at <= s.crop.at && s.crop.len > 0 && s.crop.End() == a.crop.End()
      && Skip(a, lt) * a.crop.len - a.win.len < a.win.len * (s.crop.at - a.crop.at) <= Skip(a, lt) * a.crop.len
  {
    if a.win.at < lt {
      SkippedPart(lt - a.win.at, a.crop.len, a.win.len);
    }
  }

  lemma SkippedPart(d: int, c: int, w: int)
    requires 0 < d < w && 0 < c
    ensures var q := TruncDiv(d * c, w); 0 <= q < c && d * c - w < w * q <= d * c
  {
    Scale(0, d, c);
    Scale(d, w, c);
    FloorDiv(d * c, w);
    Unscale(d * c / w, c, w);
  }

  /** The cut from the right: the new length against the exact proportion. */
  lemma CutEndGood(c1: int, w1: int, v: int)
    requires 0 < c1 && 0 < v < w1
    ensures var e := TruncDiv(c1 * v, w1); 0 <= e <= c1 && c1 * v - w1 < e * w1 <= c1 * v
  {
    assert 0 <= c1 * v;
    FloorDiv(c1 * v, w1);
    MulMono(w1, v, c1);
    DivBelow(c1 * v, w1, c1);
  }

  /** The cut length e against c * v / w, where p / w is what is left of c after the first cut. */
  lemma LengthError(w: int, w1: int, c: int, rest: int, v: int, e: int)
    requires 0 < v < w1 <= w && 0 < c
    requires c * w1 <= w * rest < c * w1 + w
    requires rest * v - w1 < e * w1 <= rest * v
    ensures c * v - w < w * e < c * v + w
  {
    var p, q := w * rest, w * e;
    Scale(rest * v - w1, e * w1, w);
    MulMono(rest * v, e * w1, w);
    assert (rest * v - w1) * w == p * v - w1 * w;
    assert e * w1 * w == q * w1;
    assert rest * v * w == p * v;
    MulMono(p, c * w1, v);
    Scale(p, c * w1 + w, v);
    assert (c * w1 + w) * v == (c * v) * w1 + w * v;
    assert c * w1 * v == (c * v) * w1;
    Scale(v, w1, w);
    Product(c * v, w, w1);
    Unscale(c * v - w, q, w1);
    Unscale(q, c * v + w, w1);
  }

  lemma Product(x: int, w: int, k: int)
    ensures (x - w) * k == x * k - w * k && (x + w) * k == x * k + w * k
  {
  }

  /** Error of both cuts together: the end edge against the exact proportion. */
  lemma EndError(w: int, w1: int, c: int, d: int, a: int, v: int, e: int)
    requires 0 < w1 <= w && w1 == w - d && 0 < c && 0 < v < w1
    requires d * c - w < w * a <= d * c
    requires (c - a) * v - w1 < e * w1 <= (c - a) * v
    ensures (d + v) * c - 2 * w < w * (a + e) < (d + v) * c + w
  {
    assert c * w1 == w * c - d * c;
    assert w * (c - a) == w * c - w * a;
    LengthError(w, w1, c, c - a, v, e);
    assert w * (a + e) == w * a + w * e;
    assert (d + v) * c == d * c + c * v;
  }

  lemma PositiveCutGood(a: Axis, lt: int, rb: int)
    requires a.crop.len > 0 && CutAxis(a, lt, rb).Some?
    ensures GoodCut(a, lt, rb, CutAxis(a, lt, rb).value)
  {
    CutStartGood(a, lt, rb);
    var s := CutStart(a, lt);
    var r := CutEnd(s, rb);
    if s.win.End() > rb {
      var v := rb - s.win.at;
      CutEndGood(s.crop.len, s.win.len, v);
      EndError(a.win.len, s.win.len, a.crop.len, Skip(a, lt), s.crop.at - a.crop.at, v, r.crop.len);
    } else {
      assert Reach(a, rb) == a.win.len;
      assert a.win.len * a.crop.len == Reach(a, rb) * a.crop.len;
    }
  }

  // ---- both axes, every rotation and mirror ----

  /** A cut of an axis in either direction. */
  ghost predicate GoodAxis(a: Axis, lt: int, rb: int, r: Axis) {
    if a.crop.len > 0 then GoodCut(a, lt, rb, r) else GoodCut(Mirrored(a), lt, rb, Mirrored(r))
  }

  lemma CutGood(a: Axis, lt: int, rb: int)
    requires CutAxis(a, lt, rb).Some?
    ensures GoodAxis(a, lt, rb, CutAxis(a, lt, rb).value)
  {
    if a.crop.len > 0 {
      PositiveCutGood(a, lt, rb);
    } else {
      CutIsOdd(a, lt, rb);
      PositiveCutGood(Mirrored(a), lt, rb);
    }
  }

  /** `inner` lies inside `outer` and is not empty. */
  predicate Within(inner: Span, outer: Span) {
    inner.len > 0 && outer.at <= inner.at && inner.End() <= outer.End()
  }

  lemma UnflippedWithin(flip: bool, orig: Span, a: Axis, lt: int, rb: int, r: Axis)
    requires orig.len > 0 && a.crop == FlipIf(flip, orig) && GoodAxis(a, lt, rb, r)
    ensures Within(FlipIf(flip, r.crop), orig)
  {
  }

  /**
   * On success, for every rotation and mirror: the window is exactly the intersection with the visible
   * rectangle, the source crop is a non-empty part of the original one, and both displayed edges of each axis
   * are within the stated number of source pixels of exact proportion.
   */
  lemma CropIsFaithful(c: Cfg, vis: Rect)
    requires c.cropX.len >= 0 && c.cropY.len >= 0
    requires CropToRect(c, vis).Some?
    ensures var r := CropToRect(c, vis).value;
      && r.rotation == c.rotation && r.mirror == c.mirror
      && Within(r.cropX, c.cropX) && Within(r.cropY, c.cropY)
      && GoodAxis(c.Horizontal(), vis.left, vis.right, r.Horizontal())
      && GoodAxis(c.Vertical(), vis.top, vis.bottom, r.Vertical())
      && (forall x :: r.winX.Has(x) <==> c.winX.Has(x) && vis.left <= x < vis.right)
      && (forall y :: r.winY.Has(y) <==> c.winY.Has(y) && vis.top <= y < vis.bottom)
  {
    var h, v := CutAxis(c.Horizontal(), vis.left, vis.right).value, CutAxis(c.Vertical(), vis.top, vis.bottom).value;
    CutGood(c.Horizontal(), vis.left, vis.right);
    CutGood(c.Vertical(), vis.top, vis.bottom);
    AxesRoundTrip(c, h, v);
    if c.Swaps() {
      UnflippedWithin(c.FlipsX(), c.cropX, c.Vertical(), vis.top, vis.bottom, v);
      UnflippedWithin(c.FlipsY(), c.cropY, c.Horizontal(), vis.left, vis.right, h);
    } else {
      UnflippedWithin(c.FlipsX(), c.cropX, c.Horizontal(), vis.left, vis.right, h);
      UnflippedWithin(c.FlipsY(), c.cropY, c.Vertical(), vis.top, vis.bottom, v);
    }
  }

  /** A window that is already visible is left exactly as it was: the flips undo each other. */
  lemma VisibleIsUnchanged(c: Cfg, vis: Rect)
    requires c.winX.len > 0 && c.winY.len > 0 && c.cropX.len != 0 && c.cropY.len != 0
    requires vis.left <= c.winX.at && c.winX.End() <= vis.right
    requires vis.top <= c.winY.at && c.winY.End() <= vis.bottom
    ensures CropToRect(c, vis) == Some(c)
  {
    AxesRoundTrip(c, c.Horizontal(), c.Vertical());
  }

  /** Cropping twice to the same rectangle is cropping once. */
  lemma CropIsIdempotent(c: Cfg, vis: Rect)
    requires c.cropX.len >= 0 && c.cropY.len >= 0
    requires CropToRect(c, vis).Some?
    ensures CropToRect(CropToRect(c, vis).value, vis) == CropToRect(c, vis)
  {
    CropIsFaithful(c, vis);
    VisibleIsUnchanged(CropToRect(c, vis).value, vis);
  }

  function Abs(x: int): nat { if x < 0 then -x else x }

  /** The right cut leaves less than one source pixel. */
  predicate Thin(a: Axis, lt: int, rb: int)
    requires !Outside(a, lt, rb)
  {
    var s := CutStart(a, lt);
    a.win.End() > rb && Abs(s.crop.len) * (rb - s.win.at) < s.win.len
  }

  lemma PositiveFails(a: Axis, lt: int, rb: int)
    requires !Outside(a, lt, rb) && a.crop.len > 0
    ensures CutAxis(a, lt, rb).None? <==> Thin(a, lt, rb)
  {
    CutStartGood(a, lt, rb);
    var s := CutStart(a, lt);
    if s.win.End() > rb {
      var n := s.crop.len * (rb - s.win.at);
      CutEndGood(s.crop.len, s.win.len, rb - s.win.at);
      FloorDiv(n, s.win.len);
      if n / s.win.len >= 1 { MulMono(n / s.win.len, 1, s.win.len); }
    }
  }

  /** An overlay is refused exactly when an axis is outside or its right cut leaves under one source pixel. */
  lemma RefusedExactlyWhen(c: Cfg, vis: Rect)
    ensures CropToRect(c, vis).None? <==>
      || Outside(c.Horizontal(), vis.left, vis.right) || Thin(c.Horizontal(), vis.left, vis.right)
      || Outside(c.Vertical(), vis.top, vis.bottom) || Thin(c.Vertical(), vis.top, vis.bottom)
  {
    AxisFails(c.Horizontal(), vis.left, vis.right);
    AxisFails(c.Vertical(), vis.top, vis.bottom);
  }

  lemma AxisFails(a: Axis, lt: int, rb: int)
    ensures CutAxis(a, lt, rb).None? <==> Outside(a, lt, rb) || Thin(a, lt, rb)
  {
    if !Outside(a, lt, rb) {
      if a.crop.len > 0 {
        PositiveFails(a, lt, rb);
      } else {
        CutIsOdd(a, lt, rb);
        PositiveFails(Mirrored(a), lt, rb);
        var d := lt - a.win.at;
        assert d * -a.crop.len == -(d * a.crop.len);
        TruncDivOdd(d * a.crop.len, a.win.len);
      }
    }
  }
}
