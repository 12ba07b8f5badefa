/**
 * Which place of the source buffer a place on the display shows, from quarter turns and one reflection alone,
 * and what becomes of that when a layer is set up, turned for an external display, or cropped.
 */
module HwcOrientation {
  import opened Common
  import opened HwcLayers
  import opened HwcCrop

  /** A place in a picture, as fractions of its width and height from the top left corner. */
  datatype Point = Point(u: real, v: real)

  /** Where a picture turned clockwise by a quarter shows the original's place: its top row was the left column. */
  function Turned(p: Point): Point { Point(p.v, 1.0 - p.u) }

  function Turns(k: nat, p: Point): Point {
    if k == 0 then p else Turned(Turns(k - 1, p))
  }

  function AcrossIf(b: bool, p: Point): Point { if b then Point(1.0 - p.u, p.v) else p }

  function UpsideDownIf(b: bool, p: Point): Point { if b then Point(p.u, 1.0 - p.v) else p }

  /** The place shown at p when the buffer is turned clockwise `rotation` times and then mirrored left to right. */
  function Shows(rotation: nat, mirror: bool, p: Point): Point { Turns(rotation, AcrossIf(mirror, p)) }

  lemma {:induction false} FourTurns(k: nat, p: Point)
    ensures Turns(k, p) == Turns(k % 4, p)
    ensures Turns(1, p) == Turned(p) && Turns(2, p) == Point(1.0 - p.u, 1.0 - p.v) && Turns(3, p) == Point(1.0 - p.v, p.u)
  {
    assert Turns(1, p) == Turned(Turns(0, p));
    assert Turns(2, p) == Turned(Turns(1, p));
    assert Turns(3, p) == Turned(Turns(2, p));
    if k >= 4 {
      var q := Turns(k - 4, p);
      assert Turns(k - 3, p) == Turned(q);
      assert Turns(k - 2, p) == Turned(Turns(k - 3, p));
      assert Turns(k - 1, p) == Turned(Turns(k - 2, p));
      assert Turns(k, p) == Turned(Turns(k - 1, p));
      FourTurns(k - 4, p);
    }
  }

  lemma {:induction false} TurnsAdd(j: nat, k: nat, p: Point)
    ensures Turns(j, Turns(k, p)) == Turns(j + k, p)
  {
    if j > 0 {
      TurnsAdd(j - 1, k, p);
    }
  }

  // ---- setting a layer up ----

  datatype Orientation = Orientation(rotation: nat, mirror: bool)

  /** The configuration for a layer's transform bits. */
  function LayerOrientation(flipH: bool, flipV: bool, rot90: bool): (o: Orientation)
    ensures o.rotation < 4
  {
    var r := if flipV then 2 else 0;
    var m := flipH != flipV;
    Orientation(if rot90 then (r + (if m then 3 else 1)) % 4 else r, m)
  }

  /** A layer's transform flips its picture first and then turns it; the configuration turns first, to the same effect. */
  lemma LayerShowsItsTransform(flipH: bool, flipV: bool, rot90: bool, p: Point)
    ensures var o := LayerOrientation(flipH, flipV, rot90);
      Shows(o.rotation, o.mirror, p) == AcrossIf(flipH, UpsideDownIf(flipV, if rot90 then Turned(p) else p))
  {
    var o := LayerOrientation(flipH, flipV, rot90);
    FourTurns(o.rotation, AcrossIf(o.mirror, p));
  }

  /** The overlay of a layer: its frame on the display, its part of the buffer, its orientation. */
  function ConfigOf(l: Layer): Cfg {
    var o := LayerOrientation(l.transform.flipH, l.transform.flipV, l.transform.rot90);
    Cfg(Span(l.displayFrame.left, l.displayFrame.Width()), Span(l.displayFrame.top, l.displayFrame.Height()),
        Span(l.sourceCrop.left, l.sourceCrop.Width()), Span(l.sourceCrop.top, l.sourceCrop.Height()), o.rotation, o.mirror)
  }

  /** A layer counts as unscaled exactly when both display axes show as many source pixels as they have. */
  lemma UnscaledExactlyWhen(l: Layer)
    requires l.sourceCrop.Width() >= 0 && l.sourceCrop.Height() >= 0
    ensures var h, v := ConfigOf(l).Horizontal(), ConfigOf(l).Vertical();
      !l.Scaled() <==> Abs(h.crop.len) == h.win.len && Abs(v.crop.len) == v.win.len
  {
    assert ConfigOf(l).Swaps() == l.transform.rot90;
  }

  // ---- turning it for the external display ----

  /** The configuration of a copy shown on a display that turns and mirrors what it shows. */
  function Combined(o: Orientation, rotation: nat, hflip: bool): (c: Orientation)
    ensures c.rotation < 4
  {
    Orientation((o.rotation + (if o.mirror then -1 else 1) * rotation) % 4, o.mirror != hflip)
  }

  lemma TurnedAcross(k: nat, p: Point)
    requires k < 4
    ensures AcrossIf(true, Turns(k, p)) == Turns((4 - k) % 4, AcrossIf(true, p))
  {
    FourTurns(k, p);
    FourTurns((4 - k) % 4, AcrossIf(true, p));
  }

  lemma CombinedRotation(o: Orientation, rotation: nat, hflip: bool)
    ensures var b := rotation % 4;
      Combined(o, rotation, hflip).rotation == (o.rotation + (if o.mirror then (4 - b) % 4 else b)) % 4
  {
  }

  /** The copy shows at every place what the display's transform makes of the overlay. */
  lemma CombinedShowsBoth(o: Orientation, rotation: nat, hflip: bool, p: Point)
    ensures var c := Combined(o, rotation, hflip);
      Shows(c.rotation, c.mirror, p) == Shows(o.rotation, o.mirror, Shows(rotation, hflip, p))
  {
    var b, q := rotation % 4, AcrossIf(hflip, p);
    FourTurns(rotation, q);
    CombinedRotation(o, rotation, hflip);
    if o.mirror {
      TurnedAcross(b, q);
      TurnsOfTurns(o.rotation, (4 - b) % 4, AcrossIf(true, q));
    } else {
      TurnsOfTurns(o.rotation, b, q);
    }
  }

  lemma {:induction false} TurnsOfTurns(j: nat, k: nat, p: Point)
    ensures Turns(j, Turns(k, p)) == Turns((j + k) % 4, p)
  {
    TurnsAdd(j, k, p);
    FourTurns(j + k, p);
  }

  // ---- cropping ----

  /** The source coordinates an overlay shows at display position (x, y). */
  function SourceAt(c: Cfg, x: real, y: real): Point
    requires c.winX.len > 0 && c.winY.len > 0
  {
    var p := Shows(c.rotation, c.mirror, Point(Fraction(c.winX, x), Fraction(c.winY, y)));
    Point(Along(c.cropX, p.u), Along(c.cropY, p.v))
  }

  function Fraction(s: Span, x: real): real
    requires s.len > 0
  {
    (x - s.at as real) / s.len as real
  }

  function Along(s: Span, f: real): real { s.at as real + f * s.len as real }

  /** The source coordinate an aligned axis shows at display position x. */
  function AxisAt(a: Axis, x: real): real
    requires a.win.len > 0
  {
    Along(a.crop, Fraction(a.win, x))
  }

  lemma AlongFlipped(b: bool, s: Span, f: real)
    ensures Along(FlipIf(b, s), f) == Along(s, if b then 1.0 - f else f)
  {
    var n := s.len as real;
    assert (1.0 - f) * n == n - f * n;
    assert Flip(s).len as real == -n;
    assert f * -n == -(f * n);
  }

  /** In every orientation the aligned axes show the places that turns and reflection say. */
  lemma AlignedAxesShowSource(c: Cfg, x: real, y: real)
    requires c.winX.len > 0 && c.winY.len > 0
    ensures var h, v := AxisAt(c.Horizontal(), x), AxisAt(c.Vertical(), y);
      SourceAt(c, x, y) == if c.Swaps() then Point(v, h) else Point(h, v)
  {
    var f, g := Fraction(c.winX, x), Fraction(c.winY, y);
    FourTurns(c.rotation, AcrossIf(c.mirror, Point(f, g)));
    if c.Swaps() {
      AlongFlipped(c.FlipsY(), c.cropY, f);
      AlongFlipped(c.FlipsX(), c.cropX, g);
    } else {
      AlongFlipped(c.FlipsX(), c.cropX, f);
      AlongFlipped(c.FlipsY(), c.cropY, g);
    }
  }

  /** x is a place in the stretch, its edges included. */
  predicate Covers(s: Span, x: real) { s.at as real <= x <= s.End() as real }

  lemma Product(x: int, y: int)
    ensures (x * y) as real == x as real * y as real
  {
  }

  lemma SignOf(x: real, k: real)
    requires x >= 0.0
    ensures (k >= 0.0 ==> x * k >= 0.0) && (k <= 0.0 ==> x * k <= 0.0)
  {
  }

  lemma ScaledUp(x: real, y: real, k: real)
    requires x >= y && k >= 0.0
    ensures x * k >= y * k
  {
    SignOf(x - y, k);
    assert (x - y) * k == x * k - y * k;
  }

  lemma ScaledDown(x: real, y: real, k: real)
    requires x * k < y * k && k > 0.0
    ensures x < y
  {
    if x >= y { ScaledUp(x, y, k); }
  }

  /** Offset s of the window shows s * n / w of the source, which Near compares with the whole number d. */
  lemma EdgeError(w: int, n: int, s: int, d: int, below: nat, above: nat)
    requires w > 0 && Near(w * d, s * n, w, below, above)
    ensures var x := s as real / w as real * n as real - d as real;
      x == 0.0 || -(above as real) < x < below as real || (above == 0 && 0.0 <= x < below as real)
  {
    var k := w as real;
    var x := s as real / k * n as real - d as real;
    assert x * k == s as real * n as real - d as real * k by {
      assert s as real / k * k == s as real;
      assert s as real / k * n as real * k == s as real / k * k * n as real;
    }
    Product(s, n);
    Product(w, d);
    Product(below, w);
    Product(above, w);
    EdgeCases(x, k, w * d, s * n, w, below, above);
  }

  lemma EdgeCases(x: real, k: real, wd: int, sn: int, w: int, below: nat, above: nat)
    requires k > 0.0 && k == w as real && Near(wd, sn, w, below, above) && x * k == sn as real - wd as real
    requires (below * w) as real == below as real * k && (above * w) as real == above as real * k
    ensures x == 0.0 || -(above as real) < x < below as real || (above == 0 && 0.0 <= x < below as real)
  {
    if wd == sn {
      assert x * k == 0.0;
    } else {
      ScaledDown(x, below as real, k);
      if above == 0 {
        ScaledDown(0.0, x, k);
      } else {
        ScaledDown(-(above as real), x, k);
      }
    }
  }

  lemma PlaceOf(a: Axis, s: int)
    requires a.win.len > 0
    ensures AxisAt(a, (a.win.at + s) as real) == a.crop.at as real + s as real / a.win.len as real * a.crop.len as real
  {
    assert (a.win.at + s) as real - a.win.at as real == s as real;
  }

  /** What display offset s of a whole axis shows, against the source pixel d it was cut to. */
  lemma EdgePlace(a: Axis, s: int, d: int, below: nat, above: nat)
    requires a.win.len > 0 && Near(a.win.len * d, s * a.crop.len, a.win.len, below, above)
    ensures var x := AxisAt(a, (a.win.at + s) as real) - (a.crop.at + d) as real;
      x == 0.0 || -(above as real) < x < below as real || (above == 0 && 0.0 <= x < below as real)
  {
    EdgeError(a.win.len, a.crop.len, s, d, below, above);
    PlaceOf(a, s);
  }

  lemma OwnEdges(r: Axis)
    requires r.win.len > 0
    ensures AxisAt(r, r.win.at as real) == r.crop.at as real && AxisAt(r, r.win.End() as real) == r.crop.End() as real
  {
    PlaceOf(r, 0);
    PlaceOf(r, r.win.len);
  }

  /** How far what a cut axis shows at x lags behind what the whole one showed there. */
  function Lag(a: Axis, r: Axis, x: int): real
    requires a.win.len > 0 && r.win.len > 0
  {
    AxisAt(a, x as real) - AxisAt(r, x as real)
  }

  lemma CutEdges(a: Axis, lt: int, rb: int, r: Axis)
    requires a.win.len > 0 && r.win.len > 0 && GoodCut(a, lt, rb, r)
    ensures 0.0 <= Lag(a, r, r.win.at) < 1.0 && -1.0 < Lag(a, r, r.win.End()) < 2.0
  {
    OwnEdges(r);
    assert a.win.at + Skip(a, lt) == r.win.at && a.win.at + Reach(a, rb) == r.win.End();
    EdgePlace(a, Skip(a, lt), r.crop.at - a.crop.at, 1, 0);
    EdgePlace(a, Reach(a, rb), r.crop.End() - a.crop.at, 2, 1);
  }

  /** The place a fraction t of the way from y to z. */
  function Mean(t: real, y: real, z: real): real { y + t * (z - y) }

  /** Between its edges an axis shows a mean of what it shows at them. */
  lemma Between(a: Axis, s: Span, x: real)
    requires a.win.len > 0 && s.len > 0
    ensures AxisAt(a, x) == Mean(Fraction(s, x), AxisAt(a, s.at as real), AxisAt(a, s.End() as real))
  {
    var t := Fraction(s, x);
    var p, q, w, n := s.at as real, s.End() as real, a.win.len as real, a.crop.len as real;
    assert t * s.len as real == x - p;
    MeanFraction(a.win.at as real, w, t, p, q, x);
    MeanAlong(a.crop.at as real, n, t, Fraction(a.win, p), Fraction(a.win, q));
  }

  lemma MeanFraction(c: real, w: real, t: real, p: real, q: real, x: real)
    requires w > 0.0 && x == Mean(t, p, q)
    ensures (x - c) / w == Mean(t, (p - c) / w, (q - c) / w)
  {
    var f, g := (p - c) / w, (q - c) / w;
    assert f * w == p - c && g * w == q - c;
    assert Mean(t, f, g) * w == f * w + t * (g * w - f * w);
  }

  lemma MeanAlong(c: real, n: real, t: real, f: real, g: real)
    ensures c + Mean(t, f, g) * n == Mean(t, c + f * n, c + g * n)
  {
    assert Mean(t, f, g) * n == f * n + t * (g * n - f * n);
  }

  lemma MeanDifference(t: real, y: real, z: real, y': real, z': real)
    ensures Mean(t, y, z) - Mean(t, y', z') == Mean(t, y - y', z - z')
  {
  }

  lemma MeanInRange(t: real, y: real, z: real, lo: real, hi: real)
    requires 0.0 <= t <= 1.0 && lo < y < hi && lo < z < hi
    ensures lo < Mean(t, y, z) < hi
  {
    StepInRange(t, y, z - y, lo, hi);
  }

  lemma StepInRange(t: real, y: real, k: real, lo: real, hi: real)
    requires 0.0 <= t <= 1.0 && lo < y < hi && lo < y + k < hi
    ensures lo < y + t * k < hi
  {
    var m := PartOf(t, k);
    assert y + t * k == y + m;
  }

  lemma PartOf(t: real, k: real) returns (m: real)
    requires 0.0 <= t <= 1.0
    ensures m == t * k && (0.0 <= m <= k || k <= m <= 0.0)
  {
    m := t * k;
    var rest := (1.0 - t) * k;
    assert rest == k - m;
    SignOf(t, k);
    SignOf(1.0 - t, k);
  }

  lemma FractionInside(s: Span, x: real)
    requires s.len > 0 && Covers(s, x)
    ensures 0.0 <= Fraction(s, x) <= 1.0
  {
    var t, k := Fraction(s, x), s.len as real;
    assert t * k == x - s.at as real;
    if t < 0.0 {
      ScaledUp(-t, 0.0, k);
    }
  }

  lemma CutStaysClose(a: Axis, lt: int, rb: int, r: Axis, x: real)
    requires a.win.len > 0 && r.win.len > 0 && GoodCut(a, lt, rb, r) && Covers(r.win, x)
    ensures -1.0 < AxisAt(a, x) - AxisAt(r, x) < 2.0
  {
    CutEdges(a, lt, rb, r);
    var t, p, q := Fraction(r.win, x), r.win.at as real, r.win.End() as real;
    var y, z, y', z' := AxisAt(a, p), AxisAt(a, q), AxisAt(r, p), AxisAt(r, q);
    assert AxisAt(a, x) == Mean(t, y, z) by { Between(a, r.win, x); }
    assert AxisAt(r, x) == Mean(t, y', z') by { Between(r, r.win, x); }
    FractionInside(r.win, x);
    MeanInRange(t, y - y', z - z', -1.0, 2.0);
    MeanDifference(t, y, z, y', z');
  }

  lemma AxisStaysClose(a: Axis, lt: int, rb: int, r: Axis, x: real)
    requires a.win.len > 0 && r.win.len > 0 && GoodAxis(a, lt, rb, r) && Covers(r.win, x)
    ensures -2.0 < AxisAt(a, x) - AxisAt(r, x) < 2.0
  {
    if a.crop.len > 0 {
      CutStaysClose(a, lt, rb, r, x);
    } else {
      MirroredAt(a, x);
      MirroredAt(r, x);
      CutStaysClose(Mirrored(a), lt, rb, Mirrored(r), x);
    }
  }

  lemma MirroredAt(a: Axis, x: real)
    requires a.win.len > 0
    ensures AxisAt(Mirrored(a), x) == -AxisAt(a, x)
  {
    var f, n := Fraction(a.win, x), a.crop.len as real;
    assert f * -n == -(f * n);
  }

  /** p and q are less than two source pixels apart in each direction. */
  predicate Close(p: Point, q: Point) { -2.0 < p.u - q.u < 2.0 && -2.0 < p.v - q.v < 2.0 }

  /**
   * In all eight orientations every place of the cropped window, edges included, shows the source place it
   * showed before, to less than two source pixels in each direction.
   */
  lemma CropShowsSamePlaces(c: Cfg, vis: Rect, x: real, y: real)
    requires c.cropX.len >= 0 && c.cropY.len >= 0
    requires CropToRect(c, vis).Some?
    requires var r := CropToRect(c, vis).value; Covers(r.winX, x) && Covers(r.winY, y)
    ensures var r := CropToRect(c, vis).value;
      && c.winX.len > 0 && c.winY.len > 0 && r.winX.len > 0 && r.winY.len > 0
      && Close(SourceAt(r, x, y), SourceAt(c, x, y))
  {
    CropIsFaithful(c, vis);
    var r := CropToRect(c, vis).value;
    assert c.winX.len > 0 && c.winY.len > 0 && r.winX.len > 0 && r.winY.len > 0;
    AxisStaysClose(c.Horizontal(), vis.left, vis.right, r.Horizontal(), x);
    AxisStaysClose(c.Vertical(), vis.top, vis.bottom, r.Vertical(), y);
    AlignedAxesShowSource(c, x, y);
    AlignedAxesShowSource(r, x, y);
  }
}
