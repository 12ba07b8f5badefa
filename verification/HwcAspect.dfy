/**
 * What a fitted picture and the fields of a mode's score are worth: the picture keeps its shape to half a pixel,
 * and each field is a rounded measure of one thing.
 */
module HwcAspect {
  import opened Common
  import opened HwcLayers
  import opened HwcModes

  /** The screen's physical shape, taken from its pixels if the display gives none. */
  function Shape(scr: Size, phys: Size): Size { if phys.x == 0 || phys.y == 0 then scr else phys }

  /** The width of the picture for each unit of its height, in units of the screen's own width and height: a fraction. */
  datatype Ratio = Ratio(wide: real, high: real)

  function PictureRatio(orig: Size, xpy: real, shape: Size): Ratio {
    Ratio(orig.x as real * xpy * shape.y as real, orig.y as real * shape.x as real)
  }

  /** x of n is part to whole, to half a pixel. */
  ghost predicate ToHalfAPixel(x: nat, n: nat, part: real, whole: real) {
    -0.5 * whole < x as real * whole - part * n as real <= 0.5 * whole
  }

  lemma RoundedShare(r: nat, n: nat, small: real, big: real)
    requires big > 0.0
    requires small * n as real / big - 0.5 < r as real <= small * n as real / big + 0.5
    ensures ToHalfAPixel(r, n, small, big)
  {
    var t := small * n as real;
    var q := t / big;
    assert q * big == t;
    var lo, hi := HalfAway(q, t, big);
    Multiplied(q - 0.5, r as real, q + 0.5, big);
    assert lo < r as real * big <= hi;
  }

  lemma HalfAway(q: real, t: real, k: real) returns (lo: real, hi: real)
    requires q * k == t
    ensures lo == (q - 0.5) * k == t - 0.5 * k && hi == (q + 0.5) * k == t + 0.5 * k
  {
    lo, hi := (q - 0.5) * k, (q + 0.5) * k;
  }

  lemma Multiplied(a: real, b: real, c: real, k: real)
    requires a < b <= c && k > 0.0
    ensures a * k < b * k <= c * k
  {
    PositiveProduct(b - a, k);
    assert (b - a) * k == b * k - a * k;
    RealMono(b, c, k);
  }

  lemma ShrunkShare(n: nat, small: real, big: real)
    requires 0.0 < small < Keep(big) && n > 0
    ensures ToHalfAPixel(Shrunk(small, big, n), n, small, big)
  {
    var r := Shrunk(small, big, n);
    ShrinkBounds(small, big, n);
    RoundedShare(r, n, small, big);
  }

  /**
   * a fills the screen in one direction and has the picture's own aspect ratio to half a pixel in the other; a
   * mismatch within the tolerance is stretched over the whole screen.
   */
  ghost predicate KeepsAspect(orig: Size, xpy: real, scr: Size, phys: Size, a: Size) {
    var s := PictureRatio(orig, xpy, Shape(scr, phys));
    if s.wide < 0.98 * s.high then a.y == scr.y && ToHalfAPixel(a.x, scr.x, s.wide, s.high)
    else if 0.98 * s.wide > s.high then a.x == scr.x && ToHalfAPixel(a.y, scr.y, s.high, s.wide)
    else a == scr
  }

  lemma FitKeepsAspect(orig: Size, xpy: real, scr: Size, phys: Size)
    requires orig.x > 0 && orig.y > 0 && scr.x > 0 && scr.y > 0 && xpy > 0.0
    ensures KeepsAspect(orig, xpy, scr, phys, MaxDimensions(orig, xpy, scr, phys))
  {
    var p := Shape(scr, phys);
    var xf, yf := XFactor(orig, xpy, p), YFactor(orig, p);
    if xf < Keep(yf) {
      ShrunkShare(scr.x, xf, yf);
    } else if Keep(xf) > yf {
      ShrunkShare(scr.y, yf, xf);
    }
  }

  // ---- the fields ----

  /** q of n is the share of part in whole, rounded down. */
  predicate RoundedDown(q: nat, n: nat, part: nat, whole: nat) { q * whole <= n * part < (q + 1) * whole }

  /** q of n is the share of part in whole, rounded to the nearest. */
  predicate RoundedNearest(q: nat, n: nat, part: nat, whole: nat) {
    2 * (q * whole) <= 2 * (n * part) + whole && 2 * (n * part) <= 2 * (q * whole) + whole
  }

  /** The physical shape a mode is used with: its own flag's if it has one. */
  predicate ShapeOf(p: Size, r: Request, m: Mode) {
    if m.is43 then p == Size(4, 3) else p == if m.is169 then Size(16, 9) else r.phys
  }

  /** The rate a mode counts for: at least 1, and a multiple of six instead of one less. */
  predicate CountsAs(refresh: nat, rate: nat) {
    rate > 0 && rate % 6 != 5 && (rate == refresh || (refresh == 0 && rate == 1) || (rate == refresh + 1 && rate % 6 == 0))
  }

  function Larger(a: nat, b: nat): nat { if a > b then a else b }

  function Smaller(a: nat, b: nat): nat { if a > b then b else a }

  /** How little the area is scaled, in sixteenths, and how much of the screen is filled, to the nearest sixteenth. */
  ghost predicate AreasMean(size: Size, fit: Size, screen: Size, f: Fields) {
    var area, filled := size.x * size.y, fit.x * fit.y;
    && RoundedDown(f.scaling, 16, Smaller(area, filled), Larger(area, filled))
    && RoundedNearest(f.leftover, 16, filled, screen.x * screen.y)
  }

  /**
   * Field by field: a mode of the consumer standard; a picture not shrunk by more than one percent; the mode in
   * use; the areas; sixty pictures a second; and how close the rate is to that, in two hundred and fortieths.
   */
  ghost predicate FieldsMean(r: Request, m: Mode, i: nat, fit: Size, rate: nat, f: Fields) {
    && f.cea <= 1 && (f.cea == 1 <==> m.is43 || m.is169)
    && f.upscale <= 1 && (f.upscale == 1 <==> 100 * (fit.x + 1) > 99 * r.size.x && 100 * (fit.y + 1) > 99 * r.size.y)
    && f.same <= 1 && (f.same == 1 <==> r.keep == Some(i))
    && AreasMean(r.size, fit, Size(m.xres, m.yres), f)
    && f.rateMet <= 1 && (f.rateMet == 1 <==> rate >= 60)
    && RoundedDown(f.rateRatio, 240, Smaller(rate, 60), Larger(rate, 60))
  }

  lemma DivBounds(n: nat, d: nat)
    requires d > 0
    ensures n / d * d <= n < (n / d + 1) * d
  {
    var q := n / d;
    assert n == q * d + n % d;
    assert (q + 1) * d == q * d + d;
  }

  lemma ScalingMeans(area: nat, filled: nat)
    requires area > 0
    ensures RoundedDown(ScalingField(area, filled), 16, Smaller(area, filled), Larger(area, filled))
  {
    if filled > area {
      DivBounds(16 * area, filled);
    } else {
      DivBounds(16 * filled, area);
    }
  }

  lemma LeftoverMeans(filled: nat, screen: nat)
    requires screen > 0
    ensures RoundedNearest(LeftoverField(filled, screen), 16, filled, screen)
  {
    var n, q := 16 * filled + screen / 2, LeftoverField(filled, screen);
    DivBounds(n, screen);
    assert (q + 1) * screen == q * screen + screen;
  }

  lemma RateMeans(rate: nat)
    requires rate > 0
    ensures RoundedDown(RateField(rate), 240, Smaller(rate, 60), Larger(rate, 60))
  {
    if rate > 60 {
      DivBounds(240 * 60, rate);
    } else {
      DivBounds(240 * rate, 60);
    }
  }

  lemma UpscaleMeans(fit: nat, size: nat)
    ensures fit >= size * 99 / 100 <==> 100 * (fit + 1) > 99 * size
  {
  }

  lemma RateCounts(refresh: nat)
    ensures CountsAs(refresh, Rate(refresh))
  {
  }

  lemma PositiveArea(s: Size)
    requires s.x > 0 && s.y > 0
    ensures Area(s) > 0
  {
    assert (s.x - 1) * s.y >= 0;
  }

  lemma AreasMeasure(size: Size, fit: Size, screen: Size, f: Fields)
    requires size.x > 0 && size.y > 0 && screen.x > 0 && screen.y > 0
    requires Area(size) > 0 ==> f.scaling == ScalingField(Area(size), Area(fit))
    requires Area(screen) > 0 ==> f.leftover == LeftoverField(Area(fit), Area(screen))
    ensures AreasMean(size, fit, screen, f)
  {
    PositiveArea(size);
    PositiveArea(screen);
    ScalingMeans(Area(size), Area(fit));
    LeftoverMeans(Area(fit), Area(screen));
  }

  /** The fields of every mode mean what they are there for, with the shape and the rate the mode counts for. */
  lemma FieldsMeasure(r: Request, m: Mode, i: nat)
    requires Ordinary(r.size) && r.xpy > 0.0 && m.xres > 0 && m.yres > 0
    ensures ShapeOf(PhysOf(r, m), r, m) && CountsAs(m.refresh, Rate(m.refresh))
    ensures FieldsMean(r, m, i, Fitted(r, m), Rate(m.refresh), FieldsOf(r, m, i))
  {
    var fit, f := Fitted(r, m), FieldsOf(r, m, i);
    UpscaleMeans(fit.x, r.size.x);
    UpscaleMeans(fit.y, r.size.y);
    RateCounts(m.refresh);
    RateMeans(Rate(m.refresh));
    AreasMeasure(r.size, fit, Size(m.xres, m.yres), f);
  }

  /** The fitted size of a mode has the picture's aspect ratio on a screen of the mode's shape. */
  lemma ModeKeepsAspect(r: Request, m: Mode, shape: Size)
    requires Ordinary(r.size) && r.xpy > 0.0 && m.xres > 0 && m.yres > 0 && ShapeOf(shape, r, m)
    ensures KeepsAspect(r.size, r.xpy, Size(m.xres, m.yres), shape, Fitted(r, m))
  {
    FitKeepsAspect(r.size, r.xpy, Size(m.xres, m.yres), PhysOf(r, m));
  }

  /** What makes a mode unusable. */
  predicate Unusable(m: Mode) { m.xres == 0 || m.yres == 0 || m.pixclock == 0 || m.vmode || !m.canScale }

  /** The chosen mode is usable; when none is chosen, none is. */
  lemma ChosenIsUsable(r: Request, modes: seq<Mode>, cs: seq<Option<Fields>>, best: Option<nat>)
    requires WellPosed(r, modes) && AreCandidates(r, modes, cs) && BestOf(cs, |modes|, best)
    ensures best.Some? ==> best.value < |modes| && !Unusable(modes[best.value])
    ensures best.None? ==> forall i :: 0 <= i < |modes| ==> Unusable(modes[i])
  {
    if best.Some? {
      assert CandidateAt(r, modes, cs, best.value);
    } else {
      forall i | 0 <= i < |modes|
        ensures Unusable(modes[i])
      {
        assert CandidateAt(r, modes, cs, i);
      }
    }
  }
}
