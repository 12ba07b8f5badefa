/**
 * Picking the HDMI mode.  Every candidate gets a score packed from seven fields with shifts and ors into one
 * unsigned word; the loop keeps the first best.
 */
module HwcModes {
  import opened Common
  import opened HwcLayers

  // ---- packing ----

  /** Bitwise or of two naturals. */
  function Or(a: nat, b: nat): nat
    decreases a + b
  {
    if a == 0 && b == 0 then 0
    else (if a % 2 == 1 || b % 2 == 1 then 1 else 0) + 2 * Or(a / 2, b / 2)
  }

  function Pow2(k: nat): (p: nat)
    ensures p > 0
  {
    if k == 0 then 1 else 2 * Pow2(k - 1)
  }

  /** (score << k) | v on an unsigned word. */
  function Push(score: nat, k: nat, v: nat): nat { Or(score * Pow2(k) % WORD, v) }

  lemma {:induction false} OrZero(a: nat)
    ensures Or(a, 0) == a && Or(0, a) == a
  {
    if a > 0 { OrZero(a / 2); }
  }

  /** Or-ing a value below 2^k into a word whose low k bits are clear adds it: fields never overlap. */
  lemma {:induction false} OrIsAdd(a: nat, k: nat, v: nat)
    requires v < Pow2(k)
    ensures Or(a * Pow2(k), v) == a * Pow2(k) + v
    decreases k
  {
    if k == 0 {
      OrZero(a);
    } else {
      var p := Pow2(k - 1);
      assert a * Pow2(k) == 2 * (a * p);
      var x := a * p;
      OrIsAdd(a, k - 1, v / 2);
      if 2 * x != 0 || v != 0 {
        assert (2 * x) % 2 == 0 && (2 * x) / 2 == x;
        assert Or(2 * x, v) == (if v % 2 == 1 then 1 else 0) + 2 * Or(x, v / 2);
      }
    }
  }

  lemma Powers()
    ensures Pow2(1) == 2 && Pow2(5) == 32 && Pow2(8) == 256
  {
    assert Pow2(0) == 1;
    assert Pow2(1) == 2;
    assert Pow2(2) == 4;
    assert Pow2(3) == 8;
    assert Pow2(4) == 16;
    assert Pow2(5) == 32;
    assert Pow2(6) == 64;
    assert Pow2(7) == 128;
  }

  lemma PushAdds(score: nat, k: nat, p: nat, v: nat)
    requires p == Pow2(k) && v < p && score * p < WORD
    ensures Push(score, k, v) == score * p + v
  {
    var x := score * p;
    assert score * Pow2(k) % WORD == x;
    OrIsAdd(score, k, v);
  }

  // ---- the fields of a score ----

  /** What a candidate is worth, most significant first. */
  datatype Fields = Fields(cea: nat, upscale: nat, same: nat, scaling: nat, leftover: nat, rateMet: nat, rateRatio: nat) {
    predicate InRange() {
      cea <= 1 && upscale <= 1 && same <= 1 && scaling <= 16 && leftover <= 16 && rateMet <= 1 && rateRatio <= 240
    }
  }

  /** The two initial bits, with `upscale` slipped in behind the first. */
  function TopBits(cea: nat, upscale: nat, same: nat): nat {
    var s0 := Push(cea, 1, same);
    Or(Or(s0 - s0 % 2, upscale) * 2 % WORD, s0 % 2)
  }

  function Append(s1: nat, scaling: nat, leftover: nat, rateMet: nat, rateRatio: nat): nat {
    Push(Push(Push(Push(s1, 5, scaling), 5, leftover), 1, rateMet), 8, rateRatio)
  }

  /** The score as the code builds it. */
  function Score(f: Fields): nat {
    Append(TopBits(f.cea, f.upscale, f.same), f.scaling, f.leftover, f.rateMet, f.rateRatio)
  }

  lemma OrBit(a: nat, v: nat)
    requires v < 2
    ensures Or(a * 2, v) == a * 2 + v
  {
    Powers();
    OrIsAdd(a, 1, v);
  }

  lemma ReplaceLowBit(s0: nat, h: nat, v: nat)
    requires s0 / 2 == h && v <= 1
    ensures Or(s0 - s0 % 2, v) == h * 2 + v
  {
    assert s0 - s0 % 2 == h * 2;
    OrBit(h, v);
  }

  lemma AppendBit(t: nat, v: nat)
    requires t < 4 && v <= 1
    ensures Or(t * 2 % WORD, v) == t * 2 + v
  {
    assert t * 2 % WORD == t * 2;
    OrBit(t, v);
  }

  lemma TopBitsPack(cea: nat, upscale: nat, same: nat)
    requires cea <= 1 && upscale <= 1 && same <= 1
    ensures TopBits(cea, upscale, same) == cea * 4 + upscale * 2 + same
  {
    Powers();
    PushAdds(cea, 1, 2, same);
    var s0 := cea * 2 + same;
    assert s0 / 2 == cea && s0 % 2 == same;
    ReplaceLowBit(s0, cea, upscale);
    AppendBit(cea * 2 + upscale, same);
  }

  lemma AppendPacks(s1: nat, scaling: nat, leftover: nat, rateMet: nat, rateRatio: nat)
    requires s1 < 8 && scaling < 32 && leftover < 32 && rateMet < 2 && rateRatio < 256
    ensures Append(s1, scaling, leftover, rateMet, rateRatio)
         == ((s1 * 32 + scaling) * 32 + leftover) * 512 + rateMet * 256 + rateRatio
  {
    Powers();
    PushAdds(s1, 5, 32, scaling);
    var s2 := s1 * 32 + scaling;
    PushAdds(s2, 5, 32, leftover);
    var s3 := s2 * 32 + leftover;
    PushAdds(s3, 1, 2, rateMet);
    PushAdds(s3 * 2 + rateMet, 8, 256, rateRatio);
  }

  /** The fields read as digits of one number. */
  function Digits(f: Fields): nat {
    ((((f.cea * 2 + f.upscale) * 2 + f.same) * 32 + f.scaling) * 32 + f.leftover) * 512 + f.rateMet * 256 + f.rateRatio
  }

  lemma DigitsBound(f: Fields)
    requires f.InRange()
    ensures Digits(f) < 0x40_0000
  {
  }

  /** The packed word holds every field undisturbed. */
  lemma ScoreIsDigits(f: Fields)
    requires f.InRange()
    ensures Score(f) == Digits(f) < 0x40_0000
  {
    DigitsBound(f);
    TopBitsPack(f.cea, f.upscale, f.same);
    AppendPacks(f.cea * 4 + f.upscale * 2 + f.same, f.scaling, f.leftover, f.rateMet, f.rateRatio);
  }

  /** a is preferred to b: the first field in which they differ decides. */
  predicate Better(a: Fields, b: Fields) {
    if a.cea != b.cea then a.cea > b.cea
    else if a.upscale != b.upscale then a.upscale > b.upscale
    else if a.same != b.same then a.same > b.same
    else if a.scaling != b.scaling then a.scaling > b.scaling
    else if a.leftover != b.leftover then a.leftover > b.leftover
    else if a.rateMet != b.rateMet then a.rateMet > b.rateMet
    else a.rateRatio > b.rateRatio
  }

  lemma DigitsCompare(a: Fields, b: Fields)
    requires a.InRange() && b.InRange()
    ensures Digits(a) > Digits(b) <==> Better(a, b)
    ensures Digits(a) == Digits(b) <==> a == b
  {
  }

  /** Comparing scores is comparing field by field, most significant first. */
  lemma ScoresCompareLexicographically(a: Fields, b: Fields)
    requires a.InRange() && b.InRange()
    ensures Score(a) > Score(b) <==> Better(a, b)
    ensures Score(a) == Score(b) <==> a == b
  {
    ScoreIsDigits(a);
    ScoreIsDigits(b);
    DigitsCompare(a, b);
  }

  // ---- fitting the picture to a screen ----

  /** A factor less the aspect ratio tolerance of 2 percent. */
  function Keep(r: real): real { r * 0.98 }

  datatype Size = Size(x: nat, y: nat)

  /** The largest size with the picture's aspect ratio that fits the screen; a small mismatch is ignored. */
  function MaxDimensions(orig: Size, xpy: real, scr: Size, phys: Size): Size
    requires orig.x > 0 && orig.y > 0 && scr.x > 0 && scr.y > 0 && xpy > 0.0
  {
    var p := if phys.x == 0 || phys.y == 0 then scr else phys;
    var xf := XFactor(orig, xpy, p);
    var yf := YFactor(orig, p);
    if xf < Keep(yf) then Size(Shrunk(xf, yf, scr.x), scr.y)
    else if Keep(xf) > yf then Size(scr.x, Shrunk(yf, xf, scr.y))
    else scr
  }

  function XFactor(orig: Size, xpy: real, p: Size): (r: real)
    requires orig.x > 0 && xpy > 0.0 && p.y > 0
    ensures r > 0.0
  {
    PositiveProduct(orig.x as real, xpy);
    PositiveProduct(orig.x as real * xpy, p.y as real);
    orig.x as real * xpy * p.y as real
  }

  function YFactor(orig: Size, p: Size): (r: real)
    requires orig.y > 0 && p.x > 0
    ensures r > 0.0
  {
    PositiveProduct(orig.y as real, p.x as real);
    orig.y as real * p.x as real
  }

  lemma PositiveProduct(a: real, b: real)
    requires a > 0.0 && b > 0.0
    ensures a * b > 0.0
  {
  }

  /** Shrinking by more than the tolerance and rounding stays within the screen. */
  function Shrunk(small: real, big: real, n: nat): (r: nat)
    requires 0.0 < small < Keep(big) && n > 0
    ensures r <= n
    ensures small * n as real / big - 0.5 < r as real <= small * n as real / big + 0.5
  {
    ShrinkBounds(small, big, n);
    Nearest(small * n as real / big, n)
  }

  function Nearest(v: real, n: nat): (r: nat)
    requires 0.0 < v <= Keep(n as real) && n > 0
    ensures r <= n && v - 0.5 < r as real <= v + 0.5
  {
    assert v + 0.5 < n as real + 1.0;
    (v + 0.5).Floor
  }

  lemma ShrinkBounds(small: real, big: real, n: nat)
    requires 0.0 < small < Keep(big) && n > 0
    ensures big > 0.0 && 0.0 < small * n as real / big <= Keep(n as real)
  {
    var q, k := small / big, n as real;
    Quotient(small, big);
    assert q * big == small;
    assert small * k / big == q * k;
    RealMono(q, 0.98, k);
    PositiveProduct(q, k);
  }

  lemma Quotient(small: real, big: real)
    requires 0.0 < small < Keep(big)
    ensures big > 0.0 && 0.0 < small / big < 0.98
  {
    var q := small / big;
    assert q * big == small;
    if q >= 0.98 { RealMono(0.98, q, big); }
  }

  lemma RealMono(a: real, b: real, k: real)
    requires a <= b && k > 0.0
    ensures a * k <= b * k
  {
    assert (b - a) * k >= 0.0;
  }

  /** The fitted size never exceeds the screen and fills it in at least one direction. */
  lemma FitsScreen(orig: Size, xpy: real, scr: Size, phys: Size)
    requires orig.x > 0 && orig.y > 0 && scr.x > 0 && scr.y > 0 && xpy > 0.0
    ensures var a := MaxDimensions(orig, xpy, scr, phys);
      a.x <= scr.x && a.y <= scr.y && (a.x == scr.x || a.y == scr.y)
  {
  }

  // ---- the candidates ----

  datatype Mode = Mode(xres: nat, yres: nat, refresh: nat, pixclock: nat, vmode: bool, is43: bool, is169: bool, canScale: bool)

  /** The picture to show, the display's physical size, and the mode used for mirroring if it is to be kept. */
  datatype Request = Request(size: Size, xpy: real, phys: Size, keep: Option<nat>)

  /** Resolutions whose areas and scores fit an unsigned word. */
  predicate Ordinary(s: Size) { 0 < s.x < 0x2000 && 0 < s.y < 0x2000 }

  predicate WellPosed(r: Request, modes: seq<Mode>) {
    && Ordinary(r.size) && r.xpy > 0.0
    && forall i :: 0 <= i < |modes| && modes[i].xres > 0 && modes[i].yres > 0 ==> Ordinary(Size(modes[i].xres, modes[i].yres))
  }

  function PhysOf(r: Request, m: Mode): Size {
    if m.is43 then Size(4, 3) else if m.is169 then Size(16, 9) else r.phys
  }

  /** A mode the DSS can drive and scale to. */
  predicate Eligible(m: Mode) {
    m.xres != 0 && m.yres != 0 && m.pixclock != 0 && !m.vmode && m.canScale
  }

  function Area(s: Size): nat { s.x * s.y }

  function Fitted(r: Request, m: Mode): Size
    requires Ordinary(r.size) && r.xpy > 0.0 && m.xres > 0 && m.yres > 0
  {
    MaxDimensions(r.size, r.xpy, Size(m.xres, m.yres), PhysOf(r, m))
  }

  /** A refresh rate one below a multiple of six is taken as that multiple (59 as 60). */
  function Rate(refresh: nat): nat {
    var q := if refresh == 0 then 1 else refresh;
    q + B(q % 6 == 5)
  }

  function ScalingField(area: nat, fit: nat): nat
    requires area > 0
  {
    if fit > area then 16 * area / fit else 16 * fit / area
  }

  function LeftoverField(fit: nat, screen: nat): nat
    requires screen > 0
  {
    (16 * fit + screen / 2) / screen
  }

  function RateField(rate: nat): nat {
    if rate > 60 then 240 * 60 / rate else 240 * rate / 60
  }

  function FieldsOf(r: Request, m: Mode, i: nat): Fields
    requires Ordinary(r.size) && r.xpy > 0.0 && m.xres > 0 && m.yres > 0
  {
    var fit := Fitted(r, m);
    var area, ext, screen := Area(r.size), Area(fit), Area(Size(m.xres, m.yres));
    var rate := Rate(m.refresh);
    Fields(B(m.is43 || m.is169), B(fit.x >= r.size.x * 99 / 100 && fit.y >= r.size.y * 99 / 100), B(r.keep == Some(i)),
           ScalingField(area, ext), LeftoverField(ext, screen), B(rate >= 60), RateField(rate))
  }

  lemma DivAtMost(n: nat, d: nat, q: nat)
    requires d > 0 && n < (q + 1) * d
    ensures n / d <= q
  {
    var t := n / d;
    assert t * d <= n;
    MulOrder(t, q + 1, d);
  }

  lemma MulOrder(a: nat, b: nat, d: nat)
    requires d > 0
    ensures a >= b ==> a * d >= b * d
  {
    if a >= b { assert (a - b) * d >= 0; }
  }

  lemma AreaGrows(a: Size, b: Size)
    requires a.x <= b.x && a.y <= b.y
    ensures Area(a) <= Area(b)
  {
    assert a.x * a.y <= b.x * a.y <= b.x * b.y by {
      assert (b.x - a.x) * a.y >= 0;
      assert b.x * (b.y - a.y) >= 0;
    }
  }

  lemma OrdinaryArea(s: Size)
    requires Ordinary(s)
    ensures 0 < Area(s) < 0x400_0000
  {
    assert (s.x - 1) * s.y >= 0;
    AreaGrows(s, Size(0x1fff, 0x1fff));
  }

  lemma ScalingInRange(area: nat, fit: nat)
    requires area > 0
    ensures ScalingField(area, fit) <= 16
  {
    if fit > area { DivAtMost(16 * area, fit, 16); } else { DivAtMost(16 * fit, area, 16); }
  }

  lemma LeftoverInRange(fit: nat, screen: nat)
    requires fit <= screen && screen > 0
    ensures LeftoverField(fit, screen) <= 16
  {
    DivAtMost(16 * fit + screen / 2, screen, 16);
  }

  lemma RateInRange(rate: nat)
    requires rate > 0
    ensures RateField(rate) <= 240 && (rate < 60 ==> RateField(rate) > 0)
  {
    if rate > 60 { DivAtMost(240 * 60, rate, 240); }
  }

  /** Every field of an ordinary candidate fits its slot, no product leaves the word, and the score is not 0. */
  lemma FieldsFit(r: Request, m: Mode, i: nat)
    requires Ordinary(r.size) && r.xpy > 0.0 && Ordinary(Size(m.xres, m.yres))
    ensures FieldsOf(r, m, i).InRange() && Score(FieldsOf(r, m, i)) > 0
    ensures var fit := Fitted(r, m);
      && 16 * Area(r.size) < WORD && 16 * Area(fit) + Area(Size(m.xres, m.yres)) / 2 < WORD
      && 99 * r.size.x < WORD && 99 * r.size.y < WORD
  {
    var fit, screen := Fitted(r, m), Size(m.xres, m.yres);
    FitsScreen(r.size, r.xpy, screen, PhysOf(r, m));
    AreaGrows(fit, screen);
    OrdinaryArea(screen);
    OrdinaryArea(r.size);
    ScalingInRange(Area(r.size), Area(fit));
    LeftoverInRange(Area(fit), Area(screen));
    RateInRange(Rate(m.refresh));
    ScoreIsDigits(FieldsOf(r, m, i));
  }

  /** Entry i of `cs` holds the fields of mode i if it is eligible. */
  ghost predicate CandidateAt(r: Request, modes: seq<Mode>, cs: seq<Option<Fields>>, i: nat)
    requires WellPosed(r, modes) && i < |modes| == |cs|
  {
    cs[i] == if Eligible(modes[i]) then Some(FieldsOf(r, modes[i], i)) else None
  }

  /** `cs` lists the fields of each eligible mode. */
  ghost predicate AreCandidates(r: Request, modes: seq<Mode>, cs: seq<Option<Fields>>)
    requires WellPosed(r, modes)
  {
    |cs| == |modes| && forall i :: 0 <= i < |modes| ==> CandidateAt(r, modes, cs, i)
  }

  lemma Candidates(r: Request, modes: seq<Mode>) returns (cs: seq<Option<Fields>>)
    requires WellPosed(r, modes)
    ensures AreCandidates(r, modes, cs) && AllFit(cs)
  {
    cs := seq(|modes|, i requires 0 <= i < |modes| => if Eligible(modes[i]) then Some(FieldsOf(r, modes[i], i)) else None);
    forall i | 0 <= i < |modes|
      ensures CandidateAt(r, modes, cs, i)
      ensures cs[i].Some? ==> cs[i].value.InRange() && Score(cs[i].value) > 0
    {
      if Eligible(modes[i]) { FieldsFit(r, modes[i], i); }
    }
  }

  ghost predicate AllFit(cs: seq<Option<Fields>>) {
    forall i :: 0 <= i < |cs| && cs[i].Some? ==> cs[i].value.InRange() && Score(cs[i].value) > 0
  }

  /** The chosen index: the first lexicographic best among the candidates below n, or none if there is none. */
  ghost predicate BestOf(cs: seq<Option<Fields>>, n: nat, best: Option<nat>)
    requires n <= |cs|
  {
    match best
    case None => forall i :: 0 <= i < n ==> cs[i].None?
    case Some(b) =>
      && b < n && cs[b].Some?
      && (forall i :: 0 <= i < n && cs[i].Some? ==> !Better(cs[i].value, cs[b].value))
      && (forall i :: 0 <= i < b && cs[i].Some? ==> Better(cs[b].value, cs[i].value))
  }

  lemma BetterTransitive(a: Fields, b: Fields, c: Fields)
    requires !Better(a, b) && Better(c, b)
    ensures Better(c, a)
  {
  }

  lemma BetterAsymmetric(a: Fields, b: Fields)
    requires Better(a, b)
    ensures !Better(b, a)
  {
  }

  lemma NewBest(cs: seq<Option<Fields>>, n: nat, best: Option<nat>)
    requires n < |cs| && BestOf(cs, n, best) && cs[n].Some?
    requires best.Some? ==> Better(cs[n].value, cs[best.value].value)
    ensures BestOf(cs, n + 1, Some(n))
  {
    var f := cs[n].value;
    forall i | 0 <= i < n && cs[i].Some?
      ensures Better(f, cs[i].value) && !Better(cs[i].value, f)
    {
      BetterTransitive(cs[i].value, cs[best.value].value, f);
      BetterAsymmetric(f, cs[i].value);
    }
  }

  /** The best score so far; an empty choice scores 0. */
  ghost function BestScore(cs: seq<Option<Fields>>, best: Option<nat>): nat
    requires best.Some? ==> best.value < |cs| && cs[best.value].Some?
  {
    if best.None? then 0 else Score(cs[best.value].value)
  }

  /** The score comparison decides which of the old and the new mode is best so far. */
  lemma BetterByScore(cs: seq<Option<Fields>>, n: nat, best: Option<nat>, score: nat)
    requires AllFit(cs) && n < |cs| && BestOf(cs, n, best) && cs[n].Some? && score == Score(cs[n].value)
    ensures if BestScore(cs, best) < score then BestOf(cs, n + 1, Some(n)) else BestOf(cs, n + 1, best)
  {
    if best.Some? {
      ScoresCompareLexicographically(cs[n].value, cs[best.value].value);
    }
    if BestScore(cs, best) < score {
      NewBest(cs, n, best);
    }
  }

  /** The score of mode i, or none if the display cannot use it. */
  method ScoreMode(r: Request, modes: seq<Mode>, i: nat, ghost cs: seq<Option<Fields>>) returns (score: Option<nat>)
    requires WellPosed(r, modes) && AreCandidates(r, modes, cs) && i < |modes|
    ensures score == match cs[i] case None => None case Some(f) => Some(Score(f))
  {
    var m := modes[i];
    assert CandidateAt(r, modes, cs, i);
    if m.xres == 0 || m.yres == 0 {
      return None;
    }
    if m.pixclock == 0 || m.vmode || !m.canScale {
      return None;
    }
    return Some(Score(FieldsOf(r, m, i)));
  }

  /** What the display reports about the timing it uses now. */
  datatype Timings = Timings(size: Size, pixclock: nat, interlaced: bool, canScale: bool)

  /** The current timing can show the picture when no listed mode can. */
  predicate CanStay(t: Timings) { t.pixclock != 0 && !t.interlaced && t.canScale }

  /** The selection loop; `cs` names the candidates' fields in the answer. */
  method SelectBest(r: Request, modes: seq<Mode>, timings: Size)
    returns (best: Option<nat>, screen: Size, phys: Size, ghost cs: seq<Option<Fields>>)
    requires WellPosed(r, modes)
    ensures AreCandidates(r, modes, cs) && BestOf(cs, |modes|, best)
    ensures best.Some? ==> screen == Size(modes[best.value].xres, modes[best.value].yres) && phys == PhysOf(r, modes[best.value])
    ensures best.None? ==> phys == r.phys && screen == timings
  {
    best := None;
    var bestScore := 0;
    screen, phys := timings, r.phys;
    cs := Candidates(r, modes);
    for i := 0 to |modes|
      invariant BestOf(cs, i, best) && bestScore == BestScore(cs, best)
      invariant best.Some? ==> screen == Size(modes[best.value].xres, modes[best.value].yres) && phys == PhysOf(r, modes[best.value])
      invariant best.None? ==> phys == r.phys && screen == timings
    {
      var score := ScoreMode(r, modes, i, cs);
      if score.None? {
        continue;
      }
      BetterByScore(cs, i, best, score.value);
      if bestScore < score.value {
        best, bestScore := Some(i), score.value;
        screen, phys := Size(modes[i].xres, modes[i].yres), PhysOf(r, modes[i]);
      }
    }
  }

  /**
   * Choosing a mode.  An empty picture or timing is refused at once, so the VGA default for an empty timing is never
   * used; without an eligible mode the current timing stays if it can, else the display is refused.
   */
  method SelectMode(r: Request, modes: seq<Mode>, timings: Timings)
    returns (ok: bool, best: Option<nat>, screen: Size, phys: Size, ghost cs: seq<Option<Fields>>)
    requires Area(timings.size) != 0 && Area(r.size) != 0 ==> WellPosed(r, modes)
    ensures ok ==> Area(timings.size) != 0 && Area(r.size) != 0
    ensures Area(timings.size) != 0 && Area(r.size) != 0 ==>
      (ok <==> best.Some? || (timings.pixclock != 0 && !timings.interlaced && timings.canScale))
    ensures Area(timings.size) == 0 || Area(r.size) == 0 ==> best.None?
    ensures Area(timings.size) != 0 && Area(r.size) != 0 ==>
      && AreCandidates(r, modes, cs) && BestOf(cs, |modes|, best)
      && (best.Some? ==>
            screen == Size(modes[best.value].xres, modes[best.value].yres) && phys == PhysOf(r, modes[best.value]))
      && (best.None? ==> screen == timings.size && phys == r.phys)
  {
    if Area(timings.size) == 0 || Area(r.size) == 0 {
      return false, None, timings.size, r.phys, [];
    }
    assert timings.size.x != 0 && timings.size.y != 0; // so the default size is never used
    best, screen, phys, cs := SelectBest(r, modes, timings.size);
    ok := best.Some? || CanStay(timings);
  }
}
