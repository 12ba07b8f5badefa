/** Layers, pixel formats and the per-frame counts of the OMAP4 hardware composer. */
module HwcLayers {
  import opened Common

  const MAX_HW_OVERLAYS := 4
  const NUM_NONSCALING_OVERLAYS := 1
  const MAX_TILER_SLOT := 0x100_0000
  const HW_ALIGN := 32

  datatype Format = RGB565 | RGBX8888 | RGBA8888 | BGRX8888 | BGRA8888 | NV12 | NV12Padded | OtherFormat

  datatype Rect = Rect(left: int, top: int, right: int, bottom: int) {
    function Width(): int { right - left }
    function Height(): int { bottom - top }
  }

  datatype Handle = Handle(format: Format, width: int, height: int, isProtected: bool, dockable: bool)

  datatype Blending = Opaque | Premultiplied | Coverage

  datatype Transform = Transform(flipH: bool, flipV: bool, rot90: bool) {
    predicate Identity() { !flipH && !flipV && !rot90 }
  }

  /** `canScale` is the answer of the display limits check, which is not part of this model. */
  datatype Layer = Layer(handle: Option<Handle>, skip: bool, transform: Transform, blending: Blending,
                         sourceCrop: Rect, displayFrame: Rect, canScale: bool)
  {
    predicate Blended() { blending != Opaque }

    predicate Scaled() {
      var w, h := sourceCrop.Width(), sourceCrop.Height();
      if transform.rot90
      then displayFrame.Width() != h || displayFrame.Height() != w
      else displayFrame.Width() != w || displayFrame.Height() != h
    }

    function Area(): int { displayFrame.Width() * displayFrame.Height() }
  }

  predicate ValidFormat(f: Format) { f != OtherFormat }
  predicate IsRgb(f: Format) { f == BGRA8888 || f == BGRX8888 || f == RGB565 }
  predicate IsBgr(f: Format) { f == RGBX8888 || f == RGBA8888 }
  predicate IsNv12(f: Format) { f == NV12 || f == NV12Padded }

  function Align(x: int): int { (x + HW_ALIGN - 1) / HW_ALIGN * HW_ALIGN }

  function PixelBytes(f: Format): nat { if f == RGB565 then 2 else 4 }

  /** Bytes of TILER slot a one-dimensional buffer takes, as an unsigned word. */
  function Mem1d(h: Handle): (m: nat)
    ensures m < WORD
    ensures IsNv12(h.format) ==> m == 0
  {
    if IsNv12(h.format) then 0 else Align(h.width) * PixelBytes(h.format) * h.height % WORD
  }

  /** Unless it wraps, that is room for every pixel, of two bytes or four, and less than 32 more per row. */
  lemma Mem1dCovers(h: Handle)
    requires h.width >= 0 && h.height >= 0 && !IsNv12(h.format)
    requires Align(h.width) * PixelBytes(h.format) * h.height < WORD
    ensures h.width * (if h.format == RGB565 then 2 else 4) * h.height <= Mem1d(h)
    ensures Mem1d(h) <= (h.width + (HW_ALIGN - 1)) * (if h.format == RGB565 then 2 else 4) * h.height
  {
    var w, a, p := h.width, Align(h.width), PixelBytes(h.format);
    assert w <= a <= w + (HW_ALIGN - 1);
    Grows(w, a, p);
    Grows(a, w + (HW_ALIGN - 1), p);
    Grows(w * p, a * p, h.height);
    Grows(a * p, (w + (HW_ALIGN - 1)) * p, h.height);
  }

  lemma Grows(a: nat, b: nat, k: nat)
    requires a <= b
    ensures 0 <= a * k <= b * k
  {
    assert (b - a) * k >= 0;
  }

  predicate ValidLayer(l: Layer) {
    && !l.skip
    && l.handle.Some?
    && ValidFormat(l.handle.value.format)
    && (!IsNv12(l.handle.value.format) ==> l.transform.Identity() && Mem1d(l.handle.value) <= MAX_TILER_SLOT)
    && l.canScale
  }

  /** Layers the DSS can only show on a scaling (video) pipeline. */
  predicate NeedsVideoPipe(l: Layer)
    requires l.handle.Some?
  {
    l.Scaled() || IsNv12(l.handle.value.format)
  }

  datatype Counts = Counts(possible: nat, scaled: nat, rgb: nat, bgr: nat, nv12: nat, dockable: nat, isProtected: nat, mem: nat)

  function B(b: bool): nat { if b then 1 else 0 }

  /** The counts of a list, defined from its last layer. */
  function Stats(ls: seq<Layer>): Counts {
    if ls == [] then Counts(0, 0, 0, 0, 0, 0, 0, 0)
    else CountLayer(Stats(ls[..|ls| - 1]), ls[|ls| - 1])
  }

  function CountLayer(n: Counts, l: Layer): Counts {
    if !ValidLayer(l) then n
    else
      var h := l.handle.value;
      Counts(n.possible + 1, n.scaled + B(NeedsVideoPipe(l)), n.rgb + B(IsRgb(h.format)), n.bgr + B(IsBgr(h.format)),
             n.nv12 + B(IsNv12(h.format)), n.dockable + B(h.dockable), n.isProtected + B(h.isProtected),
             (n.mem + Mem1d(h)) % WORD)
  }

  /** One-dimensional memory of the valid layers, without wrap-around. */
  function TotalMem(ls: seq<Layer>): nat {
    if ls == [] then 0
    else TotalMem(ls[..|ls| - 1]) + LayerMem(ls[|ls| - 1])
  }

  function LayerMem(l: Layer): nat { if ValidLayer(l) then Mem1d(l.handle.value) else 0 }

  lemma StatsSnoc(ls: seq<Layer>, i: nat)
    requires i < |ls|
    ensures Stats(ls[..i + 1]) == CountLayer(Stats(ls[..i]), ls[i])
  {
    assert ls[..i + 1][..i] == ls[..i];
  }

  method CountOne(n: Counts, l: Layer) returns (r: Counts)
    ensures r == CountLayer(n, l)
  {
    r := n;
    if ValidLayer(l) {
      var h := l.handle.value;
      r := r.(possible := r.possible + 1);
      if l.Scaled() || IsNv12(h.format) { r := r.(scaled := r.scaled + 1); }
      if IsBgr(h.format) { r := r.(bgr := r.bgr + 1); }
      else if IsRgb(h.format) { r := r.(rgb := r.rgb + 1); }
      else if IsNv12(h.format) { r := r.(nv12 := r.nv12 + 1); }
      if h.dockable { r := r.(dockable := r.dockable + 1); }
      if h.isProtected { r := r.(isProtected := r.isProtected + 1); }
      r := r.(mem := (r.mem + Mem1d(h)) % WORD);
    }
  }

  method GatherLayerStatistics(ls: seq<Layer>) returns (n: Counts)
    ensures n == Stats(ls)
  {
    n := Counts(0, 0, 0, 0, 0, 0, 0, 0);
    for i := 0 to |ls|
      invariant n == Stats(ls[..i])
    {
      StatsSnoc(ls, i);
      n := CountOne(n, ls[i]);
    }
    assert ls[..|ls|] == ls;
  }

  lemma ModAdd(a: nat, b: nat)
    ensures (a % WORD + b) % WORD == (a + b) % WORD
  {
    var q, r := a / WORD, a % WORD;
    assert a + b == q * WORD + (r + b);
    var p := (r + b) / WORD;
    assert a + b == (q + p) * WORD + (r + b) % WORD;
  }

  lemma {:induction false} MemIsTotal(ls: seq<Layer>)
    ensures Stats(ls).mem == TotalMem(ls) % WORD
  {
    if ls != [] {
      var front, l := ls[..|ls| - 1], ls[|ls| - 1];
      MemIsTotal(front);
      ModAdd(TotalMem(front), LayerMem(l));
      assert Stats(ls).mem == (Stats(front).mem + LayerMem(l)) % WORD;
    }
  }

  lemma {:induction false} TotalMemBounded(ls: seq<Layer>)
    ensures TotalMem(ls) <= Stats(ls).possible * MAX_TILER_SLOT
  {
    if ls != [] {
      var front, l := ls[..|ls| - 1], ls[|ls| - 1];
      TotalMemBounded(front);
      assert LayerMem(l) <= B(ValidLayer(l)) * MAX_TILER_SLOT;
      assert Stats(ls).possible == Stats(front).possible + B(ValidLayer(l));
    }
  }

  /** The wrapping counter agrees with the true total while at most 4 layers were valid. */
  lemma MemNeverWraps(ls: seq<Layer>)
    ensures Stats(ls).mem == TotalMem(ls) % WORD
    ensures TotalMem(ls) <= Stats(ls).possible * MAX_TILER_SLOT
    ensures Stats(ls).possible <= MAX_HW_OVERLAYS ==> Stats(ls).mem == TotalMem(ls)
  {
    MemIsTotal(ls);
    TotalMemBounded(ls);
  }

  predicate Formats(ls: seq<Layer>, p: Format -> bool) {
    forall i :: 0 <= i < |ls| && ValidLayer(ls[i]) ==> p(ls[i].handle.value.format)
  }

  /** What each count means for the layers of the list. */
  lemma {:induction false} StatsMeaning(ls: seq<Layer>)
    ensures Stats(ls).possible <= |ls|
    ensures Stats(ls).possible == |ls| <==> forall i :: 0 <= i < |ls| ==> ValidLayer(ls[i])
    ensures Stats(ls).nv12 <= Stats(ls).scaled <= Stats(ls).possible
  {
    if ls != [] {
      var n := |ls| - 1;
      StatsMeaning(ls[..n]);
      assert forall i :: 0 <= i < n ==> ls[..n][i] == ls[i];
      assert Stats(ls) == CountLayer(Stats(ls[..n]), ls[n]);
    }
  }

  /** What the format counts mean for the valid layers of the list. */
  lemma {:induction false} FormatCounts(ls: seq<Layer>)
    ensures Stats(ls).bgr == 0 <==> Formats(ls, f => !IsBgr(f))
    ensures Stats(ls).rgb == 0 <==> Formats(ls, f => !IsRgb(f))
    ensures Stats(ls).nv12 <= Stats(ls).possible
    ensures Stats(ls).nv12 == Stats(ls).possible <==> Formats(ls, f => IsNv12(f))
  {
    if ls != [] {
      var n := |ls| - 1;
      FormatCounts(ls[..n]);
      FormatsSnoc(ls, f => !IsBgr(f));
      FormatsSnoc(ls, f => !IsRgb(f));
      FormatsSnoc(ls, f => IsNv12(f));
      assert Stats(ls) == CountLayer(Stats(ls[..n]), ls[n]);
    }
  }

  lemma FormatsSnoc(ls: seq<Layer>, p: Format -> bool)
    requires ls != []
    ensures var n := |ls| - 1;
      Formats(ls, p) <==> Formats(ls[..n], p) && (ValidLayer(ls[n]) ==> p(ls[n].handle.value.format))
  {
    var n := |ls| - 1;
    assert forall i :: 0 <= i < n ==> ls[..n][i] == ls[i];
  }
}
