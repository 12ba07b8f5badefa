/**
 * The preview resizer: every output pixel is filtered from four neighbouring input pixels with integer weights
 * looked up in a table, at a position that advances by a fixed-point step; chroma pairs likewise.
 */
module Resizer {
  import opened Planes

  newtype Uint16 = n: int | 0 <= n < 0x1_0000

  /** Weights by eighths of a pixel across and down: this pixel, right, below right, below. */
  const WEIGHTS: seq<seq<seq<nat>>> := [
    [[64, 0, 0, 0], [56, 0, 0, 8], [48, 0, 0, 16], [40, 0, 0, 24],
     [32, 0, 0, 32], [24, 0, 0, 40], [16, 0, 0, 48], [8, 0, 0, 56]],
    [[56, 8, 0, 0], [49, 7, 1, 7], [42, 6, 2, 14], [35, 5, 3, 21],
     [28, 4, 4, 28], [21, 3, 5, 35], [14, 2, 6, 42], [7, 1, 7, 49]],
    [[48, 16, 0, 0], [42, 14, 2, 6], [36, 12, 4, 12], [30, 10, 6, 18],
     [24, 8, 8, 24], [18, 6, 10, 30], [12, 4, 12, 36], [6, 2, 14, 42]],
    [[40, 24, 0, 0], [35, 21, 3, 5], [30, 18, 6, 10], [25, 15, 9, 15],
     [20, 12, 12, 20], [15, 9, 15, 25], [10, 6, 18, 30], [5, 3, 21, 35]],
    [[32, 32, 0, 0], [28, 28, 4, 4], [24, 24, 8, 8], [20, 20, 12, 12],
     [16, 16, 16, 16], [12, 12, 20, 20], [8, 8, 24, 24], [4, 4, 28, 28]],
    [[24, 40, 0, 0], [21, 35, 5, 3], [18, 30, 10, 6], [15, 25, 15, 9],
     [12, 20, 20, 12], [9, 15, 25, 15], [6, 10, 30, 18], [3, 5, 35, 21]],
    [[16, 48, 0, 0], [14, 42, 6, 2], [12, 36, 12, 4], [10, 30, 18, 6],
     [8, 24, 24, 8], [6, 18, 30, 10], [4, 12, 36, 12], [2, 6, 42, 14]],
    [[8, 56, 0, 0], [7, 49, 7, 1], [6, 42, 14, 2], [5, 35, 21, 3],
     [4, 28, 28, 4], [3, 21, 35, 5], [2, 14, 42, 6], [1, 7, 49, 7]]
  ]

  /** The table's weights are the bilinear ones. */
  lemma WeightsAreBilinear(xf: nat, yf: nat)
    requires xf < 8 && yf < 8
    ensures |WEIGHTS| == 8 && |WEIGHTS[xf]| == 8
    ensures WEIGHTS[xf][yf] == [(8 - xf) * (8 - yf), xf * (8 - yf), xf * yf, (8 - xf) * yf]
  {
  }

  // ---- one pixel ----

  /** 64 times the bilinear interpolation, xf and yf eighths of a pixel right of and below a. */
  function Bilinear(a: int, b: int, c: int, d: int, xf: nat, yf: nat): int {
    (8 - yf) * ((8 - xf) * a + xf * b) + yf * ((8 - xf) * c + xf * d)
  }

  /** It lies between bounds of the four pixels. */
  lemma BilinearBetween(a: int, b: int, c: int, d: int, xf: nat, yf: nat, lo: int, hi: int)
    requires xf < 8 && yf < 8 && lo <= a <= hi && lo <= b <= hi && lo <= c <= hi && lo <= d <= hi
    ensures 64 * lo <= Bilinear(a, b, c, d, xf, yf) <= 64 * hi
  {
    Between(a, b, xf, lo, hi);
    Between(c, d, xf, lo, hi);
    Between((8 - xf) * a + xf * b, (8 - xf) * c + xf * d, yf, 8 * lo, 8 * hi);
  }

  lemma Between(a: int, b: int, f: nat, lo: int, hi: int)
    requires f <= 8 && lo <= a <= hi && lo <= b <= hi
    ensures 8 * lo <= (8 - f) * a + f * b <= 8 * hi
  {
    assert (8 - f) * (a - lo) >= 0 && f * (b - lo) >= 0;
    assert (8 - f) * (hi - a) >= 0 && f * (hi - b) >= 0;
  }

  /** Brighter pixels make a brighter result. */
  lemma BilinearMonotone(a: int, b: int, c: int, d: int, a': int, b': int, c': int, d': int, xf: nat, yf: nat)
    requires xf < 8 && yf < 8 && a <= a' && b <= b' && c <= c' && d <= d'
    ensures Bilinear(a, b, c, d, xf, yf) <= Bilinear(a', b', c', d', xf, yf)
  {
    BilinearBetween(a' - a, b' - b, c' - c, d' - d, xf, yf, 0, (a' - a) + (b' - b) + (c' - c) + (d' - d));
    BilinearDifference(a, b, c, d, a', b', c', d', xf, yf);
  }

  lemma BilinearDifference(a: int, b: int, c: int, d: int, a': int, b': int, c': int, d': int, xf: nat, yf: nat)
    ensures Bilinear(a' - a, b' - b, c' - c, d' - d, xf, yf)
         == Bilinear(a', b', c', d', xf, yf) - Bilinear(a, b, c, d, xf, yf)
  {
  }

  /** On a ramp it is the ramp itself, eight times finer: what the position says is what comes out. */
  lemma BilinearOnRamp(r: int, p: int, q: int, x: int, y: int, xf: nat, yf: nat)
    ensures Bilinear(r + p * x + q * y, r + p * (x + 1) + q * y, r + p * x + q * (y + 1), r + p * (x + 1) + q * (y + 1), xf, yf)
         == 64 * r + 8 * p * (8 * x + xf) + 8 * q * (8 * y + yf)
  {
    var a := r + p * x + q * y;
    assert p * (x + 1) == p * x + p && q * (y + 1) == q * y + q;
    assert (8 - xf) * a + xf * (a + p) == 8 * a + xf * p;
    assert (8 - xf) * (a + q) + xf * (a + p + q) == 8 * a + 8 * q + xf * p;
    assert (8 - yf) * (8 * a + xf * p) + yf * (8 * a + 8 * q + xf * p) == 64 * a + 8 * xf * p + 8 * yf * q;
  }

  /** The filtered value; the 16-bit sum cannot overflow. */
  method Filter(a: Byte, b: Byte, c: Byte, d: Byte, xf: nat, yf: nat) returns (v: Byte)
    requires xf < 8 && yf < 8
    ensures v == Bilinear(a, b, c, d, xf, yf) / 64
  {
    WeightsAreBilinear(xf, yf);
    BilinearBetween(a, b, c, d, xf, yf, 0, 255);
    var w := WEIGHTS[xf][yf];
    SumFits(a, b, c, d, w[0], w[1], w[2], w[3]);
    var accum: Uint16 := (w[0] * a) as Uint16;
    accum := accum + (w[1] * b) as Uint16;
    accum := accum + (w[3] * c) as Uint16;
    accum := accum + (w[2] * d) as Uint16;
    WeightedIsBilinear(a, b, c, d, xf, yf);
    v := accum as int / 64;
  }

  lemma SumFits(a: Byte, b: Byte, c: Byte, d: Byte, w0: nat, w1: nat, w2: nat, w3: nat)
    requires w0 + w1 + w2 + w3 <= 64
    ensures 0 <= w0 * a && 0 <= w1 * b && 0 <= w3 * c && 0 <= w2 * d
    ensures w0 * a + w1 * b + w3 * c + w2 * d <= 64 * 255
  {
    PartFits(a, w0);
    PartFits(b, w1);
    PartFits(c, w3);
    PartFits(d, w2);
  }

  lemma PartFits(v: Byte, w: nat)
    ensures 0 <= w * v <= 255 * w
  {
  }

  lemma WeightedIsBilinear(a: int, b: int, c: int, d: int, xf: nat, yf: nat)
    ensures (8 - xf) * (8 - yf) * a + xf * (8 - yf) * b + (8 - xf) * yf * c + xf * yf * d
         == Bilinear(a, b, c, d, xf, yf)
  {
  }

  // ---- positions ----

  /** The step between output pixels in 512ths of an input pixel. */
  function Step(n: nat, out: nat): nat
    requires n > 0 && out > 0
  {
    (n - 1) * 512 / out
  }

  function Position(k: nat, step: nat): nat { k * step }

  /** Input pixel, and eighth of a pixel beyond it, at a position. */
  function Whole(pos: nat): nat { pos / 512 }
  function Eighths(pos: nat): nat { pos / 64 % 8 }

  /** Every position leaves room for the next pixel, and the product stays below 512 times the size. */
  lemma PositionInside(n: nat, out: nat, k: nat)
    requires n >= 2 && k < out
    ensures Position(k, Step(n, out)) < 512 * (n - 1)
    ensures Whole(Position(k, Step(n, out))) + 1 < n
  {
    var step := Step(n, out);
    FloorTimes((n - 1) * 512, out);
    if k == 0 || step == 0 {
      Zero(k, step);
    } else {
      TimesMonotone(k, out - 1, step);
      Less(out, step);
    }
  }

  lemma FloorTimes(total: nat, out: nat)
    requires out > 0
    ensures total / out * out <= total
  {
  }

  lemma Zero(k: nat, step: nat)
    requires k == 0 || step == 0
    ensures Position(k, step) == 0
  {
  }

  lemma TimesMonotone(k: nat, q: nat, step: nat)
    requires k <= q
    ensures Position(k, step) <= Position(q, step)
  {
    assert (q - k) * step >= 0;
  }

  lemma Less(out: nat, step: nat)
    requires out > 0
    ensures Position(out - 1, step) == step * out - step
  {
  }

  lemma PositionSplits(pos: nat)
    ensures Eighths(pos) < 8 && 8 * Whole(pos) + Eighths(pos) == pos / 64
  {
  }

  // ---- the picture ----

  /** A picture's luma: size, bytes per row and first byte. */
  datatype Image = Image(w: nat, h: nat, stride: nat, offset: nat)

  predicate Inside(len: nat, m: Image) { m.w <= m.stride && Within(len, m.offset, m.stride, m.w, m.h) }

  /** Pixel (x, y). */
  function At(src: seq<Byte>, m: Image, x: nat, y: nat): Byte
    requires Inside(|src|, m) && x < m.w && y < m.h
  {
    RowWithin(|src|, m.offset, m.stride, m.w, m.h, y);
    src[m.offset + Row(m.stride, y) + x]
  }

  /** What output pixel (col, row) should be: the interpolation at its position. */
  function Resized(src: seq<Byte>, m: Image, outW: nat, outH: nat, col: nat, row: nat): int
    requires Inside(|src|, m) && m.w >= 2 && m.h >= 2 && col < outW && row < outH
  {
    PositionInside(m.w, outW, col);
    PositionInside(m.h, outH, row);
    var px, py := Position(col, Step(m.w, outW)), Position(row, Step(m.h, outH));
    var x, y := Whole(px), Whole(py);
    Bilinear(At(src, m, x, y), At(src, m, x + 1, y), At(src, m, x, y + 1), At(src, m, x + 1, y + 1), Eighths(px), Eighths(py))
      / 64
  }

  /** Output pixel (col, row) is in place when its row starts at byte `at`. */
  ghost predicate PixelDone(dst: seq<Byte>, at: nat, src: seq<Byte>, m: Image, outW: nat, outH: nat, col: nat, row: nat)
    requires Inside(|src|, m) && m.w >= 2 && m.h >= 2 && col < outW && row < outH
  {
    at + col < |dst| && dst[at + col] == Resized(src, m, outW, outH, col, row)
  }

  ghost predicate RowDone(dst: seq<Byte>, at: nat, src: seq<Byte>, m: Image, outW: nat, outH: nat, cols: nat, row: nat)
    requires Inside(|src|, m) && m.w >= 2 && m.h >= 2 && cols <= outW && row < outH
  {
    forall col :: 0 <= col < cols ==> PixelDone(dst, at, src, m, outW, outH, col, row)
  }

  ghost predicate RowsDone(dst: seq<Byte>, at: nat, stride: nat, src: seq<Byte>, m: Image, outW: nat, outH: nat, rows: nat)
    requires Inside(|src|, m) && m.w >= 2 && m.h >= 2 && rows <= outH
  {
    rows == 0 || (RowsDone(dst, at, stride, src, m, outW, outH, rows - 1)
                  && RowDone(dst, at + Row(stride, rows - 1), src, m, outW, outH, outW, rows - 1))
  }

  lemma RowStaysDone(was: seq<Byte>, now: seq<Byte>, at: nat, src: seq<Byte>, m: Image, outW: nat, outH: nat, cols: nat, row: nat)
    requires Inside(|src|, m) && m.w >= 2 && m.h >= 2 && cols <= outW && row < outH
    requires RowDone(was, at, src, m, outW, outH, cols, row) && Kept(was, now, 0, at + cols)
    ensures RowDone(now, at, src, m, outW, outH, cols, row)
  {
    forall col | 0 <= col < cols
      ensures PixelDone(now, at, src, m, outW, outH, col, row)
    {
      assert PixelDone(was, at, src, m, outW, outH, col, row);
    }
  }

  lemma {:induction false} RowsStayDone(was: seq<Byte>, now: seq<Byte>, at: nat, stride: nat, src: seq<Byte>, m: Image,
                                        outW: nat, outH: nat, rows: nat)
    requires Inside(|src|, m) && m.w >= 2 && m.h >= 2 && rows <= outH && outW <= stride
    requires RowsDone(was, at, stride, src, m, outW, outH, rows) && Kept(was, now, 0, at + Row(stride, rows))
    ensures RowsDone(now, at, stride, src, m, outW, outH, rows)
  {
    if rows > 0 {
      RowsStayDone(was, now, at, stride, src, m, outW, outH, rows - 1);
      RowStaysDone(was, now, at + Row(stride, rows - 1), src, m, outW, outH, outW, rows - 1);
    }
  }

  /** One output pixel from the two input rows starting at `row1` and `row2`. */
  method ResizePixel(src: array<Byte>, m: Image, row1: nat, row2: nat, yf: nat, stepX: nat, col: nat,
                     ghost outW: nat, ghost outH: nat, ghost row: nat)
    returns (v: Byte)
    requires Inside(src.Length, m) && m.w >= 2 && m.h >= 2 && row < outH && col < outW && stepX == Step(m.w, outW)
    requires RowsAt(m, outH, row, row1, row2, yf)
    ensures v == Resized(src[..], m, outW, outH, col, row)
  {
    PositionInside(m.w, outW, col);
    PositionInside(m.h, outH, row);
    ghost var y := Whole(Position(row, Step(m.h, outH)));
    RowWithin(src.Length, m.offset, m.stride, m.w, m.h, y);
    RowWithin(src.Length, m.offset, m.stride, m.w, m.h, y + 1);
    var pos := Position(col, stepX);
    var x, xf := pos / 512, pos / 64 % 8;
    v := Filter(src[row1 + x], src[row1 + x + 1], src[row2 + x], src[row2 + x + 1], xf, yf);
  }

  /** `row1` and `row2` are where the two input rows for an output row start, `yf` eighths apart from it. */
  ghost predicate RowsAt(m: Image, outH: nat, row: nat, row1: nat, row2: nat, yf: nat)
    requires m.h > 0 && outH > 0
  {
    var py := Position(row, Step(m.h, outH));
    row1 == m.offset + Row(m.stride, Whole(py)) && row2 == row1 + m.stride && yf == Eighths(py)
  }

  method ResizeRow(src: array<Byte>, m: Image, row1: nat, row2: nat, yf: nat, stepX: nat,
                   dst: array<Byte>, d: nat, outW: nat, ghost outH: nat, ghost row: nat)
    requires src != dst && Inside(src.Length, m) && m.w >= 2 && m.h >= 2 && row < outH && outW > 0
    requires d + outW <= dst.Length && stepX == Step(m.w, outW) && RowsAt(m, outH, row, row1, row2, yf)
    modifies dst
    ensures RowDone(dst[..], d, src[..], m, outW, outH, outW, row)
    ensures Kept(old(dst[..]), dst[..], 0, d)
  {
    ghost var start, from := dst[..], src[..];
    for col := 0 to outW
      invariant src[..] == from && Kept(start, dst[..], 0, d)
      invariant RowDone(dst[..], d, from, m, outW, outH, col, row)
    {
      ghost var was := dst[..];
      var v := ResizePixel(src, m, row1, row2, yf, stepX, col, outW, outH, row);
      dst[d + col] := v;
      assert PixelDone(dst[..], d, from, m, outW, outH, col, row);
      RowStaysDone(was, dst[..], d, from, m, outW, outH, col, row);
    }
  }

  /** All rows, written from byte `d` on, `stride` bytes apart. */
  method ResizeRows(src: array<Byte>, m: Image, dst: array<Byte>, d: nat, stride: nat, outW: nat, outH: nat)
    requires src != dst && Inside(src.Length, m) && m.w >= 2 && m.h >= 2 && 0 < outW <= stride && outH > 0
    requires Within(dst.Length, d, stride, outW, outH)
    modifies dst
    ensures RowsDone(dst[..], d, stride, src[..], m, outW, outH, outH)
  {
    var stepX, stepY := (m.w - 1) * 512 / outW, (m.h - 1) * 512 / outH;
    var ptr8 := d;
    ghost var from := src[..];
    for row := 0 to outH
      invariant src[..] == from && ptr8 == d + Row(stride, row)
      invariant RowsDone(dst[..], d, stride, from, m, outW, outH, row)
    {
      RowWithin(dst.Length, d, stride, outW, outH, row);
      ghost var was := dst[..];
      var y, yf := Position(row, stepY) / 512, Position(row, stepY) / 64 % 8;
      RowIs(m.stride, y);
      var row1 := m.offset + m.stride * y;
      ResizeRow(src, m, row1, row1 + m.stride, yf, stepX, dst, ptr8, outW, outH, row);
      RowsStayDone(was, dst[..], d, stride, from, m, outW, outH, row);
      ptr8 := ptr8 + outW;
      ptr8 := ptr8 + (stride - outW);
    }
  }

  /** A rectangle of the output to fill instead of all of it. */
  datatype Crop = Full | Part(x: nat, y: nat, w: nat, h: nat)

  function OutW(o: Image, c: Crop): nat { if c.Full? then o.w else c.w }
  function OutH(o: Image, c: Crop): nat { if c.Full? then o.h else c.h }

  /** Where the output starts: rows above the crop are counted in the output's width, not its stride. */
  function Start(o: Image, c: Crop): nat { if c.Full? then 0 else c.x + c.y * o.w }

  /** The luma half of resizing a frame; refused for an empty input or a format that is not semi-planar. */
  method ResizeLuma(src: array<Byte>, m: Image, formatsOk: bool, dst: array<Byte>, o: Image, crop: Crop) returns (ok: bool)
    requires src != dst && OutW(o, crop) > 0 && OutH(o, crop) > 0
    requires m.w >= 1 && m.h >= 1 && m.stride >= 1 && formatsOk ==>
      && m.w >= 2 && m.h >= 2 && Inside(src.Length, m) && OutW(o, crop) <= o.stride
      && Within(dst.Length, Start(o, crop), o.stride, OutW(o, crop), OutH(o, crop))
    modifies dst
    ensures ok <==> m.w >= 1 && m.h >= 1 && m.stride >= 1 && formatsOk
    ensures ok ==> RowsDone(dst[..], Start(o, crop), o.stride, src[..], m, OutW(o, crop), OutH(o, crop), OutH(o, crop))
    ensures !ok ==> dst[..] == old(dst[..])
  {
    if m.w < 1 || m.h < 1 || m.stride < 1 {
      return false;
    }
    if !formatsOk {
      return false;
    }
    ResizeRows(src, m, dst, Start(o, crop), o.stride, OutW(o, crop), OutH(o, crop));
    return true;
  }

  // ---- what resizing does to a picture ----

  /** All input pixels an output pixel needs are inside the picture exactly when it is at least two pixels across. */
  lemma TapsInsideExactlyWhen(n: nat, out: nat)
    requires n > 0 && out > 0
    ensures (forall k: nat :: k < out ==> Whole(Position(k, Step(n, out))) + 1 < n) <==> n >= 2
  {
    if n >= 2 {
      forall k: nat | k < out
        ensures Whole(Position(k, Step(n, out))) + 1 < n
      {
        PositionInside(n, out, k);
      }
    } else {
      assert Whole(Position(0, Step(n, out))) == 0;
    }
  }

  /** A position is where exact proportion puts it, or less than one 512th of a pixel per step short of it. */
  lemma PositionIsProportional(n: nat, out: nat, k: nat)
    requires n > 0 && k < out
    ensures 0 <= k * ((n - 1) * 512) - Position(k, Step(n, out)) * out
    ensures k > 0 ==> k * ((n - 1) * 512) - Position(k, Step(n, out)) * out < k * out
  {
    var total := (n - 1) * 512;
    RestTimes(total / out, out, total % out, k);
    assert total == total / out * out + total % out;
  }

  lemma RestTimes(step: nat, out: nat, rest: nat, k: nat)
    requires rest < out
    ensures var lag := k * (step * out + rest) - Position(k, step) * out;
      0 <= lag && (k > 0 ==> lag < k * out)
  {
    Distributes(k, step * out, rest);
    Associates(k, step, out);
    if k > 0 { StrictlyLess(k, rest, out); }
  }

  lemma Distributes(k: nat, a: nat, b: nat)
    ensures k * (a + b) == k * a + k * b && k * b >= 0
  {
  }

  lemma Associates(a: nat, b: nat, c: nat)
    ensures a * (b * c) == a * b * c
  {
  }

  lemma StrictlyLess(k: nat, a: nat, b: nat)
    requires k > 0 && a < b
    ensures k * a < k * b
  {
    assert k * (b - a) > 0;
  }

  /** Nothing gets darker than the darkest or brighter than the brightest pixel; a flat picture stays flat. */
  lemma ResizedStaysInRange(src: seq<Byte>, m: Image, outW: nat, outH: nat, col: nat, row: nat, lo: Byte, hi: Byte)
    requires Inside(|src|, m) && m.w >= 2 && m.h >= 2 && col < outW && row < outH
    requires forall x, y :: 0 <= x < m.w && 0 <= y < m.h ==> lo <= At(src, m, x, y) <= hi
    ensures lo <= Resized(src, m, outW, outH, col, row) <= hi
  {
    PositionInside(m.w, outW, col);
    PositionInside(m.h, outH, row);
    var px, py := Position(col, Step(m.w, outW)), Position(row, Step(m.h, outH));
    var x, y := Whole(px), Whole(py);
    BilinearBetween(At(src, m, x, y), At(src, m, x + 1, y), At(src, m, x, y + 1), At(src, m, x + 1, y + 1),
                    Eighths(px), Eighths(py), lo, hi);
  }

  /** Resizing a linear ramp samples it: the output is its value at the position, to an eighth of a pixel, rounded down. */
  lemma ResizedRampIsSampled(src: seq<Byte>, m: Image, outW: nat, outH: nat, col: nat, row: nat, r: int, p: int, q: int)
    requires Inside(|src|, m) && m.w >= 2 && m.h >= 2 && col < outW && row < outH
    requires forall x, y :: 0 <= x < m.w && 0 <= y < m.h ==> At(src, m, x, y) == r + p * x + q * y
    ensures var ex, ey := Position(col, Step(m.w, outW)) / 64, Position(row, Step(m.h, outH)) / 64;
      Resized(src, m, outW, outH, col, row) == (64 * r + 8 * p * ex + 8 * q * ey) / 64
  {
    PositionInside(m.w, outW, col);
    PositionInside(m.h, outH, row);
    var px, py := Position(col, Step(m.w, outW)), Position(row, Step(m.h, outH));
    PositionSplits(px);
    PositionSplits(py);
    BilinearOnRamp(r, p, q, Whole(px), Whole(py), Eighths(px), Eighths(py));
  }

  /** A crop lands on the rows it names exactly when it starts in the first row or rows have no padding. */
  lemma CropPlacedExactlyWhen(o: Image, c: Crop, row: nat, col: nat)
    requires c.Part?
    ensures Start(o, c) + Row(o.stride, row) + col == Row(o.stride, c.y + row) + c.x + col
       <==> c.y == 0 || o.w == o.stride
  {
    RowSum(o.stride, c.y, row);
    RowIs(o.stride, c.y);
    if c.y * o.w == o.stride * c.y {
      if c.y > 0 { SameFactor(c.y, o.w, o.stride); }
    }
  }

  lemma SameFactor(k: nat, a: nat, b: nat)
    requires k > 0 && k * a == k * b
    ensures a == b
  {
    assert k * (a - b) == 0;
  }

  // ---- the chroma half ----

  /**
   * Chroma pairs are filtered at the luma's positions, over half as many outputs.  All pairs they need are inside a
   * plane half the size exactly when the last position leaves room for the next pair; the same for rows and columns.
   */
  lemma ChromaTapsInsideExactlyWhen(n: nat, out: nat)
    requires n > 0 && out > 0
    ensures (forall k: nat :: k < out / 2 ==> Whole(Position(k, Step(n, out))) + 1 < n / 2)
       <==> out / 2 == 0 || (n / 2 > 0 && Position(out / 2 - 1, Step(n, out)) < 512 * (n / 2 - 1))
  {
    var step := Step(n, out);
    if out / 2 > 0 {
      var last := out / 2 - 1;
      if n / 2 > 0 && Position(last, step) < 512 * (n / 2 - 1) {
        forall k: nat | k < out / 2
          ensures Whole(Position(k, step)) + 1 < n / 2
        {
          TimesMonotone(k, last, step);
        }
      } else {
        assert Whole(Position(last, step)) + 1 >= n / 2;
      }
    }
  }

  /** Enlarging four rows to 64 needs a third of the two chroma rows; enlarging them to five does not. */
  lemma ChromaReadsPastItsPlane()
    ensures var h, out, row := 4, 64, 31;
      row < out / 2 && Whole(Position(row, Step(h, out))) + 1 >= h / 2
    ensures forall k: nat :: k < 5 / 2 ==> Whole(Position(k, Step(4, 5))) + 1 < 4 / 2
  {
    ChromaTapsInsideExactlyWhen(4, 5);
  }

  /** The bytes a chroma filter reads at a position exist. */
  predicate Readable(len: nat, base: nat, stride: nat, px: nat, py: nat) {
    base + Row(stride, Whole(py) + 1) + 2 * Whole(px) + 3 < len
  }

  predicate AllReadable(len: nat, base: nat, stride: nat, stepX: nat, stepY: nat, cols: nat, rows: nat) {
    forall col: nat, row: nat :: col < cols && row < rows ==> Readable(len, base, stride, Position(col, stepX), Position(row, stepY))
  }

  /** One chroma channel, `c` bytes into its pairs, interpolated between neighbouring pairs. */
  function ChromaAt(src: seq<Byte>, base: nat, stride: nat, c: nat, px: nat, py: nat): int
    requires Readable(|src|, base, stride, px, py) && c < 2
  {
    var i, j := base + Row(stride, Whole(py)) + 2 * Whole(px) + c, base + Row(stride, Whole(py) + 1) + 2 * Whole(px) + c;
    Bilinear(src[i], src[i + 2], src[j], src[j + 2], Eighths(px), Eighths(py)) / 64
  }

  /** Where the input comes from: first pair, bytes per row, and the steps of the luma. */
  datatype Source = Source(base: nat, stride: nat, stepX: nat, stepY: nat)

  ghost predicate PairDone(dst: seq<Byte>, at: nat, src: seq<Byte>, m: Source, col: nat, row: nat) {
    var px, py := Position(col, m.stepX), Position(row, m.stepY);
    && Readable(|src|, m.base, m.stride, px, py)
    && at + 2 * col + 1 < |dst|
    && dst[at + 2 * col] == ChromaAt(src, m.base, m.stride, 0, px, py)
    && dst[at + 2 * col + 1] == ChromaAt(src, m.base, m.stride, 1, px, py)
  }

  ghost predicate PairsDone(dst: seq<Byte>, at: nat, src: seq<Byte>, m: Source, cols: nat, row: nat) {
    forall col: nat :: col < cols ==> PairDone(dst, at, src, m, col, row)
  }

  ghost predicate PairRowsDone(dst: seq<Byte>, at: nat, pitch: nat, src: seq<Byte>, m: Source, cols: nat, rows: nat) {
    rows == 0 || (PairRowsDone(dst, at, pitch, src, m, cols, rows - 1)
                  && PairsDone(dst, at + Row(pitch, rows - 1), src, m, cols, rows - 1))
  }

  lemma PairsStayDone(was: seq<Byte>, now: seq<Byte>, at: nat, src: seq<Byte>, m: Source, cols: nat, row: nat)
    requires PairsDone(was, at, src, m, cols, row) && Kept(was, now, 0, at + 2 * cols)
    ensures PairsDone(now, at, src, m, cols, row)
  {
    forall col: nat | col < cols
      ensures PairDone(now, at, src, m, col, row)
    {
      assert PairDone(was, at, src, m, col, row);
    }
  }

  lemma {:induction false} PairRowsStayDone(was: seq<Byte>, now: seq<Byte>, at: nat, pitch: nat, src: seq<Byte>, m: Source,
                                            cols: nat, rows: nat)
    requires PairRowsDone(was, at, pitch, src, m, cols, rows) && 2 * cols <= pitch
    requires Kept(was, now, 0, at + Row(pitch, rows))
    ensures PairRowsDone(now, at, pitch, src, m, cols, rows)
  {
    if rows > 0 {
      PairRowsStayDone(was, now, at, pitch, src, m, cols, rows - 1);
      PairsStayDone(was, now, at + Row(pitch, rows - 1), src, m, cols, rows - 1);
    }
  }

  method FilterPair(src: array<Byte>, m: Source, row1: nat, row2: nat, yf: nat, col: nat, ghost row: nat)
    returns (cb: Byte, cr: Byte)
    requires Readable(src.Length, m.base, m.stride, Position(col, m.stepX), Position(row, m.stepY))
    requires row1 == m.base + Row(m.stride, Whole(Position(row, m.stepY))) && row2 == row1 + m.stride
    requires yf == Eighths(Position(row, m.stepY))
    ensures cb == ChromaAt(src[..], m.base, m.stride, 0, Position(col, m.stepX), Position(row, m.stepY))
    ensures cr == ChromaAt(src[..], m.base, m.stride, 1, Position(col, m.stepX), Position(row, m.stepY))
  {
    var pos := Position(col, m.stepX);
    var x, xf := pos / 512 * 2, pos / 64 % 8;
    cb := Filter(src[row1 + x], src[row1 + x + 2], src[row2 + x], src[row2 + x + 2], xf, yf);
    cr := Filter(src[row1 + x + 1], src[row1 + x + 3], src[row2 + x + 1], src[row2 + x + 3], xf, yf);
  }

  method ResizePairs(src: array<Byte>, m: Source, row1: nat, row2: nat, yf: nat, dst: array<Byte>, d: nat, cols: nat,
                     ghost row: nat, ghost rows: nat)
    requires src != dst && row < rows && AllReadable(src.Length, m.base, m.stride, m.stepX, m.stepY, cols, rows)
    requires d + 2 * cols <= dst.Length
    requires row1 == m.base + Row(m.stride, Whole(Position(row, m.stepY))) && row2 == row1 + m.stride
    requires yf == Eighths(Position(row, m.stepY))
    modifies dst
    ensures PairsDone(dst[..], d, src[..], m, cols, row)
    ensures Kept(old(dst[..]), dst[..], 0, d)
  {
    ghost var start, from := dst[..], src[..];
    for col := 0 to cols
      invariant src[..] == from && Kept(start, dst[..], 0, d)
      invariant PairsDone(dst[..], d, from, m, col, row)
    {
      assert Readable(src.Length, m.base, m.stride, Position(col, m.stepX), Position(row, m.stepY));
      ghost var was := dst[..];
      var cb, cr := FilterPair(src, m, row1, row2, yf, col, row);
      dst[d + 2 * col] := cb;
      dst[d + 2 * col + 1] := cr;
      PairsStayDone(was, dst[..], d, from, m, col, row);
      assert PairDone(dst[..], d, from, m, col, row);
    }
  }

  /**
   * The chroma half, on whatever bytes its taps reach.  Rows advance by the stride less the width plus the bytes
   * written, so by one byte less than the stride for an odd width.
   */
  method ResizeChroma(src: array<Byte>, m: Source, dst: array<Byte>, d: nat, stride: nat, outW: nat, outH: nat)
    requires src != dst && outW <= stride
    requires AllReadable(src.Length, m.base, m.stride, m.stepX, m.stepY, outW / 2, outH / 2)
    requires Within(dst.Length, d, stride - outW % 2, 2 * (outW / 2), outH / 2)
    modifies dst
    ensures PairRowsDone(dst[..], d, stride - outW % 2, src[..], m, outW / 2, outH / 2)
  {
    var ptr := d;
    ghost var from, pitch := src[..], stride - outW % 2;
    for row := 0 to outH / 2
      invariant src[..] == from && ptr == d + Row(pitch, row)
      invariant PairRowsDone(dst[..], d, pitch, from, m, outW / 2, row)
    {
      RowWithin(dst.Length, d, pitch, 2 * (outW / 2), outH / 2, row);
      ghost var was := dst[..];
      var y, yf := Position(row, m.stepY) / 512, Position(row, m.stepY) / 64 % 8;
      RowIs(m.stride, y);
      var row1 := m.base + m.stride * y;
      ResizePairs(src, m, row1, row1 + m.stride, yf, dst, ptr, outW / 2, row, outH / 2);
      PairRowsStayDone(was, dst[..], d, pitch, from, m, outW / 2, row);
      ptr := ptr + 2 * (outW / 2);
      ptr := ptr + (stride - outW);
    }
  }

  /** Both halves of resizing a frame, the planes in buffers of their own. */
  method ResizeFrame(srcY: array<Byte>, srcC: array<Byte>, m: Image, formatsOk: bool, dstY: array<Byte>, dstC: array<Byte>,
                     o: Image, crop: Crop)
    returns (ok: bool)
    requires srcY != dstY && srcY != dstC && srcC != dstC && srcC != dstY && dstY != dstC
    requires OutW(o, crop) > 0 && OutH(o, crop) > 0
    requires m.w >= 1 && m.h >= 1 && m.stride >= 1 && formatsOk ==>
      && m.w >= 2 && m.h >= 2 && Inside(srcY.Length, m) && OutW(o, crop) <= o.stride
      && Within(dstY.Length, Start(o, crop), o.stride, OutW(o, crop), OutH(o, crop))
      && var c := ChromaSource(m, o, crop);
         && AllReadable(srcC.Length, c.base, c.stride, c.stepX, c.stepY, OutW(o, crop) / 2, OutH(o, crop) / 2)
         && Within(dstC.Length, Start(o, crop), o.stride - OutW(o, crop) % 2, 2 * (OutW(o, crop) / 2), OutH(o, crop) / 2)
    modifies dstY, dstC
    ensures ok <==> m.w >= 1 && m.h >= 1 && m.stride >= 1 && formatsOk
    ensures ok ==>
      && RowsDone(dstY[..], Start(o, crop), o.stride, srcY[..], m, OutW(o, crop), OutH(o, crop), OutH(o, crop))
      && PairRowsDone(dstC[..], Start(o, crop), o.stride - OutW(o, crop) % 2, srcC[..], ChromaSource(m, o, crop),
                      OutW(o, crop) / 2, OutH(o, crop) / 2)
    ensures !ok ==> dstY[..] == old(dstY[..]) && dstC[..] == old(dstC[..])
  {
    ok := ResizeLuma(srcY, m, formatsOk, dstY, o, crop);
    if ok {
      ResizeChroma(srcC, ChromaSource(m, o, crop), dstC, Start(o, crop), o.stride, OutW(o, crop), OutH(o, crop));
    }
  }

  function ChromaSource(m: Image, o: Image, c: Crop): Source
    requires m.w > 0 && m.h > 0 && OutW(o, c) > 0 && OutH(o, c) > 0
  {
    Source(m.offset / 2, m.stride, Step(m.w, OutW(o, c)), Step(m.h, OutH(o, c)))
  }

  /** When the taps stay inside a half-size plane, the plane's own bytes are all the chroma half reads. */
  lemma PlaneIsEnough(m: Image, o: Image, c: Crop, len: nat)
    requires m.w > 0 && m.h > 0 && OutW(o, c) > 0 && OutH(o, c) > 0
    requires Within(len, m.offset / 2, m.stride, 2 * (m.w / 2), m.h / 2)
    requires forall k: nat :: k < OutW(o, c) / 2 ==> Whole(Position(k, Step(m.w, OutW(o, c)))) + 1 < m.w / 2
    requires forall k: nat :: k < OutH(o, c) / 2 ==> Whole(Position(k, Step(m.h, OutH(o, c)))) + 1 < m.h / 2
    ensures var s := ChromaSource(m, o, c);
      AllReadable(len, s.base, s.stride, s.stepX, s.stepY, OutW(o, c) / 2, OutH(o, c) / 2)
  {
    var s := ChromaSource(m, o, c);
    forall col: nat, row: nat | col < OutW(o, c) / 2 && row < OutH(o, c) / 2
      ensures Readable(len, s.base, s.stride, Position(col, s.stepX), Position(row, s.stepY))
    {
      RowWithin(len, m.offset / 2, m.stride, 2 * (m.w / 2), m.h / 2, Whole(Position(row, s.stepY)) + 1);
      assert Whole(Position(col, s.stepX)) + 1 < m.w / 2;
    }
  }
}
