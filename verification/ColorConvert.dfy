/**
 * Conversions between planar I420 and the semi-planar layout of decoder and encoder (luma plane, then one plane of
 * interleaved chroma pairs), on byte buffers addressed through moving offsets.
 */
module ColorConvert {

  import opened Planes

  // ---- rows ----

  /** Column c when taking every byte, or the first byte of every pair. */
  function At(pairs: bool, c: nat): nat { if pairs then 2 * c else c }

  ghost predicate SameByte(a: seq<Byte>, i: nat, b: seq<Byte>, j: nat, pairs: bool, c: nat) {
    i + c < |a| && j + At(pairs, c) < |b| && a[i + c] == b[j + At(pairs, c)]
  }

  /** n bytes of a from offset i on are the bytes, or every other byte, of b from offset j on. */
  ghost predicate SameRow(a: seq<Byte>, i: nat, b: seq<Byte>, j: nat, pairs: bool, n: nat) {
    forall c :: 0 <= c < n ==> SameByte(a, i, b, j, pairs, c)
  }

  /** The same for `rows` rows, `p` bytes apart in a and `q` in b. */
  ghost predicate SameRows(a: seq<Byte>, i: nat, p: nat, b: seq<Byte>, j: nat, q: nat, pairs: bool, n: nat, rows: nat) {
    rows == 0 || (SameRows(a, i, p, b, j, q, pairs, n, rows - 1)
                  && SameRow(a, i + Row(p, rows - 1), b, j + Row(q, rows - 1), pairs, n))
  }

  lemma {:induction false} SameRowAt(a: seq<Byte>, i: nat, p: nat, b: seq<Byte>, j: nat, q: nat, pairs: bool, n: nat,
                                     rows: nat, r: nat)
    requires SameRows(a, i, p, b, j, q, pairs, n, rows) && r < rows
    ensures SameRow(a, i + Row(p, r), b, j + Row(q, r), pairs, n)
  {
    if r < rows - 1 { SameRowAt(a, i, p, b, j, q, pairs, n, rows - 1, r); }
  }

  lemma RowStays(was: seq<Byte>, now: seq<Byte>, i: nat, b: seq<Byte>, j: nat, pairs: bool, n: nat)
    requires SameRow(was, i, b, j, pairs, n) && Kept(was, now, i, i + n)
    ensures SameRow(now, i, b, j, pairs, n)
  {
    forall c | 0 <= c < n
      ensures SameByte(now, i, b, j, pairs, c)
    {
      assert SameByte(was, i, b, j, pairs, c);
    }
  }

  lemma SourceRowStays(a: seq<Byte>, i: nat, was: seq<Byte>, now: seq<Byte>, j: nat, n: nat)
    requires SameRow(a, i, was, j, true, n) && Kept(was, now, j, j + 2 * n - 1)
    ensures SameRow(a, i, now, j, true, n)
  {
    forall c | 0 <= c < n
      ensures SameByte(a, i, now, j, true, c)
    {
      assert SameByte(a, i, was, j, true, c);
    }
  }

  /** Rows of a stay the same when only bytes outside of them change. */
  lemma {:induction false} RowsStay(was: seq<Byte>, now: seq<Byte>, i: nat, p: nat, b: seq<Byte>, j: nat, q: nat,
                                    pairs: bool, n: nat, rows: nat)
    requires SameRows(was, i, p, b, j, q, pairs, n, rows) && n <= p
    requires Kept(was, now, i, i + Row(p, rows))
    ensures SameRows(now, i, p, b, j, q, pairs, n, rows)
  {
    if rows > 0 {
      RowStays(was, now, i + Row(p, rows - 1), b, j + Row(q, rows - 1), pairs, n);
      RowsStay(was, now, i, p, b, j, q, pairs, n, rows - 1);
    }
  }

  /** The same when b, read in pairs, is the buffer that changes. */
  lemma {:induction false} SourceRowsStay(a: seq<Byte>, i: nat, p: nat, was: seq<Byte>, now: seq<Byte>, j: nat, q: nat,
                                          n: nat, rows: nat)
    requires SameRows(a, i, p, was, j, q, true, n, rows) && 2 * n <= q
    requires Kept(was, now, j, j + Row(q, rows) - 1)
    ensures SameRows(a, i, p, now, j, q, true, n, rows)
  {
    if rows > 0 {
      SourceRowStays(a, i + Row(p, rows - 1), was, now, j + Row(q, rows - 1), n);
      SourceRowsStay(a, i, p, was, now, j, q, n, rows - 1);
    }
  }

  /** Two planes read off the same rows are the same plane. */
  lemma {:induction false} SameSource(a: seq<Byte>, i: nat, p: nat, a': seq<Byte>, i': nat, p': nat,
                                      b: seq<Byte>, j: nat, q: nat, pairs: bool, n: nat, rows: nat)
    requires SameRows(a, i, p, b, j, q, pairs, n, rows) && SameRows(a', i', p', b, j, q, pairs, n, rows)
    ensures SameRows(a, i, p, a', i', p', false, n, rows)
  {
    if rows > 0 {
      SameSource(a, i, p, a', i', p', b, j, q, pairs, n, rows - 1);
      var k, k', l := i + Row(p, rows - 1), i' + Row(p', rows - 1), j + Row(q, rows - 1);
      forall c | 0 <= c < n
        ensures SameByte(a, k, a', k', false, c)
      {
        assert SameByte(a, k, b, l, pairs, c) && SameByte(a', k', b, l, pairs, c);
      }
    }
  }

  lemma {:induction false} Flip(a: seq<Byte>, i: nat, p: nat, b: seq<Byte>, j: nat, q: nat, n: nat, rows: nat)
    requires SameRows(a, i, p, b, j, q, false, n, rows)
    ensures SameRows(b, j, q, a, i, p, false, n, rows)
  {
    if rows > 0 {
      Flip(a, i, p, b, j, q, n, rows - 1);
      var k, l := i + Row(p, rows - 1), j + Row(q, rows - 1);
      forall c | 0 <= c < n
        ensures SameByte(b, l, a, k, false, c)
      {
        assert SameByte(a, k, b, l, false, c);
      }
    }
  }

  /** Rows without gaps cover the whole plane. */
  lemma WholePlane(a: seq<Byte>, b: seq<Byte>, i: nat, p: nat, rows: nat, k: nat)
    requires SameRows(a, i, p, b, i, p, false, p, rows) && i <= k < i + Row(p, rows)
    ensures k < |a| && k < |b| && a[k] == b[k]
  {
    var r, c := RowOf(p, rows, k - i);
    SameRowAt(a, i, p, b, i, p, false, p, rows, r);
    assert SameByte(a, i + Row(p, r), b, i + Row(p, r), false, c);
  }

  // ---- the two layouts ----

  predicate Even(n: int) { n % 2 == 0 }

  /** Where the planes of a planar picture start: luma at 0, then u and v. */
  function UPlane(w: nat, h: nat): nat { Row(w, h) }
  function VPlane(w: nat, h: nat): nat { Row(w, h) + Row(w / 2, h / 2) }
  function PlanarSize(w: nat, h: nat): nat { Row(w, h) + 2 * Row(w / 2, h / 2) }

  /** Luma takes one byte for each pixel, then u and v follow with one for each block of four. */
  lemma PlanesFollow(w: nat, h: nat)
    ensures UPlane(w, h) == w * h && VPlane(w, h) == w * h + w / 2 * (h / 2) && PlanarSize(w, h) == w * h + 2 * (w / 2 * (h / 2))
  {
    RowIs(w, h);
    RowIs(w / 2, h / 2);
  }

  /** Where the decoder's conversion starts to read chroma pairs. */
  function ChromaStart(w: nat, h: nat, left: nat, top: nat): nat
    requires top / 2 <= h
  {
    Row(w, top) + left + Row(w, h - top / 2)
  }

  /** The planar picture `a` of w by h is the semi-planar picture `b`, w' wide, read from `luma` and `chroma` on. */
  ghost predicate Picture(a: seq<Byte>, w: nat, h: nat, b: seq<Byte>, w': nat, luma: nat, chroma: nat) {
    && SameRows(a, 0, w, b, luma, w', false, w, h)
    && SplitOff(a, UPlane(w, h), VPlane(w, h), w / 2, b, chroma, w', w / 2, h / 2)
  }

  // ---- loops over rows ----

  method CopyRow(src: array<Byte>, s: nat, dst: array<Byte>, d: nat, n: nat)
    requires src != dst && s + n <= src.Length && d + n <= dst.Length
    modifies dst
    ensures SameRow(dst[..], d, src[..], s, false, n)
    ensures Kept(old(dst[..]), dst[..], 0, d)
  {
    forall c | 0 <= c < n {
      dst[d + c] := src[s + c];
    }
  }

  /** What one more row of n bytes, written after y rows, leaves behind. */
  lemma RowAdded(was: seq<Byte>, now: seq<Byte>, i: nat, p: nat, b: seq<Byte>, j: nat, q: nat,
                 pairs: bool, n: nat, y: nat)
    requires SameRows(was, i, p, b, j, q, pairs, n, y) && n <= p
    requires Kept(was, now, 0, i + Row(p, y))
    requires SameRow(now, i + Row(p, y), b, j + Row(q, y), pairs, n)
    ensures SameRows(now, i, p, b, j, q, pairs, n, y + 1)
  {
    RowsStay(was, now, i, p, b, j, q, pairs, n, y);
  }

  /** Copies rows of n bytes between buffers of different strides. */
  method CopyRows(src: array<Byte>, s: nat, sStride: nat, dst: array<Byte>, d: nat, dStride: nat, n: nat, rows: nat)
    requires src != dst && n <= dStride
    requires Within(src.Length, s, sStride, n, rows) && Within(dst.Length, d, dStride, n, rows)
    modifies dst
    ensures SameRows(dst[..], d, dStride, src[..], s, sStride, false, n, rows)
  {
    var ps, pd := s, d;
    ghost var from := src[..];
    for y := 0 to rows
      invariant ps == s + Row(sStride, y) && pd == d + Row(dStride, y) && src[..] == from
      invariant SameRows(dst[..], d, dStride, from, s, sStride, false, n, y)
    {
      RowWithin(src.Length, s, sStride, n, rows, y);
      RowWithin(dst.Length, d, dStride, n, rows, y);
      ghost var was := dst[..];
      CopyRow(src, ps, dst, pd, n);
      RowAdded(was, dst[..], d, dStride, from, s, sStride, false, n, y);
      ps, pd := ps + sStride, pd + dStride;
    }
  }

  /** Takes a row of chroma pairs apart. */
  method SplitRow(src: array<Byte>, s: nat, dst: array<Byte>, u: nat, v: nat, n: nat)
    requires src != dst && s + 2 * n <= src.Length && u <= v && v + n <= dst.Length
    modifies dst
    ensures u + n <= v ==> SameRow(dst[..], u, src[..], s, true, n)
    ensures u + n <= v ==> SameRow(dst[..], v, src[..], s + 1, true, n)
    ensures Kept(old(dst[..]), dst[..], 0, u) && Kept(old(dst[..]), dst[..], u + n, v)
  {
    ghost var start, from := dst[..], src[..];
    for x := 0 to n
      invariant src[..] == from
      invariant u + n <= v ==> SameRow(dst[..], u, from, s, true, x)
      invariant u + n <= v ==> SameRow(dst[..], v, from, s + 1, true, x)
      invariant Kept(start, dst[..], 0, u) && Kept(start, dst[..], u + n, v)
    {
      ghost var was := dst[..];
      dst[u + x] := src[s + 2 * x];
      dst[v + x] := src[s + 2 * x + 1];
      if u + n <= v {
        RowStays(was, dst[..], u, from, s, true, x);
        RowStays(was, dst[..], v, from, s + 1, true, x);
      }
    }
  }

  /** Two planes are what rows of chroma pairs hold. */
  ghost predicate SplitOff(a: seq<Byte>, u: nat, v: nat, p: nat, b: seq<Byte>, j: nat, q: nat, n: nat, rows: nat) {
    SameRows(a, u, p, b, j, q, true, n, rows) && SameRows(a, v, p, b, j + 1, q, true, n, rows)
  }

  lemma SplitAdded(was: seq<Byte>, now: seq<Byte>, u: nat, v: nat, stride: nat,
                   b: seq<Byte>, s: nat, sStride: nat, n: nat, y: nat)
    requires n <= stride && u + Row(stride, y) + n <= v
    requires SplitOff(was, u, v, stride, b, s, sStride, n, y)
    requires Kept(was, now, 0, u + Row(stride, y)) && Kept(was, now, u + Row(stride, y) + n, v + Row(stride, y))
    requires SameRow(now, u + Row(stride, y), b, s + Row(sStride, y), true, n)
    requires SameRow(now, v + Row(stride, y), b, s + Row(sStride, y) + 1, true, n)
    ensures SplitOff(now, u, v, stride, b, s, sStride, n, y + 1)
  {
    RowsStay(was, now, u, stride, b, s, sStride, true, n, y);
    RowsStay(was, now, v, stride, b, s + 1, sStride, true, n, y);
  }

  /** Row y of the pairs; rows before it stay split off if the planes do not overlap. */
  method SplitOne(src: array<Byte>, s: nat, ghost s0: nat, ghost sStride: nat, dst: array<Byte>, u: nat, ghost u0: nat,
                  v: nat, ghost v0: nat, ghost stride: nat, n: nat, ghost y: nat)
    requires src != dst && s + 2 * n <= src.Length && v + n <= dst.Length && u0 <= v0
    requires s == s0 + Row(sStride, y) && u == u0 + Row(stride, y) && v == v0 + Row(stride, y)
    modifies dst
    ensures n <= stride && u + n <= v0 && old(SplitOff(dst[..], u0, v0, stride, src[..], s0, sStride, n, y)) ==>
      SplitOff(dst[..], u0, v0, stride, src[..], s0, sStride, n, y + 1)
    ensures Kept(old(dst[..]), dst[..], 0, u0)
  {
    ghost var was, from := dst[..], src[..];
    SplitRow(src, s, dst, u, v, n);
    assert src[..] == from;
    if n <= stride && u + n <= v0 && SplitOff(was, u0, v0, stride, from, s0, sStride, n, y) {
      SplitAdded(was, dst[..], u0, v0, stride, from, s0, sStride, n, y);
    }
  }

  /** Takes rows of chroma pairs apart into two planes; the planes come out whole if they do not overlap. */
  method SplitRows(src: array<Byte>, s: nat, sStride: nat, dst: array<Byte>, u: nat, v: nat, stride: nat, n: nat, rows: nat)
    requires src != dst && u <= v
    requires Within(src.Length, s, sStride, 2 * n, rows) && Within(dst.Length, v, stride, n, rows)
    modifies dst
    ensures n <= stride && u + Row(stride, rows) <= v ==> SplitOff(dst[..], u, v, stride, src[..], s, sStride, n, rows)
    ensures Kept(old(dst[..]), dst[..], 0, u)
  {
    var ps, pu, pv := s, u, v;
    ghost var start, from := dst[..], src[..];
    for y := 0 to rows
      invariant ps == s + Row(sStride, y) && pu == u + Row(stride, y) && pv == v + Row(stride, y) && src[..] == from
      invariant n <= stride && u + Row(stride, rows) <= v ==> SplitOff(dst[..], u, v, stride, from, s, sStride, n, y)
      invariant Kept(start, dst[..], 0, u)
    {
      RowWithin(src.Length, s, sStride, 2 * n, rows, y);
      RowWithin(dst.Length, v, stride, n, rows, y);
      RowsApart(stride, y, rows);
      SplitOne(src, ps, s, sStride, dst, pu, u, pv, v, stride, n, y);
      ps, pu, pv := ps + sStride, pu + stride, pv + stride;
    }
  }

  /** Puts a row of chroma pairs together. */
  method JoinRow(src: array<Byte>, u: nat, v: nat, dst: array<Byte>, d: nat, n: nat)
    requires src != dst && u + n <= src.Length && v + n <= src.Length && d + 2 * n <= dst.Length
    modifies dst
    ensures SameRow(src[..], u, dst[..], d, true, n) && SameRow(src[..], v, dst[..], d + 1, true, n)
    ensures Kept(old(dst[..]), dst[..], 0, d)
  {
    ghost var start, from := dst[..], src[..];
    var k := 0;
    for j := 0 to n
      invariant k == 2 * j && src[..] == from
      invariant SameRow(from, u, dst[..], d, true, j) && SameRow(from, v, dst[..], d + 1, true, j)
      invariant Kept(start, dst[..], 0, d)
    {
      ghost var was := dst[..];
      dst[d + k] := src[u + j];
      dst[d + k + 1] := src[v + j];
      SourceRowStays(from, u, was, dst[..], d, j);
      SourceRowStays(from, v, was, dst[..], d + 1, j);
      k := k + 2;
    }
  }

  lemma JoinAdded(was: seq<Byte>, now: seq<Byte>, d: nat, dStride: nat, b: seq<Byte>, u: nat, v: nat, stride: nat,
                  n: nat, y: nat)
    requires 2 * n <= dStride
    requires SplitOff(b, u, v, stride, was, d, dStride, n, y)
    requires Kept(was, now, 0, d + Row(dStride, y))
    requires SameRow(b, u + Row(stride, y), now, d + Row(dStride, y), true, n)
    requires SameRow(b, v + Row(stride, y), now, d + Row(dStride, y) + 1, true, n)
    ensures SplitOff(b, u, v, stride, now, d, dStride, n, y + 1)
  {
    SourceRowsStay(b, u, stride, was, now, d, dStride, n, y);
    SourceRowsStay(b, v, stride, was, now, d + 1, dStride, n, y);
  }

  /** Row y of the pairs; rows before it stay. */
  method JoinOne(src: array<Byte>, u: nat, ghost u0: nat, v: nat, ghost v0: nat, ghost stride: nat,
                 dst: array<Byte>, d: nat, ghost d0: nat, ghost dStride: nat, n: nat, ghost y: nat)
    requires src != dst && u + n <= src.Length && v + n <= src.Length && d + 2 * n <= dst.Length && 2 * n <= dStride
    requires u == u0 + Row(stride, y) && v == v0 + Row(stride, y) && d == d0 + Row(dStride, y)
    requires SplitOff(src[..], u0, v0, stride, dst[..], d0, dStride, n, y)
    modifies dst
    ensures SplitOff(src[..], u0, v0, stride, dst[..], d0, dStride, n, y + 1)
    ensures Kept(old(dst[..]), dst[..], 0, d0)
  {
    ghost var was, from := dst[..], src[..];
    JoinRow(src, u, v, dst, d, n);
    assert src[..] == from;
    JoinAdded(was, dst[..], d0, dStride, from, u0, v0, stride, n, y);
  }

  /** Puts two planes together into rows of chroma pairs. */
  method JoinRows(src: array<Byte>, u: nat, v: nat, stride: nat, dst: array<Byte>, d: nat, dStride: nat, n: nat, rows: nat)
    requires src != dst && u <= v && 2 * n <= dStride
    requires Within(src.Length, v, stride, n, rows) && Within(dst.Length, d, dStride, 2 * n, rows)
    modifies dst
    ensures SplitOff(src[..], u, v, stride, dst[..], d, dStride, n, rows)
    ensures Kept(old(dst[..]), dst[..], 0, d)
  {
    var pu, pv, pd := u, v, d;
    ghost var start, from := dst[..], src[..];
    for y := 0 to rows
      invariant pu == u + Row(stride, y) && pv == v + Row(stride, y) && pd == d + Row(dStride, y) && src[..] == from
      invariant SplitOff(from, u, v, stride, dst[..], d, dStride, n, y)
      invariant Kept(start, dst[..], 0, d)
    {
      RowWithin(src.Length, v, stride, n, rows, y);
      RowWithin(dst.Length, d, dStride, 2 * n, rows, y);
      JoinOne(src, pu, u, pv, v, stride, dst, pd, d, dStride, n, y);
      pu, pv, pd := pu + stride, pv + stride, pd + dStride;
    }
  }

  // ---- the conversions ----

  datatype Crop = Crop(left: nat, top: nat, right: nat, bottom: nat) {
    function W(): int { right - left + 1 }
    function H(): int { bottom - top + 1 }
  }

  /** What the decoder's conversion reads and writes lies inside the buffers. */
  predicate Fits(srcLen: nat, w: nat, h: nat, r: Crop, dstLen: nat)
    requires r.left <= r.right && r.top <= r.bottom < h
  {
    var dw, dh := r.W(), r.H();
    && Within(srcLen, Row(w, r.top) + r.left, w, dw, dh)
    && Within(srcLen, ChromaStart(w, h, r.left, r.top), w, 2 * ((dw + 1) / 2), (dh + 1) / 2)
    && Within(dstLen, 0, dw, dw, dh)
    && Within(dstLen, VStart(dw, dh), dw / 2, (dw + 1) / 2, (dh + 1) / 2)
  }

  /** Where the decoder's conversion writes the v plane: the right place for an even height. */
  function VStart(w: nat, h: nat): (v: nat)
    ensures v >= UPlane(w, h)
    ensures Even(h) ==> v == VPlane(w, h)
  {
    RowIs(w / 2, h / 2);
    Row(w, h) + w / 2 * h / 2
  }

  /** For an even size the planes lie end to end and come out whole. */
  lemma DecodedPicture(a: seq<Byte>, w: nat, h: nat, b: seq<Byte>, w': nat, luma: nat, chroma: nat)
    requires SameRows(a, 0, w, b, luma, w', false, w, h)
    requires (w + 1) / 2 <= w / 2 && UPlane(w, h) + Row(w / 2, (h + 1) / 2) <= VStart(w, h) ==>
      SplitOff(a, UPlane(w, h), VStart(w, h), w / 2, b, chroma, w', (w + 1) / 2, (h + 1) / 2)
    ensures Even(w) && Even(h) ==> Picture(a, w, h, b, w', luma, chroma)
  {
    if Even(w) && Even(h) {
      assert (w + 1) / 2 == w / 2 && (h + 1) / 2 == h / 2;
    }
  }

  method SourceOffsets(w: nat, h: nat, left: nat, top: nat) returns (y: nat, uv: nat)
    requires top / 2 <= h
    ensures y == Row(w, top) + left && uv == ChromaStart(w, h, left, top)
  {
    RowIs(w, top);
    RowIs(w, h - top / 2);
    y := w * top + left;
    uv := y + w * (h - top / 2);
  }

  method DestinationOffsets(w: nat, h: nat) returns (u: nat, v: nat)
    ensures u == UPlane(w, h) && v == VStart(w, h)
  {
    RowIs(w, h);
    u := w * h;
    v := u + w / 2 * h / 2;
  }

  /**
   * Crops a decoded frame out of its semi-planar buffer.  The luma always comes out right; so do both chroma
   * planes for an even size.
   */
  method ConvertDecoderOutputToI420(src: array<Byte>, w: nat, h: nat, r: Crop, dst: array<Byte>)
    requires src != dst && r.left <= r.right && r.top <= r.bottom < h && r.right < w
    requires Fits(src.Length, w, h, r, dst.Length)
    modifies dst
    ensures SameRows(dst[..], 0, r.W(), src[..], Row(w, r.top) + r.left, w, false, r.W(), r.H())
    ensures Even(r.W()) && Even(r.H()) ==>
      Picture(dst[..], r.W(), r.H(), src[..], w, Row(w, r.top) + r.left, ChromaStart(w, h, r.left, r.top))
  {
    var dstWidth, dstHeight := r.right - r.left + 1, r.bottom - r.top + 1;
    var srcY, srcUv := SourceOffsets(w, h, r.left, r.top);
    var dstU, dstV := DestinationOffsets(dstWidth, dstHeight);
    CopyRows(src, srcY, w, dst, 0, dstWidth, dstWidth, dstHeight);
    ghost var was, from := dst[..], src[..];
    SplitRows(src, srcUv, w, dst, dstU, dstV, dstWidth / 2, (dstWidth + 1) / 2, (dstHeight + 1) / 2);
    assert src[..] == from;
    RowsStay(was, dst[..], 0, dstWidth, from, srcY, w, false, dstWidth, dstHeight);
    DecodedPicture(dst[..], dstWidth, dstHeight, from, w, srcY, srcUv);
  }

  /** Lays a planar picture out for the encoder, in a buffer that may be larger. */
  method ConvertI420ToEncoderInput(src: array<Byte>, w: nat, h: nat, dw: nat, dh: nat, dst: array<Byte>)
    requires src != dst && w <= dw && h <= dh && PlanarSize(w, h) <= src.Length
    requires Row(dw, dh) + Row(dw, dh / 2) <= dst.Length
    modifies dst
    ensures Picture(src[..], w, h, dst[..], dw, 0, Row(dw, dh))
  {
    CopyLuma(src, w, h, dw, dh, dst);
    var srcU, srcV, dstUv := EncoderOffsets(w, h, dw, dh);
    ghost var was, from := dst[..], src[..];
    if h / 2 > 0 {
      RowsApart(w / 2, h / 2 - 1, h / 2);
      RowsApart(dw, h / 2 - 1, dh / 2);
    }
    JoinRows(src, srcU, srcV, w / 2, dst, dstUv, dw, w / 2, h / 2);
    assert src[..] == from;
    RowsApart(dw, h, dh);
    RowsStay(was, dst[..], 0, dw, from, 0, w, false, w, h);
    Flip(dst[..], 0, dw, from, 0, w, w, h);
  }

  method CopyLuma(src: array<Byte>, w: nat, h: nat, dw: nat, dh: nat, dst: array<Byte>)
    requires src != dst && w <= dw && h <= dh && Row(w, h) <= src.Length && Row(dw, dh) <= dst.Length
    modifies dst
    ensures SameRows(dst[..], 0, dw, src[..], 0, w, false, w, h)
  {
    if h > 0 {
      RowsApart(w, h - 1, h);
      RowsApart(dw, h - 1, dh);
    }
    CopyRows(src, 0, w, dst, 0, dw, w, h);
  }

  method EncoderOffsets(w: nat, h: nat, dw: nat, dh: nat) returns (srcU: nat, srcV: nat, dstUv: nat)
    ensures srcU == UPlane(w, h) && srcV == VPlane(w, h) && dstUv == Row(dw, dh)
  {
    RowIs(w, h);
    RowIs(w / 2, h / 2);
    RowIs(dw, dh);
    srcU := w * h;
    srcV := srcU + w / 2 * (h / 2);
    dstUv := dw * dh;
  }

  // ---- what the conversions mean ----

  datatype Pixel = Pixel(luma: Byte, u: Byte, v: Byte)

  ghost predicate Has(buf: seq<Byte>, luma: nat, u: nat, v: nat, p: Pixel) {
    && luma < |buf| && u < |buf| && v < |buf|
    && Pixel(buf[luma], buf[u], buf[v]) == p
  }

  /** The bytes of pixel (x, y) in a planar picture; four pixels share their chroma. */
  ghost predicate PlanarHas(a: seq<Byte>, w: nat, h: nat, x: nat, y: nat, p: Pixel) {
    var c := Row(w / 2, y / 2) + x / 2;
    Has(a, Row(w, y) + x, UPlane(w, h) + c, VPlane(w, h) + c, p)
  }

  /** The bytes of pixel (x, y) in a semi-planar picture. */
  ghost predicate SemiPlanarHas(b: seq<Byte>, w: nat, h: nat, x: nat, y: nat, p: Pixel) {
    var c := Row(w, h) + Row(w, y / 2) + 2 * (x / 2);
    Has(b, Row(w, y) + x, c, c + 1, p)
  }

  /** Chroma is read from the pair of the crop's first pixel exactly when the crop starts at an even place. */
  lemma ChromaAlignedExactlyWhen(w: nat, h: nat, left: nat, top: nat)
    requires left < w && top < h
    ensures ChromaStart(w, h, left, top) == Row(w, h) + Row(w, top / 2) + left / 2 * 2 <==> Even(left) && Even(top)
  {
    RowSum(w, top / 2, top - top / 2);
    RowSum(w, top - top / 2, h - top / 2);
    RowSum(w, h, top - top / 2 - top / 2);
    RowSum(w, h - top / 2, top / 2);
    var extra := top - top / 2 - top / 2;
    assert Row(w, extra) == if Even(top) then 0 else w by {
      if Even(top) { assert extra == 0; } else { assert extra == 1; }
    }
    RowSum(w, top / 2, extra);
  }

  /** Where pixel (left + x, top + y) of a semi-planar picture is, seen from an even place (left, top). */
  lemma PixelPlace(w: nat, left: nat, top: nat, x: nat, y: nat)
    requires Even(left) && Even(top)
    ensures Row(w, top + y) + (left + x) == Row(w, top) + left + Row(w, y) + x
    ensures Row(w, (top + y) / 2) + 2 * ((left + x) / 2) == Row(w, top / 2) + left + Row(w, y / 2) + 2 * (x / 2)
  {
    Halves(left, x);
    Halves(top, y);
    RowSum(w, top, y);
    RowSum(w, top / 2, y / 2);
  }

  /** Pixel (x, y) of a picture taken from an even place is pixel (left + x, top + y) of the source. */
  lemma PixelsMatch(a: seq<Byte>, w: nat, h: nat, b: seq<Byte>, w': nat, h': nat, left: nat, top: nat,
                    luma: nat, chroma: nat, x: nat, y: nat, p: Pixel)
    requires Picture(a, w, h, b, w', luma, chroma)
    requires luma == Row(w', top) + left && chroma == Row(w', h') + Row(w', top / 2) + left
    requires Even(w) && Even(h) && Even(left) && Even(top) && x < w && y < h
    ensures PlanarHas(a, w, h, x, y, p) <==> SemiPlanarHas(b, w', h', left + x, top + y, p)
  {
    PixelBytes(a, w, h, b, w', luma, chroma, x, y, p);
    ElsewhereIs(b, w', h', left, top, luma, chroma, x, y, p);
  }

  /** Cropping an even rectangle takes exactly its pixels, luma and chroma. */
  lemma CropTakesPixels(a: seq<Byte>, b: seq<Byte>, w: nat, h: nat, r: Crop, x: nat, y: nat, p: Pixel)
    requires r.left <= r.right < w && r.top <= r.bottom < h
    requires Even(r.left) && Even(r.top) && Even(r.W()) && Even(r.H()) && x < r.W() && y < r.H()
    requires Picture(a, r.W(), r.H(), b, w, Row(w, r.top) + r.left, ChromaStart(w, h, r.left, r.top))
    ensures PlanarHas(a, r.W(), r.H(), x, y, p) <==> SemiPlanarHas(b, w, h, r.left + x, r.top + y, p)
  {
    ChromaAlignedExactlyWhen(w, h, r.left, r.top);
    PixelsMatch(a, r.W(), r.H(), b, w, h, r.left, r.top, Row(w, r.top) + r.left, ChromaStart(w, h, r.left, r.top), x, y, p);
  }

  /** Laying a picture out for the encoder moves no pixel. */
  lemma EncoderShowsPixels(a: seq<Byte>, w: nat, h: nat, b: seq<Byte>, dw: nat, dh: nat, x: nat, y: nat, p: Pixel)
    requires Picture(a, w, h, b, dw, 0, Row(dw, dh)) && Even(w) && Even(h) && x < w && y < h
    ensures PlanarHas(a, w, h, x, y, p) <==> SemiPlanarHas(b, dw, dh, x, y, p)
  {
    PixelsMatch(a, w, h, b, dw, dh, 0, 0, 0, Row(dw, dh), x, y, p);
  }

  lemma ElsewhereIs(b: seq<Byte>, w: nat, h: nat, left: nat, top: nat, luma: nat, chroma: nat, x: nat, y: nat, p: Pixel)
    requires luma == Row(w, top) + left && chroma == Row(w, h) + Row(w, top / 2) + left
    requires Even(left) && Even(top)
    ensures var d := chroma + Row(w, y / 2) + 2 * (x / 2);
      SemiPlanarHas(b, w, h, left + x, top + y, p) <==> Has(b, luma + Row(w, y) + x, d, d + 1, p)
  {
    PixelPlace(w, left, top, x, y);
  }

  lemma PixelBytes(a: seq<Byte>, w: nat, h: nat, b: seq<Byte>, w': nat, luma: nat, chroma: nat, x: nat, y: nat, p: Pixel)
    requires Picture(a, w, h, b, w', luma, chroma) && Even(w) && Even(h) && x < w && y < h
    ensures var d := chroma + Row(w', y / 2) + 2 * (x / 2);
      PlanarHas(a, w, h, x, y, p) <==> Has(b, luma + Row(w', y) + x, d, d + 1, p)
  {
    Halves(w, x);
    Halves(h, y);
    LumaAt(a, w, h, b, w', luma, x, y);
    ChromaAt(a, UPlane(w, h), VPlane(w, h), w / 2, b, chroma, w', w / 2, h / 2, x / 2, y / 2);
  }

  lemma Halves(n: nat, m: nat)
    requires Even(n)
    ensures (n + m) / 2 == n / 2 + m / 2 && n / 2 * 2 == n && (m < n ==> m / 2 < n / 2)
  {
  }

  lemma LumaAt(a: seq<Byte>, w: nat, h: nat, b: seq<Byte>, w': nat, luma: nat, x: nat, y: nat)
    requires SameRows(a, 0, w, b, luma, w', false, w, h) && x < w && y < h
    ensures Row(w, y) + x < |a| && luma + Row(w', y) + x < |b| && a[Row(w, y) + x] == b[luma + Row(w', y) + x]
  {
    SameRowAt(a, 0, w, b, luma, w', false, w, h, y);
    assert SameByte(a, Row(w, y), b, luma + Row(w', y), false, x);
  }

  lemma ChromaAt(a: seq<Byte>, u: nat, v: nat, p: nat, b: seq<Byte>, j: nat, q: nat, n: nat, rows: nat, x: nat, y: nat)
    requires SplitOff(a, u, v, p, b, j, q, n, rows) && x < n && y < rows
    ensures u + Row(p, y) + x < |a| && v + Row(p, y) + x < |a| && j + Row(q, y) + 2 * x + 1 < |b|
    ensures a[u + Row(p, y) + x] == b[j + Row(q, y) + 2 * x] && a[v + Row(p, y) + x] == b[j + Row(q, y) + 2 * x + 1]
  {
    SameRowAt(a, u, p, b, j, q, true, n, rows, y);
    assert SameByte(a, u + Row(p, y), b, j + Row(q, y), true, x);
    SameRowAt(a, v, p, b, j + 1, q, true, n, rows, y);
    assert SameByte(a, v + Row(p, y), b, j + 1 + Row(q, y), true, x);
  }

  /** Two planar pictures of the same semi-planar one are the same, byte for byte. */
  lemma SamePicture(a: seq<Byte>, b: seq<Byte>, w: nat, h: nat, m: seq<Byte>, w': nat, luma: nat, chroma: nat)
    requires Picture(a, w, h, m, w', luma, chroma) && Picture(b, w, h, m, w', luma, chroma)
    requires PlanarSize(w, h) <= |a| && PlanarSize(w, h) <= |b|
    ensures a[..PlanarSize(w, h)] == b[..PlanarSize(w, h)]
  {
    var u, v := UPlane(w, h), VPlane(w, h);
    SameSource(a, 0, w, b, 0, w, m, luma, w', false, w, h);
    SameSource(a, u, w / 2, b, u, w / 2, m, chroma, w', true, w / 2, h / 2);
    SameSource(a, v, w / 2, b, v, w / 2, m, chroma + 1, w', true, w / 2, h / 2);
    forall k | 0 <= k < PlanarSize(w, h)
      ensures a[k] == b[k]
    {
      if k < u {
        WholePlane(a, b, 0, w, h, k);
      } else if k < v {
        WholePlane(a, b, u, w / 2, h / 2, k);
      } else {
        WholePlane(a, b, v, w / 2, h / 2, k);
      }
    }
  }

  /** To the encoder's layout and back, whatever the padding: every byte of an even-sized picture returns. */
  method RoundTrip(src: array<Byte>, w: nat, h: nat, dw: nat, dh: nat, mid: array<Byte>, dst: array<Byte>)
    requires Even(w) && Even(h) && 0 < w <= dw && 0 < h <= dh
    requires src != mid && mid != dst && src != dst
    requires PlanarSize(w, h) <= src.Length && PlanarSize(w, h) <= dst.Length
    requires Row(dw, dh) + Row(dw, dh / 2) <= mid.Length
    modifies mid, dst
    ensures dst[..PlanarSize(w, h)] == old(src[..PlanarSize(w, h)])
  {
    var r := Crop(0, 0, w - 1, h - 1);
    ConvertI420ToEncoderInput(src, w, h, dw, dh, mid);
    ghost var was, pairs := src[..], mid[..];
    RoundTripFits(mid.Length, dw, dh, w, h, dst.Length);
    ConvertDecoderOutputToI420(mid, dw, dh, r, dst);
    assert mid[..] == pairs && src[..] == was;
    SamePicture(dst[..], was, w, h, pairs, dw, 0, Row(dw, dh));
    assert dst[..][..PlanarSize(w, h)] == dst[..PlanarSize(w, h)];
    assert src[..][..PlanarSize(w, h)] == src[..PlanarSize(w, h)];
  }

  lemma RoundTripFits(midLen: nat, dw: nat, dh: nat, w: nat, h: nat, dstLen: nat)
    requires Even(w) && Even(h) && 0 < w <= dw && 0 < h <= dh && PlanarSize(w, h) <= dstLen
    requires Row(dw, dh) + Row(dw, dh / 2) <= midLen
    ensures Fits(midLen, dw, dh, Crop(0, 0, w - 1, h - 1), dstLen)
  {
    var r := Crop(0, 0, w - 1, h - 1);
    HalfUp(w);
    HalfUp(h);
    assert r.W() == w && r.H() == h && ChromaStart(dw, dh, 0, 0) == Row(dw, dh);
    PlaneWithin(midLen, 0, dw, w, h, dh);
    PlaneWithin(midLen, Row(dw, dh), dw, w, h / 2, dh / 2);
    PlaneWithin(dstLen, 0, w, w, h, h);
    PlaneWithin(dstLen, VPlane(w, h), w / 2, w / 2, h / 2, h / 2);
  }

  lemma HalfUp(n: nat)
    requires Even(n)
    ensures (n + 1) / 2 == n / 2 && 2 * ((n + 1) / 2) == n
  {
  }

  /** The top left of a plane that lies within a buffer lies within it. */
  lemma PlaneWithin(len: nat, i: nat, stride: nat, n: nat, rows: nat, height: nat)
    requires i + Row(stride, height) <= len && n <= stride && rows <= height
    ensures Within(len, i, stride, n, rows)
  {
    if rows > 0 { RowsApart(stride, rows - 1, height); }
  }
}
