/** When the decoder's conversion can leave both chroma planes whole: exactly for even widths and heights. */
module ChromaPlanes {
  import opened Planes
  import opened ColorConvert

  /** The destination holds both planes of the source, at the places and sizes the conversion writes them. */
  ghost predicate HoldsBoth(a: seq<Byte>, w: nat, h: nat, b: seq<Byte>, w': nat, chroma: nat) {
    SplitOff(a, UPlane(w, h), VStart(w, h), w / 2, b, chroma, w', (w + 1) / 2, (h + 1) / 2)
  }

  ghost predicate ComesOutWhole(w: nat, h: nat, b: seq<Byte>, w': nat, chroma: nat) {
    exists a: seq<Byte> :: HoldsBoth(a, w, h, b, w', chroma)
  }

  /** The source has all the chroma pairs the conversion reads. */
  predicate HasPairs(w: nat, h: nat, b: seq<Byte>, w': nat, chroma: nat) {
    Within(|b|, chroma, w', 2 * ((w + 1) / 2), (h + 1) / 2)
  }

  // ---- even sizes: the planes lie end to end ----

  function Firsts(b: seq<Byte>, j: nat, n: nat): (s: seq<Byte>)
    requires j + 2 * n <= |b| + 1
    ensures |s| == n && forall c :: 0 <= c < n ==> s[c] == b[j + 2 * c]
  {
    seq(n, c requires 0 <= c < n => b[j + 2 * c])
  }

  /** The first bytes of the pairs, row after row. */
  function Gather(b: seq<Byte>, j: nat, q: nat, n: nat, rows: nat): (s: seq<Byte>)
    requires n > 0 && Within(|b|, j, q, 2 * n - 1, rows)
    ensures |s| == Row(n, rows)
  {
    if rows == 0 then []
    else
      RowWithin(|b|, j, q, 2 * n - 1, rows, if rows > 1 then rows - 2 else 0);
      Gather(b, j, q, n, rows - 1) + Firsts(b, j + Row(q, rows - 1), n)
  }

  lemma {:induction false} GatherIs(pre: seq<Byte>, post: seq<Byte>, b: seq<Byte>, j: nat, q: nat, n: nat, rows: nat)
    requires n > 0 && Within(|b|, j, q, 2 * n - 1, rows)
    ensures SameRows(pre + Gather(b, j, q, n, rows) + post, |pre|, n, b, j, q, true, n, rows)
    decreases rows
  {
    if rows > 0 {
      RowWithin(|b|, j, q, 2 * n - 1, rows, if rows > 1 then rows - 2 else 0);
      var front, last := Gather(b, j, q, n, rows - 1), Firsts(b, j + Row(q, rows - 1), n);
      GatherIs(pre, last + post, b, j, q, n, rows - 1);
      FirstsIs(pre + front, post, b, j + Row(q, rows - 1), n);
      assert pre + (front + last) + post == pre + front + (last + post);
    }
  }

  lemma FirstsIs(pre: seq<Byte>, post: seq<Byte>, b: seq<Byte>, j: nat, n: nat)
    requires j + 2 * n <= |b| + 1
    ensures SameRow(pre + (Firsts(b, j, n) + post), |pre|, b, j, true, n)
  {
    var a := pre + (Firsts(b, j, n) + post);
    forall c | 0 <= c < n
      ensures SameByte(a, |pre|, b, j, true, c)
    {
      assert a[|pre| + c] == Firsts(b, j, n)[c];
    }
  }

  lemma EvenComesOut(w: nat, h: nat, b: seq<Byte>, w': nat, chroma: nat)
    requires 0 < w && 0 < h && Even(w) && Even(h) && HasPairs(w, h, b, w', chroma)
    ensures ComesOutWhole(w, h, b, w', chroma)
  {
    HalfUp(w);
    HalfUp(h);
    var n, rows, pre := w / 2, h / 2, seq(UPlane(w, h), _ => 0 as Byte);
    var us, vs := Gather(b, chroma, w', n, rows), Gather(b, chroma + 1, w', n, rows);
    GatherIs(pre, vs, b, chroma, w', n, rows);
    GatherIs(pre + us, [], b, chroma + 1, w', n, rows);
    assert pre + us + vs + [] == pre + us + vs;
    assert HoldsBoth(pre + us + vs, w, h, b, w', chroma);
  }

  // ---- odd sizes: a byte of u and the first byte of v share a place ----

  /** The chroma pair whose u byte is written where the v plane starts. */
  function ClashRow(w: nat, h: nat): nat
    requires h > 0
  {
    if w / 2 == 0 then 0 else (h - 1) / 2
  }
  function ClashColumn(w: nat, h: nat): nat { if Even(h) then w / 2 else w / 2 / 2 }

  lemma HalfProduct(s: nat, h: nat)
    requires h > 0
    ensures s * h / 2 == s * ((h - 1) / 2) + if Even(h) then s else s / 2
  {
    var r := (h - 1) / 2;
    var t := s * r;
    if Even(h) {
      assert h == r + r + 2;
      assert s * h == t + t + s + s;
    } else {
      assert h == r + r + 1;
      assert s * h == t + t + s;
    }
  }

  lemma ClashPlace(w: nat, h: nat)
    requires 0 < w && 0 < h && !(Even(w) && Even(h))
    ensures ClashRow(w, h) < (h + 1) / 2 && ClashColumn(w, h) < (w + 1) / 2
    ensures UPlane(w, h) + Row(w / 2, ClashRow(w, h)) + ClashColumn(w, h) == VStart(w, h)
  {
    RowIs(w / 2, ClashRow(w, h));
    HalfProduct(w / 2, h);
  }

  /** The two bytes come from different places of the source. */
  lemma ClashSource(w: nat, h: nat, w': nat)
    requires 0 < w <= w' && 0 < h && !(Even(w) && Even(h))
    ensures Row(w', ClashRow(w, h)) + 2 * ClashColumn(w, h) != 1
  {
    if ClashRow(w, h) > 0 { RowsApart(w', 0, ClashRow(w, h)); }
  }

  /** Bytes of a source whose first v byte differs from every other byte. */
  function Marked(len: nat, k: nat): seq<Byte> { seq(len, i => if i == k then 1 as Byte else 0) }

  lemma OddLosesSome(w: nat, h: nat, w': nat, chroma: nat) returns (b: seq<Byte>)
    requires 0 < w <= w' && 0 < h && !(Even(w) && Even(h))
    ensures HasPairs(w, h, b, w', chroma) && !ComesOutWhole(w, h, b, w', chroma)
  {
    var n, rows, r, c := (w + 1) / 2, (h + 1) / 2, ClashRow(w, h), ClashColumn(w, h);
    b := Marked(chroma + Row(w', rows - 1) + 2 * n, chroma + 1);
    ClashPlace(w, h);
    ClashSource(w, h, w');
    forall a: seq<Byte> | HoldsBoth(a, w, h, b, w', chroma)
      ensures false
    {
      ColorConvert.ChromaAt(a, UPlane(w, h), VStart(w, h), w / 2, b, chroma, w', n, rows, c, r);
      ColorConvert.ChromaAt(a, UPlane(w, h), VStart(w, h), w / 2, b, chroma, w', n, rows, 0, 0);
    }
  }

  /** Both chroma planes can come out whole, whatever the source holds, exactly when width and height are even. */
  lemma PlanesWholeExactlyWhen(w: nat, h: nat, w': nat, chroma: nat)
    requires 0 < w <= w' && 0 < h
    ensures (forall b: seq<Byte> :: HasPairs(w, h, b, w', chroma) ==> ComesOutWhole(w, h, b, w', chroma))
       <==> Even(w) && Even(h)
  {
    if Even(w) && Even(h) {
      forall b: seq<Byte> | HasPairs(w, h, b, w', chroma)
        ensures ComesOutWhole(w, h, b, w', chroma)
      {
        EvenComesOut(w, h, b, w', chroma);
      }
    } else {
      var b := OddLosesSome(w, h, w', chroma);
    }
  }
}
