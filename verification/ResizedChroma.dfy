/** What resizing does to each chroma channel of a picture, as it does to the luma. */
module ResizedChroma {
  import opened Planes
  import opened Resizer

  /** A chroma plane: w pairs in each of h rows. */
  datatype Plane = Plane(base: nat, stride: nat, w: nat, h: nat)

  predicate Holds(len: nat, p: Plane) { 2 * p.w <= p.stride && Within(len, p.base, p.stride, 2 * p.w, p.h) }

  /** Channel c of pair (x, y). */
  function ChannelAt(src: seq<Byte>, p: Plane, c: nat, x: nat, y: nat): Byte
    requires Holds(|src|, p) && c < 2 && x < p.w && y < p.h
  {
    RowWithin(|src|, p.base, p.stride, 2 * p.w, p.h, y);
    src[p.base + Row(p.stride, y) + 2 * x + c]
  }

  /** The four pairs a position asks for are in the plane. */
  predicate TapsIn(p: Plane, px: nat, py: nat) { Whole(px) + 1 < p.w && Whole(py) + 1 < p.h }

  lemma TapsAreReadable(len: nat, p: Plane, px: nat, py: nat)
    requires Holds(len, p) && TapsIn(p, px, py)
    ensures Readable(len, p.base, p.stride, px, py)
  {
    RowWithin(len, p.base, p.stride, 2 * p.w, p.h, Whole(py) + 1);
  }

  /** The chroma filter interpolates one channel between four pairs, and never mixes the two. */
  lemma ChromaTaps(src: seq<Byte>, p: Plane, c: nat, px: nat, py: nat)
    requires Holds(|src|, p) && TapsIn(p, px, py) && c < 2
    ensures Readable(|src|, p.base, p.stride, px, py)
    ensures var x, y := Whole(px), Whole(py);
      ChromaAt(src, p.base, p.stride, c, px, py)
      == Bilinear(ChannelAt(src, p, c, x, y), ChannelAt(src, p, c, x + 1, y), ChannelAt(src, p, c, x, y + 1),
                  ChannelAt(src, p, c, x + 1, y + 1), Eighths(px), Eighths(py)) / 64
  {
    TapsAreReadable(|src|, p, px, py);
  }

  /** No channel leaves the range it has in the plane; a flat one stays flat. */
  lemma ChromaStaysInRange(src: seq<Byte>, p: Plane, c: nat, px: nat, py: nat, lo: Byte, hi: Byte)
    requires Holds(|src|, p) && TapsIn(p, px, py) && c < 2
    requires forall x, y :: 0 <= x < p.w && 0 <= y < p.h ==> lo <= ChannelAt(src, p, c, x, y) <= hi
    ensures Readable(|src|, p.base, p.stride, px, py)
    ensures lo <= ChromaAt(src, p.base, p.stride, c, px, py) <= hi
  {
    ChromaTaps(src, p, c, px, py);
    var x, y := Whole(px), Whole(py);
    BilinearBetween(ChannelAt(src, p, c, x, y), ChannelAt(src, p, c, x + 1, y), ChannelAt(src, p, c, x, y + 1),
                    ChannelAt(src, p, c, x + 1, y + 1), Eighths(px), Eighths(py), lo, hi);
  }

  /** A channel that is a linear ramp is sampled at the position, to an eighth of a pair, rounded down. */
  lemma ChromaRampIsSampled(src: seq<Byte>, p: Plane, c: nat, px: nat, py: nat, r: int, u: int, v: int)
    requires Holds(|src|, p) && TapsIn(p, px, py) && c < 2
    requires forall x, y :: 0 <= x < p.w && 0 <= y < p.h ==> ChannelAt(src, p, c, x, y) == r + u * x + v * y
    ensures Readable(|src|, p.base, p.stride, px, py)
    ensures ChromaAt(src, p.base, p.stride, c, px, py) == (64 * r + 8 * u * (px / 64) + 8 * v * (py / 64)) / 64
  {
    ChromaTaps(src, p, c, px, py);
    PositionSplits(px);
    PositionSplits(py);
    BilinearOnRamp(r, u, v, Whole(px), Whole(py), Eighths(px), Eighths(py));
  }
}
