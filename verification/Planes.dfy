/** Byte planes: rows of bytes a fixed stride apart in a buffer. */
module Planes {

  type Byte = b: int | 0 <= b < 256

  /** Offset of row r when rows are `stride` bytes apart. */
  function Row(stride: nat, r: nat): nat { if r == 0 then 0 else Row(stride, r - 1) + stride }

  lemma {:induction false} RowIs(stride: nat, r: nat)
    ensures Row(stride, r) == stride * r
  {
    if r > 0 { RowIs(stride, r - 1); }
  }

  lemma {:induction false} RowsApart(stride: nat, r: nat, q: nat)
    requires r <= q
    ensures Row(stride, r) <= Row(stride, q)
    ensures r < q ==> Row(stride, r) + stride <= Row(stride, q)
    decreases q
  {
    if r < q { RowsApart(stride, r, q - 1); }
  }

  /** `rows` rows of n bytes from offset i on, `stride` bytes apart, lie within `len` bytes. */
  predicate Within(len: nat, i: nat, stride: nat, n: nat, rows: nat) {
    rows == 0 || i + Row(stride, rows - 1) + n <= len
  }

  lemma RowWithin(len: nat, i: nat, stride: nat, n: nat, rows: nat, r: nat)
    requires Within(len, i, stride, n, rows) && r < rows
    ensures i + Row(stride, r) + n <= len
  {
    RowsApart(stride, r, rows - 1);
  }

  /** Row and column of a byte of a plane. */
  lemma {:induction false} RowOf(stride: nat, rows: nat, k: nat) returns (r: nat, c: nat)
    requires k < Row(stride, rows)
    ensures r < rows && c < stride && k == Row(stride, r) + c
  {
    if k >= Row(stride, rows - 1) {
      r, c := rows - 1, k - Row(stride, rows - 1);
    } else {
      r, c := RowOf(stride, rows - 1, k);
    }
  }

  lemma {:induction false} RowSum(stride: nat, p: nat, q: nat)
    ensures Row(stride, p + q) == Row(stride, p) + Row(stride, q)
    decreases q
  {
    if q > 0 { RowSum(stride, p, q - 1); }
  }

  /** Bytes lo to hi are as they were. */
  ghost predicate Kept(was: seq<Byte>, now: seq<Byte>, lo: int, hi: int) {
    |was| == |now| && forall k :: lo <= k < hi && 0 <= k < |was| ==> now[k] == was[k]
  }
}
