/**
  Flat row-major matrices over the reals, inner products, and what splicing a piece into a flat buffer
  does to its cells.
*/
module Matrices {

  /** Element i of a flat buffer; zero outside. */
  function At(s: seq<real>, i: int): real { if 0 <= i < |s| then s[i] else 0.0 }

  /** Row i, column j of a flat buffer with `cols` columns. */
  function Cell(s: seq<real>, cols: nat, i: int, j: int): real { At(s, cols * i + j) }

  /** Inner product of n consecutive elements of a from ao on and n elements of b from bo on, bs apart. */
  function Dot(a: seq<real>, ao: int, b: seq<real>, bo: int, bs: int, n: nat): real
  {
    if n == 0 then 0.0 else Dot(a, ao, b, bo, bs, n - 1) + At(a, ao + (n - 1)) * At(b, bo + bs * (n - 1))
  }

  // ----- inner products

  lemma {:induction false} DotSplit(a: seq<real>, ao: int, b: seq<real>, bo: int, bs: int, m: nat, n: nat)
    ensures Dot(a, ao, b, bo, bs, m + n) == Dot(a, ao, b, bo, bs, m) + Dot(a, ao + m, b, bo + bs * m, bs, n)
    decreases n
  {
    if n > 0 {
      DotSplit(a, ao, b, bo, bs, m, n - 1);
      assert bo + bs * m + bs * (n - 1) == bo + bs * (m + n - 1);
    }
  }

  /** Inner products of element-wise equal vectors are equal. */
  lemma {:induction false} DotEqual(a: seq<real>, ao: int, b: seq<real>, bo: int, bs: int,
                                    a': seq<real>, ao': int, b': seq<real>, bo': int, bs': int, n: nat)
    requires forall k :: 0 <= k < n ==> Term(a, ao, b, bo, bs, k) == Term(a', ao', b', bo', bs', k)
    ensures Dot(a, ao, b, bo, bs, n) == Dot(a', ao', b', bo', bs', n)
    decreases n
  {
    if n > 0 {
      DotEqual(a, ao, b, bo, bs, a', ao', b', bo', bs', n - 1);
      assert Term(a, ao, b, bo, bs, n - 1) == Term(a', ao', b', bo', bs', n - 1);
    }
  }

  /** The k-th product of an inner product. */
  function Term(a: seq<real>, ao: int, b: seq<real>, bo: int, bs: int, k: int): real
  {
    At(a, ao + k) * At(b, bo + bs * k)
  }

  lemma {:induction false} DotZero(a: seq<real>, ao: int, b: seq<real>, bo: int, bs: int, n: nat)
    requires forall k :: 0 <= k < n ==> Term(a, ao, b, bo, bs, k) == 0.0
    ensures Dot(a, ao, b, bo, bs, n) == 0.0
    decreases n
  {
    if n > 0 {
      DotZero(a, ao, b, bo, bs, n - 1);
      assert Term(a, ao, b, bo, bs, n - 1) == 0.0;
    }
  }

  // ----- index arithmetic

  lemma {:induction false} RowBefore(m: nat, r: int, p: int)
    requires r < p
    ensures m * r + m <= m * p
  {
    var d: nat := p - r - 1;
    assert m * p == m * r + m + m * d;
  }

  /** Cell (i, j) lies inside an n by m buffer. */
  lemma {:induction false} InRange(n: nat, m: nat, i: int, j: int)
    requires 0 <= i < n && 0 <= j < m
    ensures 0 <= m * i + j < m * n
  {
    RowBefore(m, i, n);
  }

  // ----- splicing

  /** dst with its n elements from d on replaced by those of src from o on. */
  function Splice(dst: seq<real>, d: nat, src: seq<real>, o: nat, n: nat): (r: seq<real>)
    requires d + n <= |dst| && o + n <= |src|
    ensures |r| == |dst|
    ensures forall k :: 0 <= k < |dst| ==> r[k] == if d <= k < d + n then src[o + (k - d)] else dst[k]
  {
    dst[..d] + src[o..o + n] + dst[d + n..]
  }

  /** Splicing part of row p, from column q on, changes the cells spliced and no others. */
  lemma {:induction false} SpliceCell(dst: seq<real>, m: nat, p: nat, q: nat, src: seq<real>, o: nat, n: nat, i: int,
                                      j: nat)
    requires q + n <= m && j < m && m * p + q + n <= |dst| && o + n <= |src|
    ensures Cell(Splice(dst, m * p + q, src, o, n), m, i, j)
            == if i == p && q <= j < q + n then At(src, o + (j - q)) else Cell(dst, m, i, j)
  {
    if i < p {
      RowBefore(m, i, p);
    } else if i > p {
      RowBefore(m, p, i);
    }
  }

  /** Updating cell (p, q) changes no other cell. */
  lemma {:induction false} UpdateCell(dst: seq<real>, m: nat, p: nat, q: nat, x: real, i: int, j: nat)
    requires q < m && j < m && m * p + q < |dst|
    ensures Cell(dst[m * p + q := x], m, i, j) == if i == p && j == q then x else Cell(dst, m, i, j)
  {
    if i < p {
      RowBefore(m, i, p);
    } else if i > p {
      RowBefore(m, p, i);
    }
  }
}
