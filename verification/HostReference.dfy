/**
  utils.c: the transpose and the reference products every offload has to agree with. A C pointer is
  an array with an offset.
*/
module HostReference {
  import opened Matrices

  // ----- what the results are

  ghost predicate IsTranspose(out: seq<real>, m: seq<real>, rows: nat, cols: nat)
  {
    forall i, j {:trigger Cell(out, rows, j, i)} :: 0 <= i < rows && 0 <= j < cols ==>
      Cell(out, rows, j, i) == Cell(m, cols, i, j)
  }

  /** From element oo on, out holds the rows by cols matrix m times the vector at v + vo. */
  ghost predicate IsMatVec(out: seq<real>, oo: int, m: seq<real>, v: seq<real>, vo: int, rows: nat, cols: nat)
  {
    forall i {:trigger RowProduct(out, oo, m, v, vo, cols, i)} :: 0 <= i < rows ==>
      RowProduct(out, oo, m, v, vo, cols, i)
  }

  /** Element oo + i of out is the inner product of row i of m and the vector. */
  ghost predicate RowProduct(out: seq<real>, oo: int, m: seq<real>, v: seq<real>, vo: int, cols: nat, i: int)
  {
    At(out, oo + i) == Dot(m, cols * i, v, vo, 1, cols)
  }

  /** out is the product of the ra by ca matrix a and the ca by cb matrix b. */
  ghost predicate IsMatMul(out: seq<real>, a: seq<real>, b: seq<real>, ra: nat, ca: nat, cb: nat)
  {
    forall i, j {:trigger Cell(out, cb, i, j)} :: 0 <= i < ra && 0 <= j < cb ==>
      Cell(out, cb, i, j) == Dot(a, ca * i, b, j, cb, ca)
  }

  /** Elements outside [o, o + n) are as before. */
  ghost predicate OnlyWithin(now: seq<real>, before: seq<real>, o: nat, n: nat)
  {
    |now| == |before| && forall k :: 0 <= k < |now| && !(o <= k < o + n) ==> now[k] == before[k]
  }

  /** The product is determined element by element: two buffers that hold it agree. */
  lemma {:induction false} MatMulUnique(x: seq<real>, y: seq<real>, a: seq<real>, b: seq<real>, ra: nat, ca: nat,
                                        cb: nat, k: nat)
    requires IsMatMul(x, a, b, ra, ca, cb) && IsMatMul(y, a, b, ra, ca, cb)
    requires k < cb * ra
    ensures At(x, k) == At(y, k)
  {
    if cb > 0 {
      var i, j := k / cb, k % cb;
      assert cb * i + j == k;
      if i >= ra { RowBefore(cb, ra - 1, i); }
      assert Cell(x, cb, i, j) == Cell(y, cb, i, j);
    }
  }

  /** So any two ways to compute a product, tiled or not, give the same matrix. */
  lemma {:induction false} MatMulAgree(x: seq<real>, y: seq<real>, a: seq<real>, b: seq<real>, ra: nat, ca: nat,
                                       cb: nat)
    requires |x| == |y| == cb * ra
    requires IsMatMul(x, a, b, ra, ca, cb) && IsMatMul(y, a, b, ra, ca, cb)
    ensures x == y
  {
    forall k | 0 <= k < |x|
      ensures x[k] == y[k]
    {
      MatMulUnique(x, y, a, b, ra, ca, cb, k);
    }
  }

  // ----- in-place steps

  /** out[m * p + q] += x */
  method AddTo(out: array<real>, m: nat, p: nat, q: nat, x: real)
    requires q < m && m * p + q < out.Length
    modifies out
    ensures forall i, j {:trigger Cell(out[..], m, i, j)} :: 0 <= j < m ==>
      Cell(out[..], m, i, j)
      == if i == p && j == q then Cell(old(out[..]), m, i, j) + x else Cell(old(out[..]), m, i, j)
  {
    ghost var was := out[..];
    out[m * p + q] := out[m * p + q] + x;
    assert out[..] == was[m * p + q := out[m * p + q]];
    forall i: int, j: nat | j < m
      ensures Cell(out[..], m, i, j) == if i == p && j == q then Cell(was, m, i, j) + x else Cell(was, m, i, j)
    {
      UpdateCell(was, m, p, q, out[m * p + q], i, j);
    }
  }

  // ----- mat_transpose_naive

  ghost predicate TransposedUpTo(out: seq<real>, m: seq<real>, rows: nat, cols: nat, i: nat, j: nat)
  {
    forall r, c {:trigger Cell(out, rows, c, r)} ::
      0 <= r < rows && 0 <= c < cols && (r < i || (r == i && c < j)) ==> Cell(out, rows, c, r) == Cell(m, cols, r, c)
  }

  method MatTransposeNaive(inMatrix: array<real>, outMatrix: array<real>, rows: nat, cols: nat)
    requires inMatrix.Length >= cols * rows && outMatrix.Length >= rows * cols && inMatrix != outMatrix
    modifies outMatrix
    ensures IsTranspose(outMatrix[..], inMatrix[..], rows, cols)
    ensures OnlyWithin(outMatrix[..], old(outMatrix[..]), 0, rows * cols)
  {
    var i := 0;
    while i < rows
      invariant 0 <= i <= rows && TransposedUpTo(outMatrix[..], inMatrix[..], rows, cols, i, 0)
      invariant OnlyWithin(outMatrix[..], old(outMatrix[..]), 0, rows * cols)
    {
      var j := 0;
      while j < cols
        invariant 0 <= j <= cols && TransposedUpTo(outMatrix[..], inMatrix[..], rows, cols, i, j)
        invariant OnlyWithin(outMatrix[..], old(outMatrix[..]), 0, rows * cols)
      {
        InRange(rows, cols, i, j);
        InRange(cols, rows, j, i);
        ghost var was := outMatrix[..];
        outMatrix[rows * j + i] := inMatrix[cols * i + j];
        assert outMatrix[..] == was[rows * j + i := inMatrix[cols * i + j]];
        forall r, c | 0 <= r < rows && 0 <= c < cols && (r < i || (r == i && c < j + 1))
          ensures Cell(outMatrix[..], rows, c, r) == Cell(inMatrix[..], cols, r, c)
        {
          UpdateCell(was, rows, j, i, inMatrix[cols * i + j], c, r);
        }
        j := j + 1;
      }
      i := i + 1;
    }
  }

  // ----- cpu_matvec

  method CpuMatvec(inMatrix: array<real>, inVector: array<real>, outVector: array<real>, rows: nat, cols: nat)
    requires inMatrix.Length >= cols * rows && inVector.Length >= cols && outVector.Length >= rows
    requires outVector != inMatrix && outVector != inVector
    modifies outVector
    ensures IsMatVec(outVector[..], 0, inMatrix[..], inVector[..], 0, rows, cols)
  {
    var p := 0;
    while p < rows
      invariant 0 <= p <= rows
      invariant forall k :: 0 <= k < p ==> outVector[k] == 0.0
    {
      outVector[p] := 0.0;
      p := p + 1;
    }
    ghost var m, v := inMatrix[..], inVector[..];
    var i := 0;
    while i < rows
      invariant 0 <= i <= rows && inMatrix[..] == m && inVector[..] == v
      invariant forall k :: i <= k < rows ==> outVector[k] == 0.0
      invariant IsMatVec(outVector[..], 0, m, v, 0, i, cols)
    {
      ghost var was := outVector[..];
      CpuRow(inMatrix, inVector, outVector, rows, cols, i);
      forall k | 0 <= k < i + 1
        ensures RowProduct(outVector[..], 0, m, v, 0, cols, k)
      {
        if k < i { assert RowProduct(was, 0, m, v, 0, cols, k); }
      }
      i := i + 1;
    }
  }

  /** The inner loop of cpu_matvec. */
  method CpuRow(inMatrix: array<real>, inVector: array<real>, outVector: array<real>, rows: nat, cols: nat, i: nat)
    requires inMatrix.Length >= cols * rows && inVector.Length >= cols && outVector.Length >= rows && i < rows
    requires outVector != inMatrix && outVector != inVector && outVector[i] == 0.0
    modifies outVector
    ensures RowProduct(outVector[..], 0, inMatrix[..], inVector[..], 0, cols, i)
    ensures forall k :: 0 <= k < outVector.Length && k != i ==> outVector[k] == old(outVector[k])
  {
    ghost var m, v := inMatrix[..], inVector[..];
    var j := 0;
    while j < cols
      invariant 0 <= j <= cols && inMatrix[..] == m && inVector[..] == v
      invariant outVector[i] == Dot(m, cols * i, v, 0, 1, j)
      invariant forall k :: 0 <= k < outVector.Length && k != i ==> outVector[k] == old(outVector[k])
    {
      InRange(rows, cols, i, j);
      assert At(m, cols * i + j) == inMatrix[cols * i + j] && At(v, j) == inVector[j];
      outVector[i] := outVector[i] + inMatrix[cols * i + j] * inVector[j];
      j := j + 1;
    }
  }

  // ----- cpu_matmul

  /** Cells before (i, j) in row-major order hold the product, later ones zero. */
  ghost predicate MultipliedUpTo(out: seq<real>, a: seq<real>, b: seq<real>, ra: nat, ca: nat, cb: nat, i: nat, j: nat)
  {
    forall r, c {:trigger Cell(out, cb, r, c)} :: 0 <= r < ra && 0 <= c < cb ==>
      Cell(out, cb, r, c) == if r < i || (r == i && c < j) then Dot(a, ca * r, b, c, cb, ca) else 0.0
  }

  method CpuMatmul(a: array<real>, b: array<real>, out: array<real>, ra: nat, ca: nat, cb: nat)
    requires a.Length >= ca * ra && b.Length >= cb * ca && out.Length >= cb * ra
    requires out != a && out != b
    modifies out
    ensures IsMatMul(out[..], a[..], b[..], ra, ca, cb)
  {
    var p := 0;
    while p < cb * ra
      invariant 0 <= p <= cb * ra
      invariant forall k :: 0 <= k < p ==> out[k] == 0.0
    {
      out[p] := 0.0;
      p := p + 1;
    }
    forall r, c | 0 <= r < ra && 0 <= c < cb
      ensures Cell(out[..], cb, r, c) == 0.0
    {
      InRange(ra, cb, r, c);
    }
    var i := 0;
    while i < ra
      invariant 0 <= i <= ra && MultipliedUpTo(out[..], a[..], b[..], ra, ca, cb, i, 0)
    {
      var j := 0;
      while j < cb
        invariant 0 <= j <= cb && MultipliedUpTo(out[..], a[..], b[..], ra, ca, cb, i, j)
      {
        CpuCell(a, b, out, ra, ca, cb, i, j);
        j := j + 1;
      }
      i := i + 1;
    }
  }

  /** Cell (i, j) of an ra by cb buffer is x, and the others are as in `was`. */
  ghost predicate OnlyCell(out: seq<real>, was: seq<real>, ra: nat, cb: nat, i: nat, j: nat, x: real)
  {
    forall r, c {:trigger Cell(out, cb, r, c)} :: 0 <= r < ra && 0 <= c < cb ==>
      Cell(out, cb, r, c) == if r == i && c == j then x else Cell(was, cb, r, c)
  }

  lemma {:induction false} AddedToCell(out: seq<real>, before: seq<real>, was: seq<real>, ra: nat, cb: nat, i: nat,
                                       j: nat, sum: real, x: real)
    requires i < ra && j < cb && OnlyCell(before, was, ra, cb, i, j, sum)
    requires OnlyCell(out, before, ra, cb, i, j, Cell(before, cb, i, j) + x)
    ensures OnlyCell(out, was, ra, cb, i, j, sum + x)
  {
    forall r, c | 0 <= r < ra && 0 <= c < cb
      ensures Cell(out, cb, r, c) == if r == i && c == j then sum + x else Cell(was, cb, r, c)
    {
      assert Cell(before, cb, r, c) == if r == i && c == j then sum else Cell(was, cb, r, c);
    }
  }

  /** One more term of an inner product. */
  lemma {:induction false} DotSnoc(a: seq<real>, ao: int, b: seq<real>, bo: int, bs: int, n: nat)
    ensures Dot(a, ao, b, bo, bs, n + 1) == Dot(a, ao, b, bo, bs, n) + Term(a, ao, b, bo, bs, n)
  {}

  /** out[i][j] += a[i][k] * b[k][j] */
  method AddProduct(a: array<real>, b: array<real>, out: array<real>, ghost ra: nat, ca: nat, cb: nat, i: nat, j: nat,
                    k: nat)
    requires a.Length >= ca * ra && b.Length >= cb * ca && out.Length >= cb * ra
    requires out != a && out != b && i < ra && j < cb && k < ca
    modifies out
    ensures OnlyCell(out[..], old(out[..]), ra, cb, i, j,
                     Cell(old(out[..]), cb, i, j) + Term(a[..], ca * i, b[..], j, cb, k))
  {
    InRange(ra, cb, i, j);
    InRange(ra, ca, i, k);
    InRange(ca, cb, k, j);
    AddTo(out, cb, i, j, a[ca * i + k] * b[cb * k + j]);
  }

  /** The innermost loop of cpu_matmul. */
  method CpuCell(a: array<real>, b: array<real>, out: array<real>, ra: nat, ca: nat, cb: nat, i: nat, j: nat)
    requires a.Length >= ca * ra && b.Length >= cb * ca && out.Length >= cb * ra
    requires out != a && out != b && i < ra && j < cb
    requires MultipliedUpTo(out[..], a[..], b[..], ra, ca, cb, i, j)
    modifies out
    ensures MultipliedUpTo(out[..], a[..], b[..], ra, ca, cb, i, j + 1)
  {
    ghost var was := out[..];
    assert Cell(was, cb, i, j) == 0.0;
    var k := 0;
    while k < ca
      invariant 0 <= k <= ca
      invariant OnlyCell(out[..], was, ra, cb, i, j, Dot(a[..], ca * i, b[..], j, cb, k))
    {
      ghost var before, sum := out[..], Dot(a[..], ca * i, b[..], j, cb, k);
      AddProduct(a, b, out, ra, ca, cb, i, j, k);
      AddedToCell(out[..], before, was, ra, cb, i, j, sum, Term(a[..], ca * i, b[..], j, cb, k));
      DotSnoc(a[..], ca * i, b[..], j, cb, k);
      k := k + 1;
    }
    CellMultiplied(out[..], was, a[..], b[..], ra, ca, cb, i, j);
  }

  lemma {:induction false} CellMultiplied(out: seq<real>, was: seq<real>, a: seq<real>, b: seq<real>, ra: nat,
                                          ca: nat, cb: nat, i: nat, j: nat)
    requires MultipliedUpTo(was, a, b, ra, ca, cb, i, j)
    requires OnlyCell(out, was, ra, cb, i, j, Dot(a, ca * i, b, j, cb, ca))
    ensures MultipliedUpTo(out, a, b, ra, ca, cb, i, j + 1)
  {
    forall r, c | 0 <= r < ra && 0 <= c < cb
      ensures Cell(out, cb, r, c) == if r < i || (r == i && c < j + 1) then Dot(a, ca * r, b, c, cb, ca) else 0.0
    {
      assert Cell(was, cb, r, c) == if r < i || (r == i && c < j) then Dot(a, ca * r, b, c, cb, ca) else 0.0;
    }
  }
}
