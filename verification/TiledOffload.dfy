/**
  fpga_offload.c: products of matrices of any size, cut into tiles of the device's size. Ragged tiles
  are padded with zeros and partial products are accumulated.
*/
module TiledOffload {
  import opened Matrices
  import opened HostReference
  import opened FpgaDevice

  // ----- tiles

  /** buf holds the nr by nc tile of m at row r0, column c0, padded with zeros to s by s. */
  ghost predicate HoldsTile(buf: seq<real>, s: nat, m: seq<real>, cols: nat, r0: nat, c0: nat, nr: nat, nc: nat)
  {
    forall r, c {:trigger Cell(buf, s, r, c)} :: 0 <= r < s && 0 <= c < s ==>
      Cell(buf, s, r, c) == if r < nr && c < nc then Cell(m, cols, r0 + r, c0 + c) else 0.0
  }

  /** buf holds the n elements of v from o on, padded with zeros to s. */
  ghost predicate HoldsSlice(buf: seq<real>, s: nat, v: seq<real>, o: int, n: nat)
  {
    forall k {:trigger At(buf, k)} :: 0 <= k < s ==> At(buf, k) == if k < n then At(v, o + k) else 0.0
  }

  lemma {:induction false} VectorTerm(tile: seq<real>, vec: seq<real>, s: nat, m: seq<real>, cols: nat, r0: nat,
                                      c0: nat, nr: nat, nc: nat, v: seq<real>, vo: int, r: nat, k: nat)
    requires HoldsTile(tile, s, m, cols, r0, c0, nr, nc) && HoldsSlice(vec, s, v, vo + c0, nc)
    requires r < nr <= s && k < nc <= s
    ensures Term(tile, s * r, vec, 0, 1, k) == Term(m, cols * (r0 + r) + c0, v, vo + c0, 1, k)
  {
    assert Cell(tile, s, r, k) == Cell(m, cols, r0 + r, c0 + k);
    assert At(vec, k) == At(v, vo + c0 + k);
  }

  /** The padding contributes nothing to a matrix-vector tile. */
  lemma {:induction false} PaddedDot(tile: seq<real>, vec: seq<real>, s: nat, m: seq<real>, cols: nat, r0: nat, c0: nat,
                                     nr: nat, nc: nat, v: seq<real>, vo: int, r: nat)
    requires HoldsTile(tile, s, m, cols, r0, c0, nr, nc) && HoldsSlice(vec, s, v, vo + c0, nc)
    requires r < nr <= s && nc <= s
    ensures Dot(tile, s * r, vec, 0, 1, s) == Dot(m, cols * (r0 + r) + c0, v, vo + c0, 1, nc)
  {
    var ao := cols * (r0 + r) + c0;
    forall k | 0 <= k < nc
      ensures Term(tile, s * r, vec, 0, 1, k) == Term(m, ao, v, vo + c0, 1, k)
    {
      VectorTerm(tile, vec, s, m, cols, r0, c0, nr, nc, v, vo, r, k);
    }
    DotEqual(tile, s * r, vec, 0, 1, m, ao, v, vo + c0, 1, nc);
    var o, n := s * r + nc, s - nc;
    forall k | 0 <= k < n
      ensures Term(tile, o, vec, nc, 1, k) == 0.0
    {
      assert Cell(tile, s, r, nc + k) == 0.0;
    }
    DotZero(tile, o, vec, nc, 1, n);
    DotSplit(tile, s * r, vec, 0, 1, nc, n);
  }

  lemma {:induction false} ProductTerm(t1: seq<real>, t2: seq<real>, s: nat, a: seq<real>, b: seq<real>, ca: nat,
                                       cb: nat,
                                       i: nat, j: nat, k: nat, ti: nat, tj: nat, tk: nat, p: nat, q: nat, x: nat)
    requires HoldsTile(t1, s, a, ca, i, k, ti, tk) && HoldsTile(t2, s, b, cb, k, j, tk, tj)
    requires p < ti <= s && q < tj <= s && x < tk <= s
    ensures Term(t1, s * p, t2, q, s, x) == Term(a, ca * (i + p) + k, b, cb * k + (j + q), cb, x)
  {
    assert Cell(t1, s, p, x) == Cell(a, ca, i + p, k + x);
    assert Cell(t2, s, x, q) == Cell(b, cb, k + x, j + q);
    assert cb * (k + x) == cb * k + cb * x;
  }

  /** The padding contributes nothing to a matrix-matrix tile either. */
  lemma {:induction false} PaddedProduct(t1: seq<real>, t2: seq<real>, s: nat, a: seq<real>, b: seq<real>, ca: nat,
                                         cb: nat, i: nat, j: nat, k: nat, ti: nat, tj: nat, tk: nat, p: nat, q: nat)
    requires HoldsTile(t1, s, a, ca, i, k, ti, tk) && HoldsTile(t2, s, b, cb, k, j, tk, tj)
    requires p < ti <= s && q < tj <= s && tk <= s
    ensures Dot(t1, s * p, t2, q, s, s) == Dot(a, ca * (i + p) + k, b, cb * k + (j + q), cb, tk)
  {
    var ao, bo := ca * (i + p) + k, cb * k + (j + q);
    forall x | 0 <= x < tk
      ensures Term(t1, s * p, t2, q, s, x) == Term(a, ao, b, bo, cb, x)
    {
      ProductTerm(t1, t2, s, a, b, ca, cb, i, j, k, ti, tj, tk, p, q, x);
    }
    DotEqual(t1, s * p, t2, q, s, a, ao, b, bo, cb, tk);
    var o, o', n := s * p + tk, q + s * tk, s - tk;
    forall x | 0 <= x < n
      ensures Term(t1, o, t2, o', s, x) == 0.0
    {
      assert Cell(t1, s, p, tk + x) == 0.0;
    }
    DotZero(t1, o, t2, o', s, n);
    DotSplit(t1, s * p, t2, q, s, tk, n);
  }

  // ----- memory operations

  function Zeros(n: nat): (r: seq<real>)
    ensures |r| == n && forall k :: 0 <= k < n ==> r[k] == 0.0
  {
    seq(n, _ => 0.0)
  }

  method Memcpy(dst: array<real>, d: nat, src: array<real>, o: nat, n: nat)
    requires d + n <= dst.Length && o + n <= src.Length && dst != src
    modifies dst
    ensures dst[..] == Splice(old(dst[..]), d, src[..], o, n)
  {
    forall k | 0 <= k < n { dst[d + k] := src[o + k]; }
  }

  method ZeroFill(dst: array<real>, d: nat, n: nat)
    requires d + n <= dst.Length
    modifies dst
    ensures dst[..] == Splice(old(dst[..]), d, Zeros(n), 0, n)
  {
    var k := 0;
    while k < n
      invariant 0 <= k <= n
      invariant forall x :: 0 <= x < dst.Length ==> dst[x] == if d <= x < d + k then 0.0 else old(dst[x])
    {
      dst[d + k] := 0.0;
      k := k + 1;
    }
  }

  /** dst[p] += src[p] for every p below n. */
  method Accumulate(dst: array<real>, src: array<real>, n: nat)
    requires n <= dst.Length && n <= src.Length && dst != src
    modifies dst
    ensures forall p :: 0 <= p < n ==> dst[p] == old(dst[p]) + src[p]
    ensures forall p :: n <= p < dst.Length ==> dst[p] == old(dst[p])
  {
    var p := 0;
    while p < n
      invariant 0 <= p <= n
      invariant forall x :: 0 <= x < dst.Length ==> dst[x] == if x < p then old(dst[x]) + src[x] else old(dst[x])
    {
      dst[p] := dst[p] + src[p];
      p := p + 1;
    }
  }

  // ----- filling tiles

  /** Rows below `done` hold the tile; the rows from it on are zero if `cleared`. */
  ghost predicate RowsFilled(buf: seq<real>, s: nat, m: seq<real>, cols: nat, r0: nat, c0: nat, nc: nat, done: nat,
                             cleared: bool)
  {
    forall r, c {:trigger Cell(buf, s, r, c)} :: 0 <= r < s && 0 <= c < s && (r < done || cleared) ==>
      Cell(buf, s, r, c) == if r < done && c < nc then Cell(m, cols, r0 + r, c0 + c) else 0.0
  }

  /** One row of a tile copied in full, or into a cleared buffer. */
  lemma {:induction false} RowCopied(buf: seq<real>, s: nat, m: seq<real>, cols: nat, r0: nat, c0: nat, nc: nat,
                                     p: nat, cleared: bool, d: nat, o: nat)
    requires RowsFilled(buf, s, m, cols, r0, c0, nc, p, cleared) && d == s * p && o == cols * (r0 + p) + c0
    requires p < s && nc <= s && d + s <= |buf| && o + nc <= |m| && (cleared || nc == s)
    ensures RowsFilled(Splice(buf, d, m, o, nc), s, m, cols, r0, c0, nc, p + 1, cleared)
  {
    var copied := Splice(buf, s * p, m, o, nc);
    forall r: nat, c: nat | r < s && c < s && (r < p + 1 || cleared)
      ensures Cell(copied, s, r, c) == if r < p + 1 && c < nc then Cell(m, cols, r0 + r, c0 + c) else 0.0
    {
      SpliceCell(buf, s, p, 0, m, o, nc, r, c);
      if r != p || cleared {
        assert Cell(buf, s, r, c) == if r < p && c < nc then Cell(m, cols, r0 + r, c0 + c) else 0.0;
      }
    }
  }

  /** One row of a tile copied in part, and the rest of the row zeroed. */
  lemma {:induction false} RowPadded(buf: seq<real>, s: nat, m: seq<real>, cols: nat, r0: nat, c0: nat, nc: nat,
                                     p: nat, cleared: bool, d: nat, o: nat)
    requires RowsFilled(buf, s, m, cols, r0, c0, nc, p, cleared) && d == s * p && o == cols * (r0 + p) + c0
    requires p < s && nc <= s && d + s <= |buf| && o + nc <= |m|
    ensures RowsFilled(Splice(Splice(buf, d, m, o, nc), d + nc, Zeros(s - nc), 0, s - nc), s, m, cols, r0, c0, nc,
                       p + 1, cleared)
  {
    var copied := Splice(buf, s * p, m, o, nc);
    var padded := Splice(copied, s * p + nc, Zeros(s - nc), 0, s - nc);
    forall r: nat, c: nat | r < s && c < s && (r < p + 1 || cleared)
      ensures Cell(padded, s, r, c) == if r < p + 1 && c < nc then Cell(m, cols, r0 + r, c0 + c) else 0.0
    {
      SpliceCell(buf, s, p, 0, m, o, nc, r, c);
      SpliceCell(copied, s, p, nc, Zeros(s - nc), 0, s - nc, r, c);
      if r != p {
        assert Cell(buf, s, r, c) == if r < p && c < nc then Cell(m, cols, r0 + r, c0 + c) else 0.0;
      }
    }
  }

  function TileSize(s: nat, n: nat, i: nat): nat
    requires i < n
  {
    if n - i >= s then s else n - i
  }

  /** Zeroing the whole buffer, as for a ragged last row of tiles. */
  method ClearTile(buf: array<real>, s: nat, ghost m: seq<real>, ghost cols: nat, ghost i: nat, ghost j: nat,
                   ghost nc: nat)
    requires buf.Length == s * s
    modifies buf
    ensures RowsFilled(buf[..], s, m, cols, i, j, nc, 0, true)
  {
    ZeroFill(buf, 0, s * s);
    forall r, c | 0 <= r < s && 0 <= c < s
      ensures Cell(buf[..], s, r, c) == 0.0
    {
      InRange(s, s, r, c);
    }
  }

  lemma {:induction false} TileRowInRange(s: nat, p: nat, cols: nat, rows: nat, r: nat, j: nat, nc: nat)
    requires p < s && r < rows && j + nc <= cols
    ensures s * p + s <= s * s && cols * r + j + nc <= cols * rows
  {
    RowBefore(s, p, s);
    RowBefore(cols, r, rows);
  }

  /** Row p of a tile that needs no padding: it is as wide as the buffer, or the buffer is cleared. */
  method CopyTileRow(buf: array<real>, m: array<real>, s: nat, cols: nat, ghost rows: nat, i: nat, j: nat, p: nat,
                     nc: nat, ghost cleared: bool)
    requires buf.Length == s * s && m.Length >= cols * rows && buf != m
    requires p < s && nc <= s && i + p < rows && j + nc <= cols && (cleared || nc == s)
    requires RowsFilled(buf[..], s, m[..], cols, i, j, nc, p, cleared)
    modifies buf
    ensures RowsFilled(buf[..], s, m[..], cols, i, j, nc, p + 1, cleared)
  {
    var d, o := s * p, cols * (i + p) + j;
    TileRowInRange(s, p, cols, rows, i + p, j, nc);
    RowCopied(buf[..], s, m[..], cols, i, j, nc, p, cleared, d, o);
    Memcpy(buf, d, m, o, nc);
  }

  /** nc elements copied and the rest of s zeroed. */
  method CopyPadded(buf: array<real>, d: nat, m: array<real>, o: nat, nc: nat, s: nat)
    requires nc <= s && d + s <= buf.Length && o + nc <= m.Length && buf != m
    modifies buf
    ensures buf[..] == Splice(Splice(old(buf[..]), d, m[..], o, nc), d + nc, Zeros(s - nc), 0, s - nc)
  {
    Memcpy(buf, d, m, o, nc);
    ZeroFill(buf, d + nc, s - nc);
  }

  /** Row p of a narrower tile: the row is padded. */
  method PadTileRow(buf: array<real>, m: array<real>, s: nat, cols: nat, ghost rows: nat, i: nat, j: nat, p: nat,
                    nc: nat, ghost cleared: bool)
    requires buf.Length == s * s && m.Length >= cols * rows && buf != m
    requires p < s && nc <= s && i + p < rows && j + nc <= cols
    requires RowsFilled(buf[..], s, m[..], cols, i, j, nc, p, cleared)
    modifies buf
    ensures RowsFilled(buf[..], s, m[..], cols, i, j, nc, p + 1, cleared)
  {
    var d, o := s * p, cols * (i + p) + j;
    TileRowInRange(s, p, cols, rows, i + p, j, nc);
    RowPadded(buf[..], s, m[..], cols, i, j, nc, p, cleared, d, o);
    CopyPadded(buf, d, m, o, nc, s);
  }

  /**
    fpga_large_matvec_naive's matrix tile: the buffer is cleared only for a ragged last row of tiles,
    and what it held before never shows.
  */
  method FillMatrixTile(buf: array<real>, m: array<real>, s: nat, rows: nat, cols: nat, i: nat, j: nat)
    requires 0 < s && buf.Length == s * s && m.Length >= cols * rows && buf != m && i < rows && j < cols
    modifies buf
    ensures HoldsTile(buf[..], s, m[..], cols, i, j, TileSize(s, rows, i), TileSize(s, cols, j))
  {
    var numRow := s;
    if rows - i < s {
      numRow := rows - i;
      ClearTile(buf, s, m[..], cols, i, j, TileSize(s, cols, j));
    }
    var p := 0;
    while p < numRow
      invariant 0 <= p <= numRow
      invariant RowsFilled(buf[..], s, m[..], cols, i, j, TileSize(s, cols, j), p, rows - i < s)
    {
      if cols - j >= s {
        CopyTileRow(buf, m, s, cols, rows, i, j, p, s, rows - i < s);
      } else {
        PadTileRow(buf, m, s, cols, rows, i, j, p, cols - j, rows - i < s);
      }
      p := p + 1;
    }
  }

  method FillVectorTile(buf: array<real>, v: array<real>, vo: nat, s: nat, cols: nat, j: nat)
    requires 0 < s && buf.Length == s && v.Length >= vo + cols && buf != v && j < cols
    modifies buf
    ensures HoldsSlice(buf[..], s, v[..], vo + j, TileSize(s, cols, j))
  {
    if cols - j >= s {
      Memcpy(buf, 0, v, vo + j, s);
    } else {
      CopyPadded(buf, 0, v, vo + j, cols - j, s);
    }
  }

  // ----- fpga_large_matvec_naive

  /** buf[n] holds row i + n of the product over the first `upto` columns, for each n below nr. */
  ghost predicate PartialRows(buf: seq<real>, m: seq<real>, cols: nat, v: seq<real>, vo: int, i: nat, nr: nat,
                              upto: nat)
  {
    forall n {:trigger At(buf, n)} :: 0 <= n < nr ==> At(buf, n) == Dot(m, cols * (i + n), v, vo, 1, upto)
  }

  /** Adding the product of the tile at column j extends the partial rows by its columns. */
  lemma {:induction false} TileAdds(buf: seq<real>, out: seq<real>, sum: seq<real>, tile: seq<real>, vec: seq<real>,
                                    s: nat,
                                    m: seq<real>, cols: nat, v: seq<real>, vo: int, i: nat, j: nat, nr: nat, nc: nat)
    requires nr <= s && nc <= s && |buf| == |out| == |sum| == s
    requires HoldsTile(tile, s, m, cols, i, j, nr, nc) && HoldsSlice(vec, s, v, vo + j, nc)
    requires IsMatVec(out, 0, tile, vec, 0, s, s) && PartialRows(buf, m, cols, v, vo, i, nr, j)
    requires forall n :: 0 <= n < s ==> sum[n] == buf[n] + out[n]
    ensures PartialRows(sum, m, cols, v, vo, i, nr, j + nc)
  {
    forall n | 0 <= n < nr
      ensures At(sum, n) == Dot(m, cols * (i + n), v, vo, 1, j + nc)
    {
      assert RowProduct(out, 0, tile, vec, 0, s, n);
      assert At(buf, n) == Dot(m, cols * (i + n), v, vo, 1, j);
      PaddedDot(tile, vec, s, m, cols, i, j, nr, nc, v, vo, n);
      DotSplit(m, cols * (i + n), v, vo, 1, j, nc);
    }
  }

  /** The loop over the tiles of one row of tiles. */
  method MatvecRowTile(fpga: Fpga, fpgaMatrix: array<real>, fpgaVector: array<real>, m: array<real>,
                       v: array<real>, vo: nat, rows: nat, cols: nat, i: nat) returns (outputBuffer: array<real>)
    requires fpga.Valid() && i < rows && m.Length >= cols * rows && v.Length >= vo + cols
    requires fpgaMatrix.Length == fpga.size * fpga.size && fpgaVector.Length == fpga.size && fpgaMatrix != fpgaVector
    requires m != fpga.bram && v != fpga.bram && fpgaMatrix != fpga.bram && fpgaVector != fpga.bram
    requires m != fpgaMatrix && m != fpgaVector && v != fpgaMatrix && v != fpgaVector
    modifies fpga, fpga.bram, fpgaMatrix, fpgaVector
    ensures fresh(outputBuffer) && outputBuffer.Length == fpga.size
    ensures PartialRows(outputBuffer[..], m[..], cols, v[..], vo, i, TileSize(fpga.size, rows, i), cols)
  {
    var s := fpga.size;
    var out := new real[s](_ => 0.0);
    outputBuffer := new real[s](_ => 0.0);
    ghost var ms, vs := m[..], v[..];
    var j := 0;
    while j < cols
      invariant 0 <= j && m[..] == ms && v[..] == vs
      invariant PartialRows(outputBuffer[..], ms, cols, vs, vo, i, TileSize(s, rows, i), if j < cols then j else cols)
    {
      FillMatrixTile(fpgaMatrix, m, s, rows, cols, i, j);
      FillVectorTile(fpgaVector, v, vo, s, cols, j);
      ghost var buf, tile, vec := outputBuffer[..], fpgaMatrix[..], fpgaVector[..];
      fpga.Matvec(fpgaMatrix, fpgaVector, out);
      Accumulate(outputBuffer, out, s);
      TileAdds(buf, out[..], outputBuffer[..], tile, vec, s, ms, cols, vs, vo, i, j, TileSize(s, rows, i),
               TileSize(s, cols, j));
      j := j + s;
    }
  }

  /** Rows below `done` of the product are in place, and nothing outside the output vector changed. */
  ghost predicate MatvecUpTo(out: seq<real>, before: seq<real>, oo: nat, m: seq<real>, v: seq<real>, vo: int,
                             rows: nat, cols: nat, done: nat)
  {
    && IsMatVec(out, oo, m, v, vo, if done < rows then done else rows, cols)
    && OnlyWithin(out, before, oo, rows)
  }

  lemma {:induction false} RowsStored(out: seq<real>, before: seq<real>, oo: nat, buf: seq<real>, m: seq<real>,
                                      v: seq<real>, vo: int, rows: nat, cols: nat, i: nat, nr: nat)
    requires MatvecUpTo(out, before, oo, m, v, vo, rows, cols, i) && PartialRows(buf, m, cols, v, vo, i, nr, cols)
    requires i + nr <= rows && oo + rows <= |out| && nr <= |buf|
    ensures MatvecUpTo(Splice(out, oo + i, buf, 0, nr), before, oo, m, v, vo, rows, cols, i + nr)
  {
    var out' := Splice(out, oo + i, buf, 0, nr);
    forall r | 0 <= r < i + nr
      ensures RowProduct(out', oo, m, v, vo, cols, r)
    {
      if r >= i {
        assert At(buf, r - i) == Dot(m, cols * (i + (r - i)), v, vo, 1, cols);
      } else {
        assert RowProduct(out, oo, m, v, vo, cols, r);
      }
    }
  }

  /** The rows of a full or ragged tile go to the output. */
  method StoreRows(outVector: array<real>, oo: nat, outputBuffer: array<real>, s: nat, rows: nat, i: nat)
    requires i < rows && oo + rows <= outVector.Length && s <= outputBuffer.Length && outVector != outputBuffer
    modifies outVector
    ensures outVector[..] == Splice(old(outVector[..]), oo + i, outputBuffer[..], 0, TileSize(s, rows, i))
  {
    if rows - i >= s {
      Memcpy(outVector, oo + i, outputBuffer, 0, s);
    } else {
      Memcpy(outVector, oo + i, outputBuffer, 0, rows - i);
    }
  }

  /**
    fpga_large_matvec_naive, on the vector at v + vo and the output at outVector + oo: the product for
    every number of rows and columns, whatever the tile buffers held.
  */
  method LargeMatvecNaive(fpga: Fpga, m: array<real>, v: array<real>, vo: nat, outVector: array<real>, oo: nat,
                          rows: nat, cols: nat)
    requires fpga.Valid() && m.Length >= cols * rows && v.Length >= vo + cols && outVector.Length >= oo + rows
    requires m != fpga.bram && v != fpga.bram && outVector != fpga.bram && outVector != m && outVector != v
    modifies fpga, fpga.bram, outVector
    ensures IsMatVec(outVector[..], oo, m[..], v[..], vo, rows, cols)
    ensures OnlyWithin(outVector[..], old(outVector[..]), oo, rows)
  {
    ghost var ms, vs, before := m[..], v[..], outVector[..];
    ZeroFill(outVector, oo, rows);
    var s := fpga.size;
    var fpgaMatrix, fpgaVector := new real[s * s], new real[s];
    var i := 0;
    while i < rows
      invariant 0 <= i && m[..] == ms && v[..] == vs
      invariant MatvecUpTo(outVector[..], before, oo, ms, vs, vo, rows, cols, i)
    {
      var outputBuffer := MatvecRowTile(fpga, fpgaMatrix, fpgaVector, m, v, vo, rows, cols, i);
      RowsStored(outVector[..], before, oo, outputBuffer[..], ms, vs, vo, rows, cols, i, TileSize(s, rows, i));
      StoreRows(outVector, oo, outputBuffer, s, rows, i);
      i := i + s;
    }
  }

  // ----- fpga_large_matmul_naive

  /** A row of the transposed second matrix gives a column of the product. */
  lemma {:induction false} ColumnDot(a: seq<real>, b: seq<real>, bt: seq<real>, ca: nat, cb: nat, r: nat, c: nat)
    requires IsTranspose(bt, b, ca, cb) && c < cb
    ensures Dot(a, ca * r, bt, ca * c, 1, ca) == Dot(a, ca * r, b, c, cb, ca)
  {
    forall k | 0 <= k < ca
      ensures Term(a, ca * r, bt, ca * c, 1, k) == Term(a, ca * r, b, c, cb, k)
    {
      assert Cell(bt, ca, c, k) == Cell(b, cb, k, c);
    }
    DotEqual(a, ca * r, bt, ca * c, 1, a, ca * r, b, c, cb, ca);
  }

  /** The first `done` rows of the transposed output hold columns of the product. */
  ghost predicate ColumnsUpTo(outT: seq<real>, a: seq<real>, b: seq<real>, ra: nat, ca: nat, cb: nat, done: nat)
  {
    forall c, r {:trigger Cell(outT, ra, c, r)} :: 0 <= c < done && 0 <= r < ra ==>
      Cell(outT, ra, c, r) == Dot(a, ca * r, b, c, cb, ca)
  }

  lemma {:induction false} ColumnStored(outT: seq<real>, before: seq<real>, a: seq<real>, b: seq<real>, bt: seq<real>,
                                        ra: nat, ca: nat, cb: nat, c: nat)
    requires IsTranspose(bt, b, ca, cb) && c < cb && ColumnsUpTo(before, a, b, ra, ca, cb, c)
    requires IsMatVec(outT, ra * c, a, bt, ca * c, ra, ca) && OnlyWithin(outT, before, ra * c, ra)
    ensures ColumnsUpTo(outT, a, b, ra, ca, cb, c + 1)
  {
    forall x: nat, r: nat | x < c + 1 && r < ra
      ensures Cell(outT, ra, x, r) == Dot(a, ca * r, b, x, cb, ca)
    {
      if x == c {
        assert RowProduct(outT, ra * c, a, bt, ca * c, ca, r);
        ColumnDot(a, b, bt, ca, cb, r, c);
      } else {
        RowBefore(ra, x, c);
        assert Cell(outT, ra, x, r) == Cell(before, ra, x, r);
      }
    }
  }

  /** Once all columns are there, every transpose of the transposed output is the product. */
  lemma {:induction false} ColumnsComplete(outT: seq<real>, a: seq<real>, b: seq<real>, ra: nat, ca: nat, cb: nat)
    requires ColumnsUpTo(outT, a, b, ra, ca, cb, cb)
    ensures forall out {:trigger IsTranspose(out, outT, cb, ra)} :: IsTranspose(out, outT, cb, ra) ==>
      IsMatMul(out, a, b, ra, ca, cb)
  {
    forall out, r, c | IsTranspose(out, outT, cb, ra) && 0 <= r < ra && 0 <= c < cb
      ensures Cell(out, cb, r, c) == Dot(a, ca * r, b, c, cb, ca)
    {
      assert Cell(out, cb, r, c) == Cell(outT, ra, c, r);
    }
  }

  /** Column i of the product, as row i of the transposed output. */
  method ProductColumn(fpga: Fpga, a: array<real>, bt: array<real>, outT: array<real>, ghost b: seq<real>,
                       ra: nat, ca: nat, ghost cb: nat, i: nat)
    requires fpga.Valid() && a.Length >= ca * ra && bt.Length == ca * cb && outT.Length == ra * cb && i < cb
    requires a != fpga.bram && bt != fpga.bram && outT != fpga.bram && outT != a && outT != bt
    requires IsTranspose(bt[..], b, ca, cb) && ColumnsUpTo(outT[..], a[..], b, ra, ca, cb, i)
    modifies fpga, fpga.bram, outT
    ensures ColumnsUpTo(outT[..], a[..], b, ra, ca, cb, i + 1)
  {
    RowBefore(ca, i, cb);
    RowBefore(ra, i, cb);
    ghost var before := outT[..];
    LargeMatvecNaive(fpga, a, bt, ca * i, outT, ra * i, ra, ca);
    ColumnStored(outT[..], before, a[..], b, bt[..], ra, ca, cb, i);
  }

  /** fpga_large_matmul_naive: one matrix-vector product per column, between two transpositions. */
  method LargeMatmulNaive(fpga: Fpga, a: array<real>, b: array<real>, outMatrix: array<real>, ra: nat, ca: nat, cb: nat)
    requires fpga.Valid() && a.Length >= ca * ra && b.Length >= cb * ca && outMatrix.Length >= cb * ra
    requires a != fpga.bram && b != fpga.bram && outMatrix != fpga.bram && outMatrix != a && outMatrix != b
    modifies fpga, fpga.bram, outMatrix
    ensures IsMatMul(outMatrix[..], a[..], b[..], ra, ca, cb)
    ensures OnlyWithin(outMatrix[..], old(outMatrix[..]), 0, cb * ra)
  {
    ghost var as_, bs := a[..], b[..];
    var bt, outT := new real[ca * cb], new real[ra * cb];
    ZeroFill(outT, 0, ra * cb);
    MatTransposeNaive(b, bt, ca, cb);
    ghost var bts := bt[..];
    var i := 0;
    while i < cb
      invariant 0 <= i <= cb && a[..] == as_ && bt[..] == bts && outMatrix[..] == old(outMatrix[..])
      invariant ColumnsUpTo(outT[..], as_, bs, ra, ca, cb, i)
    {
      ProductColumn(fpga, a, bt, outT, bs, ra, ca, cb, i);
      i := i + 1;
    }
    ColumnsComplete(outT[..], as_, bs, ra, ca, cb);
    MatTransposeNaive(outT, outMatrix, cb, ra);
  }

  // ----- fpga_large_matmul_naive2

  /** Cells (p, q) of buf hold the product at (i + p, j + q) over the first `upto` terms. */
  ghost predicate PartialTile(buf: seq<real>, s: nat, a: seq<real>, b: seq<real>, ca: nat, cb: nat,
                              i: nat, j: nat, ti: nat, tj: nat, upto: nat)
  {
    forall p, q {:trigger Cell(buf, s, p, q)} :: 0 <= p < ti && 0 <= q < tj ==>
      Cell(buf, s, p, q) == Dot(a, ca * (i + p), b, j + q, cb, upto)
  }

  lemma {:induction false} TileProductAdds(buf: seq<real>, out: seq<real>, sum: seq<real>, t1: seq<real>,
                                           t2: seq<real>, s: nat,
                                           a: seq<real>, b: seq<real>, ca: nat, cb: nat, i: nat, j: nat, k: nat,
                                           ti: nat, tj: nat, tk: nat)
    requires ti <= s && tj <= s && tk <= s && |buf| == |out| == |sum| == s * s
    requires HoldsTile(t1, s, a, ca, i, k, ti, tk) && HoldsTile(t2, s, b, cb, k, j, tk, tj)
    requires IsMatMul(out, t1, t2, s, s, s) && PartialTile(buf, s, a, b, ca, cb, i, j, ti, tj, k)
    requires forall x :: 0 <= x < s * s ==> sum[x] == buf[x] + out[x]
    ensures PartialTile(sum, s, a, b, ca, cb, i, j, ti, tj, k + tk)
  {
    forall p: nat, q: nat | p < ti && q < tj
      ensures Cell(sum, s, p, q) == Dot(a, ca * (i + p), b, j + q, cb, k + tk)
    {
      InRange(s, s, p, q);
      assert Cell(out, s, p, q) == Dot(t1, s * p, t2, q, s, s);
      assert Cell(buf, s, p, q) == Dot(a, ca * (i + p), b, j + q, cb, k);
      PaddedProduct(t1, t2, s, a, b, ca, cb, i, j, k, ti, tj, tk, p, q);
      DotSplit(a, ca * (i + p), b, j + q, cb, k, tk);
    }
  }

  /** Clearing a tile buffer and copying nr rows of nc elements into it. */
  method CopyTile(buf: array<real>, m: array<real>, s: nat, cols: nat, ghost rows: nat, i: nat, j: nat, nr: nat,
                  nc: nat)
    requires buf.Length == s * s && m.Length >= cols * rows && buf != m
    requires nr <= s && nc <= s && i + nr <= rows && j + nc <= cols
    modifies buf
    ensures HoldsTile(buf[..], s, m[..], cols, i, j, nr, nc)
  {
    ClearTile(buf, s, m[..], cols, i, j, nc);
    var p := 0;
    while p < nr
      invariant 0 <= p <= nr && RowsFilled(buf[..], s, m[..], cols, i, j, nc, p, true)
    {
      CopyTileRow(buf, m, s, cols, rows, i, j, p, nc, true);
      p := p + 1;
    }
  }

  /** The loop over k for one tile of the output. */
  method ProductTile(fpga: Fpga, fpgaMatrix1: array<real>, fpgaMatrix2: array<real>, a: array<real>, b: array<real>,
                     ra: nat, ca: nat, cb: nat, i: nat, j: nat) returns (outputBuffer: array<real>)
    requires fpga.Valid() && i < ra && j < cb && a.Length >= ca * ra && b.Length >= cb * ca
    requires fpgaMatrix1.Length == fpgaMatrix2.Length == fpga.size * fpga.size && fpgaMatrix1 != fpgaMatrix2
    requires {a, b} !! {fpgaMatrix1, fpgaMatrix2, fpga.bram}
    requires fpgaMatrix1 != fpga.bram && fpgaMatrix2 != fpga.bram
    modifies fpga, fpga.bram, fpgaMatrix1, fpgaMatrix2
    ensures fresh(outputBuffer) && outputBuffer.Length == fpga.size * fpga.size
    ensures PartialTile(outputBuffer[..], fpga.size, a[..], b[..], ca, cb, i, j,
                        TileSize(fpga.size, ra, i), TileSize(fpga.size, cb, j), ca)
  {
    var s := fpga.size;
    var ti, tj := TileSize(s, ra, i), TileSize(s, cb, j);
    var out := new real[s * s](_ => 0.0);
    outputBuffer := new real[s * s](_ => 0.0);
    ghost var as_, bs := a[..], b[..];
    forall p, q | 0 <= p < ti && 0 <= q < tj
      ensures Cell(outputBuffer[..], s, p, q) == 0.0
    {
      InRange(s, s, p, q);
    }
    var k := 0;
    while k < ca
      invariant 0 <= k && a[..] == as_ && b[..] == bs
      invariant PartialTile(outputBuffer[..], s, as_, bs, ca, cb, i, j, ti, tj, if k < ca then k else ca)
    {
      var tk := TileSize(s, ca, k);
      CopyTile(fpgaMatrix1, a, s, ca, ra, i, k, ti, tk);
      CopyTile(fpgaMatrix2, b, s, cb, ca, k, j, tk, tj);
      ghost var buf := outputBuffer[..];
      fpga.Matmul(fpgaMatrix1, fpgaMatrix2, out);
      Accumulate(outputBuffer, out, s * s);
      TileProductAdds(buf, out[..], outputBuffer[..], fpgaMatrix1[..], fpgaMatrix2[..], s, as_, bs, ca, cb, i, j, k,
                      ti, tj, tk);
      k := k + s;
    }
  }

  /** Everything in the tile rows above row i, and in the tile row at i the columns before j, is computed. */
  ghost predicate TilesUpTo(out: seq<real>, a: seq<real>, b: seq<real>, ra: nat, ca: nat, cb: nat, s: nat, i: nat,
                            j: nat)
  {
    forall r, c {:trigger Cell(out, cb, r, c)} :: 0 <= r < ra && 0 <= c < cb && (r < i || (r < i + s && c < j)) ==>
      Cell(out, cb, r, c) == Dot(a, ca * r, b, c, cb, ca)
  }

  /** The first p rows of the tile at (i, j) are stored; no cell outside the tile changed. */
  ghost predicate TileStored(out: seq<real>, before: seq<real>, a: seq<real>, b: seq<real>, ra: nat, ca: nat, cb: nat,
                             i: nat, j: nat, p: nat, tj: nat)
  {
    forall r, c {:trigger Cell(out, cb, r, c)} :: 0 <= r < ra && 0 <= c < cb ==>
      Cell(out, cb, r, c)
      == if i <= r < i + p && j <= c < j + tj then Dot(a, ca * r, b, c, cb, ca) else Cell(before, cb, r, c)
  }

  method StoreTile(outMatrix: array<real>, buf: array<real>, s: nat, ghost a: seq<real>, ghost b: seq<real>,
                   ghost ra: nat, ghost ca: nat, cb: nat, i: nat, j: nat, ti: nat, tj: nat)
    requires outMatrix.Length >= cb * ra && buf.Length == s * s && outMatrix != buf
    requires ti <= s && tj <= s && i + ti <= ra && j + tj <= cb
    requires PartialTile(buf[..], s, a, b, ca, cb, i, j, ti, tj, ca)
    modifies outMatrix
    ensures TileStored(outMatrix[..], old(outMatrix[..]), a, b, ra, ca, cb, i, j, ti, tj)
    ensures OnlyWithin(outMatrix[..], old(outMatrix[..]), 0, cb * ra)
  {
    ghost var before := outMatrix[..];
    var p := 0;
    while p < ti
      invariant 0 <= p <= ti && PartialTile(buf[..], s, a, b, ca, cb, i, j, ti, tj, ca)
      invariant TileStored(outMatrix[..], before, a, b, ra, ca, cb, i, j, p, tj)
      invariant OnlyWithin(outMatrix[..], before, 0, cb * ra)
    {
      StoreTileRow(outMatrix, buf, s, before, a, b, ra, ca, cb, i, j, ti, tj, p);
      p := p + 1;
    }
  }

  method StoreTileRow(outMatrix: array<real>, buf: array<real>, s: nat, ghost before: seq<real>, ghost a: seq<real>,
                      ghost b: seq<real>, ghost ra: nat, ghost ca: nat, cb: nat, i: nat, j: nat, ghost ti: nat,
                      tj: nat, p: nat)
    requires outMatrix.Length >= cb * ra && buf.Length == s * s && outMatrix != buf
    requires p < ti <= s && tj <= s && i + ti <= ra && j + tj <= cb
    requires PartialTile(buf[..], s, a, b, ca, cb, i, j, ti, tj, ca)
    requires TileStored(outMatrix[..], before, a, b, ra, ca, cb, i, j, p, tj)
    requires OnlyWithin(outMatrix[..], before, 0, cb * ra)
    modifies outMatrix
    ensures TileStored(outMatrix[..], before, a, b, ra, ca, cb, i, j, p + 1, tj)
    ensures OnlyWithin(outMatrix[..], before, 0, cb * ra)
  {
    var d, o := cb * (i + p) + j, s * p;
    TileRowInRange(s, p, cb, ra, i + p, j, tj);
    RowOfTile(outMatrix[..], before, buf[..], s, a, b, ra, ca, cb, i, j, ti, tj, p, d, o);
    Memcpy(outMatrix, d, buf, o, tj);
  }

  /** Storing row p of a tile. */
  lemma {:induction false} RowOfTile(was: seq<real>, before: seq<real>, buf: seq<real>, s: nat, a: seq<real>,
                                     b: seq<real>, ra: nat, ca: nat, cb: nat, i: nat, j: nat, ti: nat, tj: nat,
                                     p: nat, d: nat, o: nat)
    requires p < ti <= s && tj <= s && i + ti <= ra && j + tj <= cb && d == cb * (i + p) + j && o == s * p
    requires d + tj <= cb * ra <= |was| && o + tj <= |buf|
    requires PartialTile(buf, s, a, b, ca, cb, i, j, ti, tj, ca)
    requires TileStored(was, before, a, b, ra, ca, cb, i, j, p, tj) && OnlyWithin(was, before, 0, cb * ra)
    ensures TileStored(Splice(was, d, buf, o, tj), before, a, b, ra, ca, cb, i, j, p + 1, tj)
    ensures OnlyWithin(Splice(was, d, buf, o, tj), before, 0, cb * ra)
  {
    forall r: nat, c: nat | r < ra && c < cb
      ensures Cell(Splice(was, d, buf, o, tj), cb, r, c)
              == if i <= r < i + (p + 1) && j <= c < j + tj
                 then Dot(a, ca * r, b, c, cb, ca) else Cell(before, cb, r, c)
    {
      SpliceCell(was, cb, i + p, j, buf, s * p, tj, r, c);
      assert Cell(was, cb, r, c)
             == if i <= r < i + p && j <= c < j + tj then Dot(a, ca * r, b, c, cb, ca) else Cell(before, cb, r, c);
      if r == i + p && j <= c < j + tj {
        assert Cell(buf, s, p, c - j) == Dot(a, ca * (i + p), b, j + (c - j), cb, ca);
      }
    }
  }

  /** fpga_large_matmul_naive2: every tile of the output is the sum of its partial products. */
  method LargeMatmulNaive2(fpga: Fpga, a: array<real>, b: array<real>, outMatrix: array<real>, ra: nat, ca: nat,
                           cb: nat)
    requires fpga.Valid() && a.Length >= ca * ra && b.Length >= cb * ca && outMatrix.Length >= cb * ra
    requires a != fpga.bram && b != fpga.bram && outMatrix != fpga.bram && outMatrix != a && outMatrix != b
    modifies fpga, fpga.bram, outMatrix
    ensures IsMatMul(outMatrix[..], a[..], b[..], ra, ca, cb)
    ensures OnlyWithin(outMatrix[..], old(outMatrix[..]), 0, cb * ra)
  {
    var s := fpga.size;
    var fpgaMatrix1, fpgaMatrix2 := new real[s * s], new real[s * s];
    ghost var as_, bs := a[..], b[..];
    var i := 0;
    while i < ra
      invariant 0 <= i && a[..] == as_ && b[..] == bs
      invariant TilesUpTo(outMatrix[..], as_, bs, ra, ca, cb, s, i, 0)
      invariant OnlyWithin(outMatrix[..], old(outMatrix[..]), 0, cb * ra)
    {
      var j := 0;
      while j < cb
        invariant 0 <= j && a[..] == as_ && b[..] == bs
        invariant TilesUpTo(outMatrix[..], as_, bs, ra, ca, cb, s, i, j)
        invariant OnlyWithin(outMatrix[..], old(outMatrix[..]), 0, cb * ra)
      {
        var outputBuffer := ProductTile(fpga, fpgaMatrix1, fpgaMatrix2, a, b, ra, ca, cb, i, j);
        ghost var before := outMatrix[..];
        StoreTile(outMatrix, outputBuffer, s, as_, bs, ra, ca, cb, i, j, TileSize(s, ra, i), TileSize(s, cb, j));
        TileCompletes(outMatrix[..], before, as_, bs, ra, ca, cb, s, i, j);
        j := j + s;
      }
      i := i + s;
    }
  }

  lemma {:induction false} TileCompletes(out: seq<real>, before: seq<real>, a: seq<real>, b: seq<real>, ra: nat,
                                         ca: nat, cb: nat, s: nat, i: nat, j: nat)
    requires i < ra && j < cb && TilesUpTo(before, a, b, ra, ca, cb, s, i, j)
    requires TileStored(out, before, a, b, ra, ca, cb, i, j, TileSize(s, ra, i), TileSize(s, cb, j))
    ensures TilesUpTo(out, a, b, ra, ca, cb, s, i, j + s)
  {
    forall r, c | 0 <= r < ra && 0 <= c < cb && (r < i || (r < i + s && c < j + s))
      ensures Cell(out, cb, r, c) == Dot(a, ca * r, b, c, cb, ca)
    {
      if r < i || c < j {
        assert Cell(before, cb, r, c) == Dot(a, ca * r, b, c, cb, ca);
      }
    }
  }
}
