/**
  The matrix-vector device behind BRAM_ADDR and IP_ADDR, as the host code assumes it to behave, and the
  two fixed-size operations the host code runs on it.
*/
module FpgaDevice {
  import opened Matrices
  import opened HostReference

  const OP_CODE: int := 0x5555

  /**
    What the device leaves in the BRAM: the vector region, the first s words, holds the s by s matrix
    of the words after it times the former vector; everything else is unchanged.
  */
  function Computed(bram: seq<real>, s: nat): (r: seq<real>)
    requires |bram| >= s + s * s
    ensures |r| == |bram|
  {
    seq(s, i requires 0 <= i => Dot(bram, s + s * i, bram, 0, 1, s)) + bram[s..]
  }

  /** The board: words of BRAM, and the op code register with the number of polls until it clears. */
  class Fpga {
    const size: nat
    const bram: array<real>
    var busy: bool
    var pending: nat

    ghost predicate Valid()
      reads this
    {
      size > 0 && bram.Length >= size + size * size
    }

    constructor (size: nat, words: nat)
      requires size > 0 && words >= size + size * size
      ensures Valid() && fresh(bram) && this.size == size && !busy
    {
      this.size := size;
      bram := new real[words];
      busy, pending := false, 0;
    }

    /** write_to_channel at BRAM word `addr`. */
    method WriteToChannel(addr: nat, n: nat, data: array<real>, off: nat)
      requires Valid() && addr + n <= bram.Length && off + n <= data.Length && data != bram
      modifies bram
      ensures bram[..] == Splice(old(bram[..]), addr, data[..], off, n)
    {
      forall k | 0 <= k < n { bram[addr + k] := data[off + k]; }
    }

    /** read_from_channel at BRAM word `addr`. */
    method ReadFromChannel(addr: nat, n: nat, output: array<real>, off: nat)
      requires Valid() && addr + n <= bram.Length && off + n <= output.Length && output != bram
      modifies output
      ensures output[..] == Splice(old(output[..]), off, bram[..], addr, n)
    {
      forall k | 0 <= k < n { output[off + k] := bram[addr + k]; }
    }

    /** Writing 0x5555 to IP_ADDR starts the computation, which takes any number of polls. */
    method SendOpCode(op: int)
      modifies this
      ensures op == 0x5555 ==> busy
    {
      if op == 0x5555 {
        busy := true;
        pending := *;
      }
    }

    /** Reading IP_ADDR: 0x5555 until the computation is done. */
    method PollOpCode() returns (op: int)
      requires Valid() && busy
      modifies this, bram
      ensures op == 0x5555 ==> busy && pending < old(pending) && bram[..] == old(bram[..])
      ensures op != 0x5555 ==> !busy && bram[..] == Computed(old(bram[..]), size)
    {
      if pending > 0 {
        pending := pending - 1;
        return 0x5555;
      }
      var result := Computed(bram[..], size);
      forall k | 0 <= k < bram.Length { bram[k] := result[k]; }
      busy := false;
      op := 0;
    }

    /** The trigger and the polling loop of the host code. */
    method Compute()
      requires Valid()
      modifies this, bram
      ensures bram[..] == Computed(old(bram[..]), size)
    {
      var op := OP_CODE;
      SendOpCode(op);
      while true
        invariant busy && bram[..] == old(bram[..])
        decreases pending
      {
        op := PollOpCode();
        if op != OP_CODE {
          break;
        }
      }
    }

    /** fpga_matvec. */
    method Matvec(inMatrix: array<real>, inVector: array<real>, outVector: array<real>)
      requires Valid() && inMatrix.Length >= size * size && inVector.Length >= size && outVector.Length >= size
      requires inMatrix != bram && inVector != bram && outVector != bram
      modifies this, bram, outVector
      ensures IsMatVec(outVector[..], 0, old(inMatrix[..]), old(inVector[..]), 0, size, size)
      ensures OnlyWithin(outVector[..], old(outVector[..]), 0, size)
    {
      ghost var b, m, v, out := bram[..], inMatrix[..], inVector[..], outVector[..];
      WriteToChannel(0, size, inVector, 0);
      WriteToChannel(size, size * size, inMatrix, 0);
      LoadBoth(b, m, v, size);
      ghost var loaded := bram[..];
      Compute();
      ReadFromChannel(0, size, outVector, 0);
      ReadProduct(loaded, m, v, out, size);
    }

    /**
      fpga_matmul: the transposed second matrix is written once; each row of the first is written,
      multiplied and read back.
    */
    method Matmul(inMatrix1: array<real>, inMatrix2: array<real>, outMatrix: array<real>)
      requires Valid() && inMatrix1.Length >= size * size && inMatrix2.Length >= size * size
      requires outMatrix.Length >= size * size && outMatrix != inMatrix1 && outMatrix != inMatrix2
      requires inMatrix1 != bram && inMatrix2 != bram && outMatrix != bram
      modifies this, bram, outMatrix
      ensures IsMatMul(outMatrix[..], inMatrix1[..], inMatrix2[..], size, size, size)
      ensures OnlyWithin(outMatrix[..], old(outMatrix[..]), 0, size * size)
    {
      var transposed := new real[size * size];
      MatTransposeNaive(inMatrix2, transposed, size, size);
      WriteToChannel(size, size * size, transposed, 0);
      ghost var a, b, t := inMatrix1[..], inMatrix2[..], transposed[..];
      var k := 0;
      while k < size
        invariant 0 <= k <= size && inMatrix1[..] == a && inMatrix2[..] == b
        invariant HoldsMatrix(bram[..], t, size)
        invariant RowsMultiplied(outMatrix[..], a, b, size, k)
        invariant OnlyWithin(outMatrix[..], old(outMatrix[..]), 0, size * size)
      {
        MatmulRow(inMatrix1, outMatrix, a, b, t, k);
        k := k + 1;
      }
    }

    /** One round of fpga_matmul: row k of the first matrix is written, multiplied and read back. */
    method MatmulRow(inMatrix1: array<real>, outMatrix: array<real>, ghost a: seq<real>, ghost b: seq<real>,
                     ghost t: seq<real>, k: nat)
      requires Valid() && inMatrix1.Length >= size * size && outMatrix.Length >= size * size && k < size
      requires inMatrix1 != bram && outMatrix != bram && outMatrix != inMatrix1 && a == inMatrix1[..]
      requires HoldsMatrix(bram[..], t, size) && IsTranspose(t, b, size, size)
      requires RowsMultiplied(outMatrix[..], a, b, size, k)
      modifies this, bram, outMatrix
      ensures HoldsMatrix(bram[..], t, size) && RowsMultiplied(outMatrix[..], a, b, size, k + 1)
      ensures OnlyWithin(outMatrix[..], old(outMatrix[..]), 0, size * size)
    {
      RowBefore(size, k, size);
      Round(bram[..], outMatrix[..], a, b, t, size, k, size * k);
      var o := size * k;
      WriteToChannel(0, size, inMatrix1, o);
      Compute();
      ReadFromChannel(0, size, outMatrix, o);
    }
  }

  /** What one round does to the bram b0 and the output: row k is added, and everything else needed is kept. */
  lemma {:induction false} Round(b0: seq<real>, out: seq<real>, a: seq<real>, b: seq<real>, t: seq<real>, s: nat,
                                 k: nat, o: nat)
    requires |b0| >= s + s * s && HoldsMatrix(b0, t, s) && IsTranspose(t, b, s, s) && k < s
    requires o == s * k && o + s <= s * s <= |a| && s * s <= |out| && RowsMultiplied(out, a, b, s, k)
    ensures var done := Computed(Splice(b0, 0, a, o, s), s);
            && HoldsMatrix(done, t, s) && RowsMultiplied(Splice(out, o, done, 0, s), a, b, s, k + 1)
            && OnlyWithin(Splice(out, o, done, 0, s), out, 0, s * s)
  {
    LoadRow(b0, a, t, s, o);
    RowMultiplied(Splice(b0, 0, a, o, s), out, a, b, t, s, k);
  }

  /** Writing a row over the vector region, and computing, both leave the matrix region alone. */
  lemma {:induction false} LoadRow(b0: seq<real>, a: seq<real>, t: seq<real>, s: nat, o: nat)
    requires |b0| >= s + s * s && HoldsMatrix(b0, t, s) && o + s <= |a|
    ensures var loaded := Splice(b0, 0, a, o, s);
            && HoldsMatrix(loaded, t, s) && HoldsMatrix(Computed(loaded, s), t, s)
            && forall j :: 0 <= j < s ==> At(loaded, j) == At(a, o + j)
  {
    var loaded := Splice(b0, 0, a, o, s);
    forall k | 0 <= k < s * s
      ensures At(loaded, s + k) == At(t, k) && At(Computed(loaded, s), s + k) == At(t, k)
    {
      assert At(b0, s + k) == At(t, k);
    }
  }

  /** The matrix region of the bram holds m. */
  ghost predicate HoldsMatrix(bram: seq<real>, m: seq<real>, s: nat)
  {
    forall k {:trigger At(m, k)} :: 0 <= k < s * s ==> At(bram, s + k) == At(m, k)
  }

  ghost predicate RowsMultiplied(out: seq<real>, a: seq<real>, b: seq<real>, s: nat, k: nat)
  {
    forall i, j {:trigger Cell(out, s, i, j)} :: 0 <= i < k && 0 <= j < s ==>
      Cell(out, s, i, j) == Dot(a, s * i, b, j, s, s)
  }

  /** Reading the result of row k of a times b into row k of out completes that row and keeps the others. */
  lemma {:induction false} RowMultiplied(loaded: seq<real>, out: seq<real>, a: seq<real>, b: seq<real>, t: seq<real>,
                                         s: nat, k: nat)
    requires |loaded| >= s + s * s && HoldsMatrix(loaded, t, s) && IsTranspose(t, b, s, s)
    requires forall j :: 0 <= j < s ==> At(loaded, j) == At(a, s * k + j)
    requires RowsMultiplied(out, a, b, s, k) && s * k + s <= |out|
    ensures RowsMultiplied(Splice(out, s * k, Computed(loaded, s), 0, s), a, b, s, k + 1)
  {
    var out' := Splice(out, s * k, Computed(loaded, s), 0, s);
    forall i: nat, j: nat | i < k + 1 && j < s
      ensures Cell(out', s, i, j) == Dot(a, s * i, b, j, s, s)
    {
      SpliceCell(out, s, k, 0, Computed(loaded, s), 0, s, i, j);
      if i == k {
        TransposedDot(loaded, a, b, t, s, k, j);
      } else {
        assert Cell(out, s, i, j) == Dot(a, s * i, b, j, s, s);
      }
    }
  }

  lemma {:induction false} TransposedDot(loaded: seq<real>, a: seq<real>, b: seq<real>, t: seq<real>, s: nat, k: nat,
                                         j: nat)
    requires HoldsMatrix(loaded, t, s) && IsTranspose(t, b, s, s) && j < s
    requires forall i :: 0 <= i < s ==> At(loaded, i) == At(a, s * k + i)
    ensures Dot(loaded, s + s * j, loaded, 0, 1, s) == Dot(a, s * k, b, j, s, s)
  {
    forall i | 0 <= i < s
      ensures Term(loaded, s + s * j, loaded, 0, 1, i) == Term(a, s * k, b, j, s, i)
    {
      InRange(s, s, j, i);
      assert At(loaded, s + (s * j + i)) == At(t, s * j + i) == Cell(t, s, j, i) == Cell(b, s, i, j);
    }
    DotEqual(loaded, s + s * j, loaded, 0, 1, a, s * k, b, j, s, s);
  }

  /** The bram holds vector v + vo in its first s words and matrix m in the s * s words after. */
  ghost predicate Loaded(bram: seq<real>, m: seq<real>, v: seq<real>, vo: int, s: nat)
  {
    && (forall k :: 0 <= k < s ==> At(bram, k) == At(v, vo + k))
    && HoldsMatrix(bram, m, s)
  }

  lemma {:induction false} LoadBoth(b: seq<real>, m: seq<real>, v: seq<real>, s: nat)
    requires |b| >= s + s * s && |m| >= s * s && |v| >= s
    ensures Loaded(Splice(Splice(b, 0, v, 0, s), s, m, 0, s * s), m, v, 0, s)
  {}

  lemma {:induction false} ReadProduct(loaded: seq<real>, m: seq<real>, v: seq<real>, out: seq<real>, s: nat)
    requires |loaded| >= s + s * s && Loaded(loaded, m, v, 0, s) && |out| >= s
    ensures IsMatVec(Splice(out, 0, Computed(loaded, s), 0, s), 0, m, v, 0, s, s)
  {
    forall i | 0 <= i < s
      ensures RowProduct(Splice(out, 0, Computed(loaded, s), 0, s), 0, m, v, 0, s, i)
    {
      LoadedDot(loaded, m, v, 0, s, i);
    }
  }

  lemma {:induction false} LoadedDot(bram: seq<real>, m: seq<real>, v: seq<real>, vo: int, s: nat, i: nat)
    requires Loaded(bram, m, v, vo, s) && i < s
    ensures Dot(bram, s + s * i, bram, 0, 1, s) == Dot(m, s * i, v, vo, 1, s)
  {
    forall k | 0 <= k < s
      ensures Term(bram, s + s * i, bram, 0, 1, k) == Term(m, s * i, v, vo, 1, k)
    {
      InRange(s, s, i, k);
      assert At(bram, s + (s * i + k)) == At(m, s * i + k);
    }
    DotEqual(bram, s + s * i, bram, 0, 1, m, s * i, v, vo, 1, s);
  }
}
