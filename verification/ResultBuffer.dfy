/**
  The result buffer of a cyclic transfer, byte by byte: an array of 256 elements of struct xdma_result,
  which the hardware writes by bus address and the driver reads by index.
*/
module ResultBuffer {
  import opened XdmaTypes
  import opened RxRing

  type u8 = x: int | 0 <= x < 256

  // ----- words in memory, lowest byte first

  function WordBytes(w: u32): seq<u8>
  {
    var q1 := w / 256;
    var q2 := q1 / 256;
    [w % 256, q1 % 256, q2 % 256, q2 / 256]
  }

  function Word(b0: int, b1: int, b2: int, b3: int): int { b0 + 256 * b1 + 65536 * b2 + 16777216 * b3 }

  function WordAt(b: seq<u8>, i: nat): u32
    requires i + 4 <= |b|
  {
    Word(b[i], b[i + 1], b[i + 2], b[i + 3])
  }

  lemma {:induction false} WordParts(w: int, q1: int, q2: int, q3: int, r0: int, r1: int, r2: int)
    requires w == 256 * q1 + r0 && q1 == 256 * q2 + r1 && q2 == 256 * q3 + r2
    ensures Word(r0, r1, r2, q3) == w
  {}

  lemma {:induction false} WordRoundTrip(w: u32, b: seq<u8>, i: nat)
    requires i + 4 <= |b| && b[i..i + 4] == WordBytes(w)
    ensures WordAt(b, i) == w
  {
    var part := b[i..i + 4];
    assert part[0] == b[i] && part[1] == b[i + 1] && part[2] == b[i + 2] && part[3] == b[i + 3];
    var q1 := w / 256;
    var q2 := q1 / 256;
    WordParts(w, q1, q2, q2 / 256, w % 256, q1 % 256, q2 % 256);
  }

  function WordsBytes(words: seq<u32>): (r: seq<u8>)
    ensures |r| == 4 * |words|
  {
    if words == [] then [] else WordBytes(words[0]) + WordsBytes(words[1..])
  }

  lemma {:induction false} FirstWords(words: seq<u32>)
    requires |words| >= 2
    ensures WordsBytes(words)[..4] == WordBytes(words[0]) && WordsBytes(words)[4..8] == WordBytes(words[1])
  {
    assert words[1..][0] == words[1];
  }

  // ----- the buffer

  /** What the driver reads as result[k]: the first two of the eight words of element k. */
  function ReadSlot(b: seq<u8>, k: nat): Result
    requires 32 * k + 32 <= |b|
  {
    Result(WordAt(b, 32 * k), WordAt(b, 32 * k + 4))
  }

  /** The buffer at bus address `base` after the hardware wrote the words of a report at bus address `at`. */
  function Report(b: seq<u8>, base: nat, at: nat, words: seq<u32>): (r: seq<u8>)
    requires base <= at && at + 4 * |words| <= base + |b|
    ensures |r| == |b|
  {
    b[..at - base] + WordsBytes(words) + b[at - base + 4 * |words|..]
  }

  /** A report of eight words at element k is read as result k and leaves every other byte alone. */
  lemma {:induction false} ReportAt(b: seq<u8>, base: nat, k: nat, words: seq<u32>)
    requires k < 256 && |b| == 256 * 32 && |words| == 8
    ensures var b' := Report(b, base, base + 32 * k, words);
            && (forall i :: 0 <= i < |b| && !(32 * k <= i < 32 * k + 32) ==> b'[i] == b[i])
            && ReadSlot(b', k) == Result(words[0], words[1])
            && (forall j :: 0 <= j < 256 && j != k ==> ReadSlot(b', j) == ReadSlot(b, j))
  {
    var b', raw := Report(b, base, base + 32 * k, words), WordsBytes(words);
    assert b'[32 * k..32 * k + 4] == raw[..4] && b'[32 * k + 4..32 * k + 8] == raw[4..8];
    FirstWords(words);
    WordRoundTrip(words[0], b', 32 * k);
    WordRoundTrip(words[1], b', 32 * k + 4);
  }
}
