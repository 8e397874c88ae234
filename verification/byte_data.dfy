/** The smaller of two numbers. */
module Numbers {
  function Min(a: int, b: int): int { if a < b then a else b }
}

/** Bytes and the little-endian words that the loader's structures are made of. */
module ByteData {
  type byte = x: int | 0 <= x < 256

  type Bytes = seq<byte>

  const WORD_LIMIT := 0x1_0000_0000

  datatype Option<T> = None | Some(value: T)

  /** The 32-bit word at offset `at`. */
  function Le32At(b: Bytes, at: nat): (n: nat)
    requires at + 4 <= |b|
    ensures n < WORD_LIMIT
  {
    b[at] as int + 0x100 * b[at + 1] as int + 0x1_0000 * b[at + 2] as int + 0x100_0000 * b[at + 3] as int
  }

  function Le32(n: nat): (b: Bytes)
    requires n < WORD_LIMIT
    ensures |b| == 4 && Le32At(b, 0) == n
  {
    var b := [n % 0x100, n / 0x100 % 0x100, n / 0x1_0000 % 0x100, n / 0x100_0000];
    DigitsOf(n);
    b
  }

  lemma DigitsOf(n: nat)
    ensures n == n % 0x100 + 0x100 * (n / 0x100 % 0x100) + 0x1_0000 * (n / 0x1_0000 % 0x100)
                 + 0x100_0000 * (n / 0x100_0000)
  {
    assert n / 0x1_0000 == n / 0x100 / 0x100;
    assert n / 0x100_0000 == n / 0x100 / 0x100 / 0x100;
  }

  /** Words are read the same out of a larger piece of memory. */
  lemma Le32Inside(b: Bytes, from: nat, piece: Bytes, at: nat)
    requires from + |piece| <= |b| && b[from..from + |piece|] == piece && at + 4 <= |piece|
    ensures Le32At(b, from + at) == Le32At(piece, at)
  {
    var p := b[from..from + |piece|];
    assert p[at] == b[from + at] && p[at + 1] == b[from + at + 1];
    assert p[at + 2] == b[from + at + 2] && p[at + 3] == b[from + at + 3];
  }

  lemma SameWord(x: Bytes, y: Bytes, at: nat)
    requires at + 4 <= |x| && at + 4 <= |y| && x[at..at + 4] == y[at..at + 4]
    ensures Le32At(x, at) == Le32At(y, at)
  {
    var p, q := x[at..at + 4], y[at..at + 4];
    assert p[0] == q[0] && p[1] == q[1] && p[2] == q[2] && p[3] == q[3];
  }

  lemma SliceOfSlice(b: Bytes, from: nat, n: nat, at: nat, m: nat)
    requires from + n <= |b| && at + m <= n
    ensures b[from..from + n][at..at + m] == b[from + at..from + at + m]
  {
    var x, y := b[from..from + n][at..at + m], b[from + at..from + at + m];
    assert |x| == |y|;
    assert forall k :: 0 <= k < m ==> x[k] == y[k];
  }

  /** Bytes with others written over them from offset `at` on. */
  function Updated(b: Bytes, at: nat, data: Bytes): (c: Bytes)
    requires at + |data| <= |b|
    ensures |c| == |b|
  {
    b[..at] + data + b[at + |data|..]
  }
}
