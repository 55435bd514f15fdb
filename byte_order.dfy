/** The bit layout of the conversion: composing 4 bytes into a 32-bit word in
    either byte order, the two's-complement reading of that word as an `int32`,
    and the arithmetic-shift-and-truncate extraction of bytes from an `int32`. */
module ByteOrder {
  import opened Base

  /** A 32-bit pattern as an unsigned number. */
  type Word = w: int | 0 <= w < 0x1_0000_0000

  /** Big-endian composition: byte 0 is the most significant. */
  function ComposeBE(m: Quad): (w: Word) {
    m[0] as int * 0x100_0000 + m[1] as int * 0x1_0000 + m[2] as int * 0x100 + m[3]
  }

  /** Little-endian composition: byte 0 is the least significant. */
  function ComposeLE(m: Quad): (w: Word) {
    m[3] as int * 0x100_0000 + m[2] as int * 0x1_0000 + m[1] as int * 0x100 + m[0]
  }

  /** The signed reading of a 32-bit pattern (two's complement). */
  function AsInt32(w: Word): (i: Int32) {
    if w < 0x8000_0000 then w else w - 0x1_0000_0000
  }

  /** The 32-bit pattern of a signed value (two's complement). */
  function AsWord(i: Int32): (w: Word) {
    if i < 0 then i + 0x1_0000_0000 else i
  }

  /** Reading 4 bytes of memory as a native `int32` on a host of the given byte order. */
  function NativeInt32(m: Quad, isBigEndian: bool): (i: Int32)
    ensures i == AsInt32(ComposeBE(if isBigEndian then m else Reversed(m)))
  {
    AsInt32(if isBigEndian then ComposeBE(m) else ComposeLE(m))
  }

  /** The byte order reversed: element `k` is element `3 - k` of the input. */
  function Reversed(q: Quad): (r: Quad) {
    [q[3], q[2], q[1], q[0]]
  }

  /** Go's `byte(x)`: the low 8 bits of `x`. Dafny's `%` by a positive divisor is never
      negative, so this is truncation for negative `x` as well. */
  function Trunc8(x: int): (b: Byte) {
    x % 0x100
  }

  /** Go's `i >> n` on a signed integer: an arithmetic shift, that is division rounded
      toward minus infinity, which is what Dafny's `/` by a positive divisor does. */
  function Shr(i: int, n: nat): (r: int)
    requires n == 0 || n == 8 || n == 16 || n == 24
  {
    i / (if n == 24 then 0x100_0000 else if n == 16 then 0x1_0000 else if n == 8 then 0x100 else 1)
  }

  /** The bytes of `i` most significant first: byte `k` is `byte(i >> (24 - 8k))`. They
      are the bytes of the 32-bit two's-complement pattern of `i`, negative `i` included. */
  function BigEndianBytes(i: Int32): (r: Quad)
    ensures r == WordBytes(AsWord(i))
  {
    var r: Quad := [Trunc8(Shr(i, 24)), Trunc8(Shr(i, 16)), Trunc8(Shr(i, 8)), Trunc8(i)];
    assert i < 0 ==> r == WordBytes(AsWord(i)) by {
      if i < 0 {
        ShiftedByteIgnoresHighMultiple(i, 0x100_0000, 0x100, 1);
        ShiftedByteIgnoresHighMultiple(i, 0x1_0000, 0x100, 0x100);
        ShiftedByteIgnoresHighMultiple(i, 0x100, 0x100, 0x1_0000);
        ShiftedByteIgnoresHighMultiple(i, 1, 0x100, 0x100_0000);
      }
    }
    r
  }

  /** `256^n`. */
  function Pow256(n: nat): (p: nat)
    ensures p >= 1
  {
    if n == 0 then 1 else 0x100 * Pow256(n - 1)
  }

  /** The byte at the lowest address when `value` is stored in `size` bytes on a host of
      the given byte order: the most significant byte on a big-endian host, the least
      significant on a little-endian one. For a 32-bit value that is the first of its
      four bytes in network order on a big-endian host and the last on a little-endian
      one. */
  function LowestAddressByte(value: nat, size: nat, hostBigEndian: bool): (b: Byte)
    requires size >= 1
    ensures size == 4 && value < 0x1_0000_0000 ==>
              b == WordBytes(value)[if hostBigEndian then 0 else 3]
  {
    assert Pow256(3) == 0x100_0000;
    if hostBigEndian then (value / Pow256(size - 1)) % 0x100 else value % 0x100
  }

  lemma {:induction false} Pow256AtLeast(n: nat)
    requires n >= 2
    ensures Pow256(n) >= 0x1_0000
  {
    if n > 2 {
      Pow256AtLeast(n - 1);
    }
  }

  /** Reversing twice restores the bytes. */
  lemma ReversedInvolution(q: Quad)
    ensures Reversed(Reversed(q)) == q
  {
  }

  /** The little-endian reading of the reversed bytes is the big-endian reading of
      the bytes. */
  lemma ComposeLEReversed(q: Quad)
    ensures ComposeLE(Reversed(q)) == ComposeBE(q)
  {
  }

  /** The endianness correction cancels the native reinterpretation: reversing the bytes
      on a little-endian host and leaving them on a big-endian one, then reading them
      natively, gives the two's-complement big-endian value whatever the host. */
  lemma EndiannessCorrection(q: Quad, isBigEndian: bool)
    ensures NativeInt32(if isBigEndian then q else Reversed(q), isBigEndian)
            == AsInt32(ComposeBE(q))
  {
    if !isBigEndian {
      ComposeLEReversed(q);
    }
  }

  /** Without the correction a little-endian host reads a different value. */
  lemma CorrectionNeeded()
    ensures NativeInt32([1, 2, 3, 4], false) == 0x0403_0201
    ensures AsInt32(ComposeBE([1, 2, 3, 4])) == 0x0102_0304
  {
  }

  lemma AsInt32AsWord(i: Int32)
    ensures AsInt32(AsWord(i)) == i
  {
  }

  lemma AsWordAsInt32(w: Word)
    ensures AsWord(AsInt32(w)) == w
  {
  }

  /** Quotient and remainder are determined by the division equation. */
  lemma DivModUnique(x: int, c: int, q: int, r: int)
    requires 0 <= r < c && x == q * c + r
    ensures x / c == q && x % c == r
  {
    var q', r' := x / c, x % c;
    var d := q - q';
    assert d * c == q * c - q' * c;
    assert d * c == r' - r;
  }

  /** Adding a multiple of `m * c` to `x` leaves `(x / c) % m` alone. */
  lemma ShiftedByteIgnoresHighMultiple(x: int, c: int, m: int, k: int)
    requires c > 0 && m > 0
    ensures ((x + k * m * c) / c) % m == (x / c) % m
  {
    DivModUnique(x + k * m * c, c, x / c + k * m, x % c);
    DivModUnique(x / c + k * m, m, (x / c) / m + k, (x / c) % m);
  }

  /** The bytes of a 32-bit pattern, most significant first. */
  function WordBytes(w: Word): (q: Quad) {
    [(w / 0x100_0000) % 0x100, (w / 0x1_0000) % 0x100, (w / 0x100) % 0x100, w % 0x100]
  }

  lemma {:induction false} WordBytesCompose(q: Quad)
    ensures WordBytes(ComposeBE(q)) == q
  {
    var a, b, c, d: int := q[0], q[1], q[2], q[3];
    var w := ComposeBE(q);
    DivModUnique(w, 0x100_0000, a, b * 0x1_0000 + c * 0x100 + d);
    DivModUnique(w, 0x1_0000, a * 0x100 + b, c * 0x100 + d);
    DivModUnique(a * 0x100 + b, 0x100, a, b);
    DivModUnique(w, 0x100, a * 0x1_0000 + b * 0x100 + c, d);
    DivModUnique(a * 0x1_0000 + b * 0x100 + c, 0x100, a * 0x100 + b, c);
  }

  lemma {:induction false} ComposeWordBytes(w: Word)
    ensures ComposeBE(WordBytes(w)) == w
  {
    var h := w / 0x100;
    var hh := h / 0x100;
    DivModUnique(w, 0x1_0000, hh, (h % 0x100) * 0x100 + w % 0x100);
    DivModUnique(w, 0x100_0000, hh / 0x100, (hh % 0x100) * 0x1_0000 + (h % 0x100) * 0x100 + w % 0x100);
  }

  /** Shift-and-truncate extraction inverts the two's-complement big-endian reading. */
  lemma SplitCompose(q: Quad)
    ensures BigEndianBytes(AsInt32(ComposeBE(q))) == q
  {
    var w := ComposeBE(q);
    AsWordAsInt32(w);
    WordBytesCompose(q);
  }

  /** The two's-complement big-endian reading inverts shift-and-truncate extraction. */
  lemma ComposeSplit(i: Int32)
    ensures AsInt32(ComposeBE(BigEndianBytes(i))) == i
  {
    ComposeWordBytes(AsWord(i));
    AsInt32AsWord(i);
  }
}
