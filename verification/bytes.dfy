/** Bytes and the Java integer operations the memory core applies to them.

    Java stores bytes signed and masks them with `& 0xFF` on every read; the
    model stores the masked, unsigned value directly. On a Java `int` the
    expressions `(v >> k) & 0xFF` and `v & 0xFFFF` agree with Dafny's
    `(v / 2^k) % 0x100` and `v % 0x1_0000`, because `/` by a positive divisor
    floors and `%` is never negative, exactly as two's complement shifting and
    masking behave.
 */
module Bytes {

  type Byte = b: int | 0 <= b < 0x100

  /** `v & 0xFF` */
  function Lo8(v: int): Byte {
    v % 0x100
  }

  /** `v & 0xFFFF` */
  function Lo16(v: int): (r: int)
    ensures 0 <= r < 0x1_0000
  {
    v % 0x1_0000
  }

  predicate IsInt32(v: int) {
    -0x8000_0000 <= v < 0x8000_0000
  }

  /** The Java `int` holding the low 32 bits of `v` (two's complement wrap-around). */
  function Int32(v: int): (r: int)
    ensures IsInt32(r)
  {
    var w := v % 0x1_0000_0000;
    if w < 0x8000_0000 then w else w - 0x1_0000_0000
  }

  /** The big-endian value of four bytes, most significant first. */
  function BigEndian4(b0: Byte, b1: Byte, b2: Byte, b3: Byte): int {
    b0 * 0x100_0000 + b1 * 0x1_0000 + b2 * 0x100 + b3
  }

  /** The bytes `(v >> 8) & 0xFF`, `v & 0xFF`, most significant first. */
  function BytesOf16(v: int): seq<Byte> {
    [Lo8(v / 0x100), Lo8(v)]
  }

  /** The bytes `(v >> 24) & 0xFF` ... `v & 0xFF`, most significant first. */
  function BytesOf32(v: int): seq<Byte> {
    [Lo8(v / 0x100_0000), Lo8(v / 0x1_0000), Lo8(v / 0x100), Lo8(v)]
  }

  /** Wrapping is the identity on values that already fit a Java `int`. */
  lemma Int32OfInt32(v: int)
    requires IsInt32(v)
    ensures Int32(v) == v
  {
    if v >= 0 {
      DivModUnique(v, 0x1_0000_0000, 0, v);
    } else {
      DivModUnique(v, 0x1_0000_0000, -1, v + 0x1_0000_0000);
    }
  }

  /** Wrapping only depends on the value modulo 2^32. */
  lemma Int32OfMod(v: int)
    ensures Int32(v % 0x1_0000_0000) == Int32(v)
  {
    var w := v % 0x1_0000_0000;
    DivModUnique(w, 0x1_0000_0000, 0, w);
  }

  /** Euclidean quotient and remainder are unique. */
  lemma DivModUnique(x: int, d: int, q: int, r: int)
    requires d > 0 && 0 <= r < d && x == d * q + r
    ensures x / d == q && x % d == r
  {
    var q', r' := x / d, x % d;
    assert x == d * q' + r';
    assert d * (q - q') == r' - r;
    MulSmall(d, q - q');
  }

  /** A multiple of `d` strictly between `-d` and `d` is zero. */
  lemma MulSmall(d: int, k: int)
    requires d > 0 && -d < d * k < d
    ensures k == 0
  {
    assert (k >= 1 ==> d * k >= d) && (k <= -1 ==> d * k <= -d);
  }

  /** Splitting off the low byte: `x % (256 m)` is the low byte plus 256 times
      `(x / 256) % m`, and the quotients agree as well. */
  lemma ModSplit(x: int, m: int)
    requires m > 0
    ensures x % (0x100 * m) == (x / 0x100) % m * 0x100 + x % 0x100
    ensures x / (0x100 * m) == (x / 0x100) / m
  {
    var q, r := x / 0x100, x % 0x100;
    var q2, r2 := q / m, q % m;
    assert x == 0x100 * q + r;
    assert q == m * q2 + r2;
    assert x == (0x100 * m) * q2 + (r2 * 0x100 + r);
    assert r2 * 0x100 + r < 0x100 * m;
    DivModUnique(x, 0x100 * m, q2, r2 * 0x100 + r);
  }

  /** `(v & 0xFFFF) & 0xFF` is `v & 0xFF`. */
  lemma Lo8OfLo16(v: int)
    ensures Lo8(Lo16(v)) == Lo8(v)
  {
    ModSplit(v, 0x100);
    DivModUnique(Lo16(v), 0x100, (v / 0x100) % 0x100, v % 0x100);
  }

  /** The two bytes `(v >> 8) & 0xFF` and `v & 0xFF` recompose `v & 0xFFFF`. */
  lemma ByteSplit2(v: int)
    ensures Lo8(v / 0x100) * 0x100 + Lo8(v) == Lo16(v)
  {
    ModSplit(v, 0x100);
  }

  /** The four bytes `(v >> 24) & 0xFF` ... `v & 0xFF` recompose the low 32 bits of `v`. */
  lemma ByteSplit4(v: int)
    ensures BigEndian4(Lo8(v / 0x100_0000), Lo8(v / 0x1_0000), Lo8(v / 0x100), Lo8(v))
            == v % 0x1_0000_0000
  {
    ModSplit(v, 0x100_0000);
    var v1 := v / 0x100;
    ModSplit(v1, 0x1_0000);
    ModSplit(v, 0x100);
    assert v1 / 0x100 == v / 0x1_0000;
    var v2 := v / 0x1_0000;
    ModSplit(v2, 0x100);
    ModSplit(v, 0x1_0000);
    assert v2 / 0x100 == v / 0x100_0000;
  }
}
