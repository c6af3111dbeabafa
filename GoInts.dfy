/** Go's fixed-width integer types and the conversions between them, stated on
    unbounded integers. A conversion keeps the low bits of its operand, so every
    wrap-around of the program is written out where it happens. */
module GoInts {

  /** Go `byte` (`uint8`). */
  type byte = x: int | 0 <= x < 0x100
  /** Go `uint32`. */
  type u32 = x: int | 0 <= x < 0x1_0000_0000
  /** Go `uint64`. */
  type u64 = x: int | 0 <= x < 0x1_0000_0000_0000_0000
  /** Go `int64`. */
  type i64 = x: int | -0x8000_0000_0000_0000 <= x < 0x8000_0000_0000_0000

  /** A Go `error` value that is not nil. */
  datatype GoError = GoError(message: string)

  /** An optional value; `None` stands for Go's nil. */
  datatype Option<T> = None | Some(value: T)

  /** `byte(x)`: the low 8 bits of `x` (two's complement for negative `x`). */
  function ByteOf(x: int): (r: byte)
    ensures (x - r) % 0x100 == 0
    ensures 0 <= x < 0x100 ==> r == x
  {
    DivUnique(x - x % 0x100, 0x100, x / 0x100, 0);
    if 0 <= x < 0x100 then DivUnique(x, 0x100, 0, x); x % 0x100 else x % 0x100
  }

  /** `uint32(x)`: the low 32 bits of `x`. */
  function Uint32Of(x: int): (r: u32)
    ensures (x - r) % 0x1_0000_0000 == 0
    ensures 0 <= x < 0x1_0000_0000 ==> r == x
  {
    DivUnique(x - x % 0x1_0000_0000, 0x1_0000_0000, x / 0x1_0000_0000, 0);
    if 0 <= x < 0x1_0000_0000 then DivUnique(x, 0x1_0000_0000, 0, x); x % 0x1_0000_0000 else x % 0x1_0000_0000
  }

  /** `uint64(x)`: the low 64 bits of `x`. */
  function Uint64Of(x: int): (r: u64)
    ensures (x - r) % 0x1_0000_0000_0000_0000 == 0
    ensures 0 <= x < 0x1_0000_0000_0000_0000 ==> r == x
  {
    DivUnique(x - x % 0x1_0000_0000_0000_0000, 0x1_0000_0000_0000_0000, x / 0x1_0000_0000_0000_0000, 0);
    if 0 <= x < 0x1_0000_0000_0000_0000 then DivUnique(x, 0x1_0000_0000_0000_0000, 0, x); x % 0x1_0000_0000_0000_0000 else x % 0x1_0000_0000_0000_0000
  }

  /** The `int64` that the two's-complement arithmetic of Go produces for the
      mathematical value `x` (an `int64` operation that overflows wraps). */
  function Int64Of(x: int): (r: i64)
    ensures (x - r) % 0x1_0000_0000_0000_0000 == 0
    ensures -0x8000_0000_0000_0000 <= x < 0x8000_0000_0000_0000 ==> r == x
  {
    var m := (x + 0x8000_0000_0000_0000) % 0x1_0000_0000_0000_0000;
    DivUnique(x - (m - 0x8000_0000_0000_0000), 0x1_0000_0000_0000_0000, (x + 0x8000_0000_0000_0000) / 0x1_0000_0000_0000_0000, 0);
    if -0x8000_0000_0000_0000 <= x < 0x8000_0000_0000_0000 then DivUnique(x + 0x8000_0000_0000_0000, 0x1_0000_0000_0000_0000, 0, x + 0x8000_0000_0000_0000); m - 0x8000_0000_0000_0000 else m - 0x8000_0000_0000_0000
  }

  /** Wrapping to `int64` and then reinterpreting as `uint64` keeps exactly the
      low 64 bits of the mathematical value. */
  lemma Uint64OfInt64Of(x: int)
    ensures Uint64Of(Int64Of(x)) == x % 0x1_0000_0000_0000_0000
  {
    var w: int := Int64Of(x);
    var q := (x + 0x8000_0000_0000_0000) / 0x1_0000_0000_0000_0000;
    assert w == (x + 0x8000_0000_0000_0000) % 0x1_0000_0000_0000_0000 - 0x8000_0000_0000_0000;
    assert x + 0x8000_0000_0000_0000 == 0x1_0000_0000_0000_0000 * q + (x + 0x8000_0000_0000_0000) % 0x1_0000_0000_0000_0000;
    assert x == 0x1_0000_0000_0000_0000 * q + w;
    assert w == 0x1_0000_0000_0000_0000 * (w / 0x1_0000_0000_0000_0000) + w % 0x1_0000_0000_0000_0000;
    DivUnique(x, 0x1_0000_0000_0000_0000, q + w / 0x1_0000_0000_0000_0000, w % 0x1_0000_0000_0000_0000);
  }

  /** Wrapping to `int64` and then truncating to `uint32` keeps exactly the low
      32 bits of the mathematical value. */
  lemma Uint32OfInt64Of(x: int)
    ensures Uint32Of(Int64Of(x)) == x % 0x1_0000_0000
  {
    var w: int := Int64Of(x);
    var q := (x + 0x8000_0000_0000_0000) / 0x1_0000_0000_0000_0000;
    assert w == (x + 0x8000_0000_0000_0000) % 0x1_0000_0000_0000_0000 - 0x8000_0000_0000_0000;
    assert x + 0x8000_0000_0000_0000 == 0x1_0000_0000_0000_0000 * q + (x + 0x8000_0000_0000_0000) % 0x1_0000_0000_0000_0000;
    assert x == 0x1_0000_0000_0000_0000 * q + w;
    assert 0x1_0000_0000_0000_0000 * q == 0x1_0000_0000 * (0x1_0000_0000 * q);
    assert w == 0x1_0000_0000 * (w / 0x1_0000_0000) + w % 0x1_0000_0000;
    DivUnique(x, 0x1_0000_0000, 0x1_0000_0000 * q + w / 0x1_0000_0000, w % 0x1_0000_0000);
  }

  /** Euclidean division is unique: `x == d * a + b` with `0 <= b < d` fixes
      the quotient and the remainder. */
  lemma DivUnique(x: int, d: int, a: int, b: int)
    requires d > 0 && x == d * a + b && 0 <= b < d
    ensures x / d == a && x % d == b
  {
    var a2, b2 := x / d, x % d;
    assert d * (a - a2) == b2 - b;
    if a > a2 {
      MulAtLeast(d, a - a2);
    } else if a < a2 {
      MulAtLeast(d, a2 - a);
    }
  }

  lemma MulAtLeast(d: int, n: int)
    requires d > 0 && n >= 1
    ensures d * n >= d
  {
  }

  /** Dividing a natural number by a positive divisor does not increase it. */
  lemma DivAtMost(a: int, d: int)
    requires a >= 0 && d >= 1
    ensures 0 <= a / d <= a
  {
    var q := a / d;
    assert a == d * q + a % d;
    if q >= 1 {
      MulAtLeast(q, d);
    }
  }
}
