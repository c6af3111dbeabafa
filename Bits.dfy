/** Go's bitwise operators on `byte`: `&`, `|`, `<<` and `>>`. AND and OR are
    defined bit by bit, least significant bit first, so that what the masks in
    the flags byte compute is proved rather than assumed. */
module Bits {
  import opened GoInts

  /** 2 to the power `n`. */
  function Pow2(n: nat): (r: nat)
    ensures r >= 1
  {
    if n == 0 then 1 else 2 * Pow2(n - 1)
  }

  /** The low `n` bits of the bitwise AND of `a` and `b`. */
  function AndBits(a: nat, b: nat, n: nat): (r: nat)
    ensures r < Pow2(n)
  {
    if n == 0 then 0
    else 2 * AndBits(a / 2, b / 2, n - 1) + (if a % 2 == 1 && b % 2 == 1 then 1 else 0)
  }

  /** The low `n` bits of the bitwise OR of `a` and `b`. */
  function OrBits(a: nat, b: nat, n: nat): (r: nat)
    ensures r < Pow2(n)
  {
    if n == 0 then 0
    else 2 * OrBits(a / 2, b / 2, n - 1) + (if a % 2 == 1 || b % 2 == 1 then 1 else 0)
  }

  lemma Pow2Values()
    ensures Pow2(2) == 4 && Pow2(3) == 8 && Pow2(5) == 32 && Pow2(6) == 64 && Pow2(8) == 256
  {
  }

  /** Go `a & b` on bytes, computed bit by bit. The result is at most
      either operand. */
  function And(a: byte, b: byte): (r: byte)
    ensures r <= a && r <= b
  {
    Pow2Values();
    AndBounds(a, b, 8);
    AndBits(a, b, 8)
  }

  /** Go `a | b` on bytes, computed bit by bit. The result is at least
      either operand. */
  function Or(a: byte, b: byte): (r: byte)
    ensures a <= r && b <= r
  {
    Pow2Values();
    OrBounds(a, b, 8);
    OrBits(a, b, 8)
  }

  /** Go `a << k` on a byte: the product `a * 2^k` with the bits past bit 7
      lost, so the two agree modulo 256. */
  function ShiftLeft(a: byte, k: nat): (r: byte)
    ensures (a * Pow2(k) - r) % 256 == 0
  {
    var m := a * Pow2(k);
    DivUnique(m - m % 256, 256, m / 256, 0);
    m % 256
  }

  /** Go `a >> k` on a byte (a logical shift: bytes are unsigned): the
      quotient of `a` by `2^k`, rounded down. */
  function ShiftRight(a: byte, k: nat): (r: byte)
    ensures r <= a
    ensures r * Pow2(k) <= a < (r + 1) * Pow2(k)
  {
    DivAtMost(a, Pow2(k));
    assert a == Pow2(k) * (a / Pow2(k)) + a % Pow2(k);
    a / Pow2(k)
  }

  /** The AND of two values below 2^n is at most each of them. */
  lemma {:induction false} AndBounds(a: nat, b: nat, n: nat)
    requires a < Pow2(n) && b < Pow2(n)
    ensures AndBits(a, b, n) <= a && AndBits(a, b, n) <= b
  {
    if n > 0 {
      AndBounds(a / 2, b / 2, n - 1);
    }
  }

  /** The OR of two values below 2^n is at least each of them. */
  lemma {:induction false} OrBounds(a: nat, b: nat, n: nat)
    requires a < Pow2(n) && b < Pow2(n)
    ensures a <= OrBits(a, b, n) && b <= OrBits(a, b, n)
  {
    if n > 0 {
      OrBounds(a / 2, b / 2, n - 1);
    }
  }

  /** A shift by `k` is a multiplication or division by the constant `m == 2^k`. */
  lemma ShiftBy(a: byte, k: nat, m: nat)
    requires m == Pow2(k)
    ensures ShiftLeft(a, k) == (a * m) % 256 && ShiftRight(a, k) == a / m
  {
  }

  /** Removing the low bit and then reducing modulo `p` is reducing modulo
      `2 * p` and then removing the low bit. */
  lemma ModDouble(a: nat, p: nat)
    requires p >= 1
    ensures a % (2 * p) == 2 * ((a / 2) % p) + a % 2
  {
    var h := a / 2;
    assert a == 2 * h + a % 2;
    assert h == p * (h / p) + h % p;
    assert a == (2 * p) * (h / p) + (2 * (h % p) + a % 2);
    DivUnique(a, 2 * p, h / p, 2 * (h % p) + a % 2);
  }

  /** OR with zero is the identity on values that fit in `n` bits. */
  lemma {:induction false} OrZero(a: nat, n: nat)
    requires a < Pow2(n)
    ensures OrBits(a, 0, n) == a
  {
    if n > 0 {
      OrZero(a / 2, n - 1);
    }
  }

  /** AND with the mask of the low `k` bits (`mask == 2^k - 1`) keeps the
      remainder modulo 2^k. */
  lemma {:induction false} AndLowMask(a: nat, mask: nat, k: nat, n: nat)
    requires k <= n && mask == Pow2(k) - 1
    ensures AndBits(a, mask, n) == a % Pow2(k)
  {
    if k == 0 {
      AndZero(a, n);
    } else {
      assert mask / 2 == Pow2(k - 1) - 1 && mask % 2 == 1;
      AndLowMask(a / 2, mask / 2, k - 1, n - 1);
      ModDouble(a, Pow2(k - 1));
    }
  }

  /** AND with a zero mask clears every bit. */
  lemma {:induction false} AndZero(a: nat, n: nat)
    ensures AndBits(a, 0, n) == 0
  {
    if n > 0 {
      AndZero(a / 2, n - 1);
    }
  }

  /** AND with the mask of the bits from `k` up to `n` (`mask == 2^n - 2^k`)
      clears the low `k` bits of a value that fits in `n` bits. */
  lemma {:induction false} AndHighMask(a: nat, mask: nat, k: nat, n: nat)
    requires k <= n && a < Pow2(n) && mask + Pow2(k) == Pow2(n)
    ensures AndBits(a, mask, n) == a - a % Pow2(k)
  {
    if k == 0 {
      AndLowMask(a, mask, n, n);
      DivUnique(a, Pow2(n), 0, a);
      DivUnique(a, 1, a, 0);
    } else {
      var p, h := Pow2(k - 1), mask / 2;
      assert mask == 2 * (Pow2(n - 1) - p);
      DivUnique(mask, 2, Pow2(n - 1) - p, 0);
      assert a / 2 < Pow2(n - 1);
      AndHighMask(a / 2, h, k - 1, n - 1);
      assert AndBits(a, mask, n) == 2 * AndBits(a / 2, h, n - 1);
      ModDouble(a, p);
      assert Pow2(k) == 2 * p;
      assert a == 2 * (a / 2) + a % 2;
    }
  }

  /** OR of a multiple of 2^k with a value below 2^k is their sum: the two
      operands have no bit in common. */
  lemma {:induction false} OrDisjoint(a: nat, r: nat, k: nat, n: nat)
    requires a % Pow2(k) == 0 && r < Pow2(k) && a + r < Pow2(n)
    ensures OrBits(a, r, n) == a + r
  {
    if k == 0 {
      OrZero(a, n);
    } else if n > 0 {
      ModDouble(a, Pow2(k - 1));
      OrDisjoint(a / 2, r / 2, k - 1, n - 1);
    }
  }

  /** `b >> 6 & 0x03`, `b >> 3 & 0x07` and `b & 0x07` select the top two bits,
      the middle three bits and the low three bits of a byte. */
  lemma FlagFields(b: byte)
    ensures And(ShiftRight(b, 6), 0x03) == b / 64
    ensures And(ShiftRight(b, 3), 0x07) == (b / 8) % 8
    ensures And(b, 0x07) == b % 8
  {
    LeapField(b);
    VersionField(b);
    Pow2Values();
    AndLowMask(b, 0x07, 3, 8);
  }

  lemma LeapField(b: byte)
    ensures And(ShiftRight(b, 6), 0x03) == b / 64
  {
    Pow2Values();
    ShiftBy(b, 6, 64);
    AndLowMask(b / 64, 0x03, 2, 8);
    DivUnique(b / 64, 4, 0, b / 64);
  }

  lemma VersionField(b: byte)
    ensures And(ShiftRight(b, 3), 0x07) == (b / 8) % 8
  {
    Pow2Values();
    ShiftBy(b, 3, 8);
    AndLowMask(b / 8, 0x07, 3, 8);
  }

  /** `(li << 6) | (vn << 3) | mode` packs three fields into one byte; a leap
      indicator above 3 loses its high bits to the shift. */
  lemma PackFlags(li: byte, vn: byte, mode: byte)
    requires vn < 8 && mode < 8
    ensures Or(Or(ShiftLeft(li, 6), ShiftLeft(vn, 3)), mode) == (li % 4) * 64 + vn * 8 + mode
  {
    Pow2Values();
    var top := (li % 4) * 64;
    ShiftBy(li, 6, 64);
    ShiftBy(vn, 3, 8);
    DivUnique(li * 64, 256, li / 4, top);
    var x, y := ShiftLeft(li, 6), ShiftLeft(vn, 3);
    assert x == top;
    assert y == vn * 8;
    DivUnique(top, 64, li % 4, 0);
    OrDisjoint(top, vn * 8, 6, 8);
    assert Or(x, y) == top + vn * 8;
    DivUnique(top + vn * 8, 8, (li % 4) * 8 + vn, 0);
    OrDisjoint(top + vn * 8, mode, 3, 8);
    assert Or(top + vn * 8, mode) == top + vn * 8 + mode;
  }

  /** Packing the three fields that FlagFields selects gives back the byte. */
  lemma RepackFlags(b: byte)
    ensures Or(Or(ShiftLeft(b / 64, 6), ShiftLeft((b / 8) % 8, 3)), b % 8) == b
  {
    var hi, mid, lo := (b / 8) / 8, (b / 8) % 8, b % 8;
    DivUnique(b / 8, 8, hi, mid);
    DivUnique(b, 8, b / 8, lo);
    assert b == 64 * hi + (8 * mid + lo);
    DivUnique(b, 64, hi, 8 * mid + lo);
    DivUnique(hi, 4, 0, hi);
    PackFlags(b / 64, mid, lo);
  }

  /** `b & 0b11111000 | 0b00000100` keeps the top five bits of a byte and sets
      its low three bits to 4. */
  lemma ForceLowBits(b: byte)
    ensures Or(And(b, 0xF8), 0x04) == (b / 8) * 8 + 4
  {
    Pow2Values();
    AndHighMask(b, 0xF8, 3, 8);
    OrDisjoint((b / 8) * 8, 0x04, 3, 8);
  }
}
