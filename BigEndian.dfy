/** The big-endian byte order of Go's `encoding/binary` package: reading and
    writing unsigned 32- and 64-bit integers at a byte offset. */
module BigEndian {
  import opened GoInts

  /** `binary.BigEndian.Uint32(b[i:i+4])`: byte `i` is the most significant
      byte of the result and byte `i + 3` the least. */
  function Uint32(b: seq<byte>, i: nat): (v: u32)
    requires i + 4 <= |b|
    ensures v / 0x100_0000 == b[i] && (v / 0x1_0000) % 0x100 == b[i + 1]
    ensures (v / 0x100) % 0x100 == b[i + 2] && v % 0x100 == b[i + 3]
  {
    var b0, b1, b2, b3 := b[i] as int, b[i + 1] as int, b[i + 2] as int, b[i + 3] as int;
    var v := b0 * 0x100_0000 + b1 * 0x1_0000 + b2 * 0x100 + b3;
    DivUnique(v, 0x100_0000, b0, b1 * 0x1_0000 + b2 * 0x100 + b3);
    DivUnique(v, 0x1_0000, b0 * 0x100 + b1, b2 * 0x100 + b3);
    DivUnique(b0 * 0x100 + b1, 0x100, b0, b1);
    DivUnique(v, 0x100, b0 * 0x1_0000 + b1 * 0x100 + b2, b3);
    DivUnique(b0 * 0x1_0000 + b1 * 0x100 + b2, 0x100, b0 * 0x100 + b1, b2);
    v
  }

  /** `binary.BigEndian.Uint64(b[i:i+8])`: the word at `i` is the high half of
      the result and the word at `i + 4` the low half. */
  function Uint64(b: seq<byte>, i: nat): (v: u64)
    requires i + 8 <= |b|
    ensures v / 0x1_0000_0000 == Uint32(b, i) && v % 0x1_0000_0000 == Uint32(b, i + 4)
  {
    var v := Uint32(b, i) * 0x1_0000_0000 + Uint32(b, i + 4);
    DivUnique(v, 0x1_0000_0000, Uint32(b, i), Uint32(b, i + 4));
    v
  }

  /** The four bytes that `binary.BigEndian.PutUint32` stores for `v`; reading
      them back gives `v`. */
  function Uint32Bytes(v: u32): (r: seq<byte>)
    ensures |r| == 4 && Uint32(r, 0) == v
  {
    SplitWord(v);
    [ByteOf(v / 0x100_0000), ByteOf(v / 0x1_0000), ByteOf(v / 0x100), ByteOf(v)]
  }

  /** A 32-bit value is the sum of its four bytes, each weighted by its place. */
  lemma SplitWord(v: u32)
    ensures v / 0x100_0000 < 0x100
    ensures v == (v / 0x100_0000) * 0x100_0000 + ((v / 0x1_0000) % 0x100) * 0x1_0000
                 + ((v / 0x100) % 0x100) * 0x100 + v % 0x100
  {
    var w1, w2 := v / 0x100, v / 0x1_0000;
    assert v == 0x100 * w1 + v % 0x100;
    assert w1 == 0x100 * (w1 / 0x100) + w1 % 0x100;
    DivUnique(v, 0x1_0000, w1 / 0x100, (w1 % 0x100) * 0x100 + v % 0x100);
    assert w2 == 0x100 * (w2 / 0x100) + w2 % 0x100;
    DivUnique(v, 0x100_0000, w2 / 0x100, (w2 % 0x100) * 0x1_0000 + (w1 % 0x100) * 0x100 + v % 0x100);
  }

  /** The eight bytes that `binary.BigEndian.PutUint64` stores for `v`: the
      high word, then the low word. Reading them back gives `v`. */
  function Uint64Bytes(v: u64): (r: seq<byte>)
    ensures |r| == 8 && Uint64(r, 0) == v
  {
    var r := Uint32Bytes(v / 0x1_0000_0000) + Uint32Bytes(v % 0x1_0000_0000);
    assert Uint32(r, 0) == Uint32(r[..4], 0) && Uint32(r, 4) == Uint32(r[4..], 0);
    r
  }

  /** Four bytes are determined by the 32-bit value they encode. */
  lemma Uint32BytesOf(b: seq<byte>, i: nat)
    requires i + 4 <= |b|
    ensures Uint32Bytes(Uint32(b, i)) == b[i..i + 4]
  {
    var v := Uint32(b, i);
    assert v / 0x100_0000 == b[i];
    assert v / 0x1_0000 == b[i] as int * 0x100 + b[i + 1] as int;
    assert v / 0x100 == b[i] as int * 0x1_0000 + b[i + 1] as int * 0x100 + b[i + 2] as int;
  }

  /** Eight bytes are determined by the 64-bit value they encode. */
  lemma Uint64BytesOf(b: seq<byte>, i: nat)
    requires i + 8 <= |b|
    ensures Uint64Bytes(Uint64(b, i)) == b[i..i + 8]
  {
    var v := Uint64(b, i);
    assert v / 0x1_0000_0000 == Uint32(b, i) && v % 0x1_0000_0000 == Uint32(b, i + 4);
    Uint32BytesOf(b, i);
    Uint32BytesOf(b, i + 4);
    assert b[i..i + 8] == b[i..i + 4] + b[i + 4..i + 8];
  }

  /** Zero bytes decode to zero. */
  lemma ZeroWords(b: seq<byte>, i: nat)
    requires i + 8 <= |b| && forall k :: i <= k < i + 8 ==> b[k] == 0
    ensures Uint32(b, i) == 0 && Uint32(b, i + 4) == 0 && Uint64(b, i) == 0
  {
  }

  /** `n` zero bytes, as `make([]byte, n)` allocates them. */
  function Zeros(n: nat): (r: seq<byte>)
    ensures |r| == n
  {
    seq(n, _ => 0)
  }

  /** `binary.BigEndian.PutUint32(b[i:i+4], v)` on the slice value `b`: the
      four bytes at `i` read back as `v` and no other byte changes. */
  method PutUint32(b: seq<byte>, i: nat, v: u32) returns (r: seq<byte>)
    requires i + 4 <= |b|
    ensures |r| == |b| && Uint32(r, i) == v
    ensures r[..i] == b[..i] && r[i + 4..] == b[i + 4..]
  {
    r := b[..i] + Uint32Bytes(v) + b[i + 4..];
    assert r[i..i + 4] == Uint32Bytes(v);
    assert Uint32(r, i) == Uint32(r[i..i + 4], 0);
  }

  /** `binary.BigEndian.PutUint64(b[i:i+8], v)` on the slice value `b`: the
      eight bytes at `i` read back as `v` and no other byte changes. */
  method PutUint64(b: seq<byte>, i: nat, v: u64) returns (r: seq<byte>)
    requires i + 8 <= |b|
    ensures |r| == |b| && Uint64(r, i) == v
    ensures r[..i] == b[..i] && r[i + 8..] == b[i + 8..]
  {
    r := b[..i] + Uint64Bytes(v) + b[i + 8..];
    assert r[i..i + 8] == Uint64Bytes(v);
    assert Uint32(r, i) == Uint32(r[i..i + 8], 0) && Uint32(r, i + 4) == Uint32(r[i..i + 8], 4);
  }

  /** A 32-bit write just past the filled prefix `done` of a buffer whose rest
      is zero extends the prefix by the four bytes of `v`. */
  lemma PutUint32AfterPrefix(b: seq<byte>, r: seq<byte>, done: seq<byte>, i: nat, v: u32)
    requires |done| == i && i + 4 <= |b| && b == done + Zeros(|b| - i)
    requires |r| == |b| && Uint32(r, i) == v
    requires r[..i] == b[..i] && r[i + 4..] == b[i + 4..]
    ensures r == (done + Uint32Bytes(v)) + Zeros(|b| - i - 4)
  {
    Uint32BytesOf(r, i);
    assert b[..i] == done;
    assert b[i + 4..] == Zeros(|b| - i - 4);
    assert r == r[..i] + r[i..i + 4] + r[i + 4..];
  }

  /** A 64-bit write just past the filled prefix `done` of a buffer whose rest
      is zero extends the prefix by the eight bytes of `v`. */
  lemma PutUint64AfterPrefix(b: seq<byte>, r: seq<byte>, done: seq<byte>, i: nat, v: u64)
    requires |done| == i && i + 8 <= |b| && b == done + Zeros(|b| - i)
    requires |r| == |b| && Uint64(r, i) == v
    requires r[..i] == b[..i] && r[i + 8..] == b[i + 8..]
    ensures r == (done + Uint64Bytes(v)) + Zeros(|b| - i - 8)
  {
    Uint64BytesOf(r, i);
    assert b[..i] == done;
    assert b[i + 8..] == Zeros(|b| - i - 8);
    assert r == r[..i] + r[i..i + 8] + r[i + 8..];
  }

  /** `byte(x >> s)` for a shift `s` of 0, 8, 16 or 24 bits (`d == 2^s`)
      depends only on the low 32 bits of `x`, negative `x` included. */
  lemma ShiftedByteLow32(x: int, d: int, k: int)
    requires d > 0 && k > 0 && d * 256 * k == 0x1_0000_0000
    ensures ByteOf(x / d) == ByteOf((x % 0x1_0000_0000) / d)
  {
    var q, lo := x / 0x1_0000_0000, x % 0x1_0000_0000;
    var y := lo / d;
    assert lo == d * y + lo % d;
    assert q * 0x1_0000_0000 == d * (q * 256 * k);
    DivUnique(x, d, q * 256 * k + y, lo % d);
    DivUnique(q * 256 * k + y, 256, q * k + y / 256, y % 256);
    DivUnique(y, 256, y / 256, y % 256);
  }
}
