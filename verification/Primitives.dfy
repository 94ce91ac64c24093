/** Machine integers, byte strings and the outcome type shared by every module. */
module Primitives {

  type Byte = x: int | 0 <= x < 0x100
  type Bytes = seq<Byte>
  type Word = b: Bytes | |b| == 32 witness seq(32, _ => 0)
  type U8 = x: int | 0 <= x < 0x100
  type U16 = x: int | 0 <= x < 0x1_0000
  type U32 = x: int | 0 <= x < 0x1_0000_0000
  type I32 = x: int | -0x8000_0000 <= x < 0x8000_0000
  type U64 = x: int | 0 <= x < U64_LIMIT

  const U64_LIMIT: int := 0x1_0000_0000_0000_0000

  datatype Option<+T> = None | Some(value: T)

  datatype Result<+T, +E> = Ok(value: T) | Err(error: E)

  /** The number a byte string denotes, most significant byte first. */
  function BigEndian(b: Bytes): nat
  {
    if b == [] then 0 else 0x100 * BigEndian(b[..|b| - 1]) + b[|b| - 1]
  }

  function Pow2(n: nat): (r: nat)
    ensures r > 0
  {
    if n == 0 then 1 else 2 * Pow2(n - 1)
  }

  lemma {:induction false} Pow2Add(a: nat, b: nat)
    ensures Pow2(a + b) == Pow2(a) * Pow2(b)
  {
    if a != 0 {
      Pow2Add(a - 1, b);
      assert Pow2(a + b) == 2 * (Pow2(a - 1) * Pow2(b)) == (2 * Pow2(a - 1)) * Pow2(b);
    }
  }

  /** `n` as `width` bytes, most significant first. */
  function ToBytes(n: nat, width: nat): (b: Bytes)
    ensures |b| == width
    decreases width, n  // naming `n` keeps constant widths from being unfolded
  {
    if width == 0 then [] else ToBytes(n / 0x100, width - 1) + [n % 0x100]
  }

  lemma {:induction false} ReadsBack(n: nat, width: nat)
    requires n < Pow2(8 * width)
    ensures BigEndian(ToBytes(n, width)) == n
  {
    if width != 0 {
      Pow2Add(8 * (width - 1), 8);
      assert Pow2(8) == 0x100;
      ReadsBack(n / 0x100, width - 1);
      assert ToBytes(n, width)[..width - 1] == ToBytes(n / 0x100, width - 1);
    }
  }

  lemma {:induction false} WritesBack(b: Bytes)
    ensures ToBytes(BigEndian(b), |b|) == b
  {
    if b != [] { WritesBack(b[..|b| - 1]); }
  }

  lemma {:induction false} WordSizes()
    ensures Pow2(16) == 0x1_0000 && Pow2(32) == 0x1_0000_0000 && Pow2(64) == U64_LIMIT
  {
    assert Pow2(8) == 0x100;
    Pow2Add(8, 8);
    Pow2Add(16, 16);
    Pow2Add(32, 32);
  }

  lemma {:induction false} Pow2Monotone(a: nat, b: nat)
    requires a <= b
    ensures Pow2(a) <= Pow2(b)
  {
    if a < b { Pow2Monotone(a, b - 1); }
  }

  lemma {:induction false} MulMonotone(a: nat, b: nat, c: nat)
    requires a <= b
    ensures a * c <= b * c
  {
  }
}
