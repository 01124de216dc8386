/** The machine integers of the target: fixed widths, wrap-around and C/Rust division. */
module Machine {

  const TWO_TO_THE_16: int := 0x1_0000
  const TWO_TO_THE_31: int := 0x8000_0000
  const TWO_TO_THE_32: int := 0x1_0000_0000
  const TWO_TO_THE_63: int := 0x8000_0000_0000_0000
  const TWO_TO_THE_64: int := 0x1_0000_0000_0000_0000

  type Byte = x: int | 0 <= x < 256
  type UInt16 = x: int | 0 <= x < TWO_TO_THE_16
  type UInt32 = x: int | 0 <= x < TWO_TO_THE_32
  type UInt64 = x: int | 0 <= x < TWO_TO_THE_64
  type Int32 = x: int | -TWO_TO_THE_31 <= x < TWO_TO_THE_31
  type Int64 = x: int | -TWO_TO_THE_63 <= x < TWO_TO_THE_63

  const MIN_INT64: Int64 := -TWO_TO_THE_63

  /** The value kept by a 64-bit two's complement register that is handed `x`. */
  function Wrap64(x: int): Int64 {
    (x + TWO_TO_THE_63) % TWO_TO_THE_64 - TWO_TO_THE_63
  }

  function Wrap32(x: int): UInt32 {
    x % TWO_TO_THE_32
  }

  /** Increment of a 16-bit integer. */
  function Bumped(i: UInt16): UInt16 {
    if i == TWO_TO_THE_16 - 1 then 0 else i + 1
  }

  /** Difference of two 16-bit integers, modulo 65536. */
  function Subtract16(a: UInt16, b: UInt16): UInt16 {
    if b <= a then a - b else a - b + TWO_TO_THE_16
  }

  lemma SmallStays32(x: int)
    requires 0 <= x < TWO_TO_THE_32
    ensures Wrap32(x) == x
  {
  }

  function Least(a: nat, b: nat): nat {
    if a < b then a else b
  }

  /** Division that rounds toward zero. */
  function TruncatedDiv(a: int, b: int): int
    requires b != 0
  {
    if a >= 0 then a / b else -((-a) / b)
  }

  lemma Multiples(size: int, n: int)
    requires size >= 0
    ensures n >= 1 ==> size * n >= size
    ensures n <= -1 ==> size * n <= -size
  {
    if n >= 1 {
      assert size * (n - 1) >= 0;
    } else if n <= -1 {
      assert size * (-n - 1) >= 0;
      assert size * n == -(size * (-n - 1)) - size;
    }
  }

  lemma RemainderIs(x: int, size: nat, q: int, r: nat)
    requires x == size * q + r && r < size
    ensures x % size == r
  {
    var q', r' := x / size, x % size;
    assert size * (q - q') == r' - r;
    Multiples(size, q - q');
  }

  lemma BumpedIsRemainder(n: nat)
    ensures Bumped(n % TWO_TO_THE_16) == (n + 1) % TWO_TO_THE_16
  {
    var q, r := n / TWO_TO_THE_16, n % TWO_TO_THE_16;
    if r == TWO_TO_THE_16 - 1 {
      RemainderIs(n + 1, TWO_TO_THE_16, q + 1, 0);
    } else {
      RemainderIs(n + 1, TWO_TO_THE_16, q, r + 1);
    }
  }

  // ----- bits -----

  predicate IsPowerOfTwo(n: nat) {
    n == 1 || (n > 1 && n % 2 == 0 && IsPowerOfTwo(n / 2))
  }

  /** `x & ~mask`, bit by bit. */
  function Without(x: nat, mask: nat): (r: nat)
    ensures x - mask <= r <= x
  {
    if mask == 0 then x else 2 * Without(x / 2, mask / 2) + (if mask % 2 == 1 then 0 else x % 2)
  }

  /** With the bits below a power of two cleared, what is left is its multiple. */
  lemma {:induction false} WithoutLowBits(x: nat, n: nat)
    requires IsPowerOfTwo(n)
    ensures Without(x, n - 1) == x - x % n
  {
    if n > 1 {
      var h := n / 2;
      WithoutLowBits(x / 2, h);
      assert (n - 1) % 2 == 1 && (n - 1) / 2 == h - 1;
      LowBits(x, h);
    }
  }

  /** `x | mask`. */
  function With(x: nat, mask: nat): nat {
    Without(x, mask) + mask
  }

  /** Setting bits that no operand shares is adding them. */
  lemma {:induction false} WithIsPlus(x: nat, bits: nat, n: nat)
    requires IsPowerOfTwo(n) && x % n == 0 && bits < n
    ensures With(x, bits) == x + bits
  {
    if bits > 0 {
      LowBits(x, n / 2);
      WithIsPlus(x / 2, bits / 2, n / 2);
    }
  }

  lemma LowBits(x: nat, h: nat)
    requires h > 0
    ensures x % (2 * h) == 2 * (x / 2 % h) + x % 2
  {
    var q, r := x / 2 / h, x / 2 % h;
    assert x / 2 == h * q + r;
    assert x == 2 * (h * q) + (2 * r + x % 2) && 2 * (h * q) == (2 * h) * q;
    RemainderIs(x, 2 * h, q, 2 * r + x % 2);
  }
}
