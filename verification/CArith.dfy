/** C's integer conventions where they differ from Dafny's. */
module CArith {

  const INT_MIN: int := -0x8000_0000
  const INT_MAX: int := 0x7FFF_FFFF

  const WORDS: int := 0x1_0000_0000

  /** An unsigned char. */
  type Byte = b: int | 0 <= b < 256

  /** A uint32_t. */
  type Word = w: int | 0 <= w < WORDS

  function U8(x: int): Byte { x % 256 }

  function U32(x: int): Word { x % WORDS }

  predicate FitsInt(x: int) {
    INT_MIN <= x <= INT_MAX
  }

  /** Division truncates toward zero. */
  function Quot(a: int, b: int): int
    requires b > 0
  {
    if a >= 0 then a / b else -((-a) / b)
  }

  lemma QuotNat(a: int, b: int)
    requires a >= 0 && b > 0
    ensures Quot(a, b) == a / b
  {
  }

  /** The remainder takes the sign of the dividend. */
  function Rem(a: int, b: int): int
    requires b > 0
  {
    if a >= 0 then a % b else -((-a) % b)
  }

  /** Conversion of a wider integer to a 32-bit int, modulo 2^32. */
  function CastInt(x: int): int {
    (x - INT_MIN) % 0x1_0000_0000 + INT_MIN
  }

  /** Division with remainder is unique. */
  lemma QuotientIs(a: int, k: int, q: int, r: int)
    requires 0 <= r < k && a == k * q + r
    ensures a / k == q && a % k == r
  {
    var d := a / k - q;
    assert k * d == k * (a / k) - k * q;
    assert k * d == r - a % k;
    if d >= 1 {
      MulAtLeast(k, d);
    } else if d <= -1 {
      MulAtLeast(k, -d);
    }
  }

  lemma MulAtLeast(k: nat, d: nat)
    requires d >= 1
    ensures k * d >= k
  {
  }
}
