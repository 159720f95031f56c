/** Choosing a group for a channel by highest hash, cppBase/utility/sysutil.h. */
module ChannelHash {
  import opened CArith

  const HALF: int := 0x8000_0000

  function Times(k: int, factor: int): Word { U32(k * factor) }

  /** Bitwise exclusive or. */
  function Xor(a: nat, b: nat): nat {
    if a == 0 && b == 0 then 0 else (if a % 2 == b % 2 then 0 else 1) + 2 * Xor(a / 2, b / 2)
  }

  /** Right shift by `s` bits. */
  function Shr(k: nat, s: nat): nat {
    if s == 0 then k else Shr(k / 2, s - 1)
  }

  /** `k ^ (k >> s)`. */
  function XorShift(k: nat, s: nat): nat {
    Xor(k, Shr(k, s))
  }

  // ----- Thomas Wang's mix

  function Mix1(k: Word): Word { U32(WORDS - 1 - k + Times(k, 0x8000)) }

  function Mix3(k: Word): Word { U32(k + Times(k, 4)) }

  function HashInt(key: Word): Word {
    var k1 := Mix1(key);
    var k2 := MixXor(k1, 12);
    var k3 := Mix3(k2);
    var k4 := MixXor(k3, 4);
    var k5 := Times(k4, 2057);
    MixXor(k5, 16)
  }

  function MixXor(k: Word, s: nat): Word {
    XorShiftBound(k, s);
    XorShift(k, s)
  }

  // ----- Exclusive or

  lemma {:induction false} XorHalf(a: nat, b: nat)
    ensures Xor(a, b) / 2 == Xor(a / 2, b / 2)
    ensures Xor(a, b) % 2 == if a % 2 == b % 2 then 0 else 1
  {
  }

  lemma {:induction false} XorTwice(a: nat, b: nat)
    ensures Xor(Xor(a, b), b) == a
    decreases a + b
  {
    if a != 0 || b != 0 {
      XorTwice(a / 2, b / 2);
      XorHalf(a, b);
    }
  }

  lemma {:induction false} XorBound(a: nat, b: nat, p: nat)
    requires a < Pow2(p) && b < Pow2(p)
    ensures Xor(a, b) < Pow2(p)
  {
    if p > 0 {
      XorBound(a / 2, b / 2, p - 1);
    }
  }

  function Pow2(p: nat): (n: nat)
    ensures n > 0
  {
    if p == 0 then 1 else 2 * Pow2(p - 1)
  }

  lemma {:induction false} ShrBound(k: nat, s: nat)
    ensures Shr(k, s) <= k
    ensures s > 0 && k > 0 ==> Shr(k, s) < k
  {
    if s > 0 {
      ShrBound(k / 2, s - 1);
    }
  }

  lemma WordsIsPow2()
    ensures Pow2(32) == WORDS
  {
    assert Pow2(8) == 0x100;
    assert Pow2(16) == 0x1_0000;
    assert Pow2(24) == 0x100_0000;
  }

  lemma XorWord(a: Word, b: Word)
    ensures Xor(a, b) < WORDS
  {
    WordsIsPow2();
    XorBound(a, b, 32);
  }

  lemma XorShiftBound(k: Word, s: nat)
    ensures XorShift(k, s) < WORDS
  {
    ShrBound(k, s);
    XorWord(k, Shr(k, s));
  }

  /** Shifting distributes over exclusive or. */
  lemma {:induction false} XorShr(a: nat, b: nat, s: nat)
    ensures Shr(Xor(a, b), s) == Xor(Shr(a, s), Shr(b, s))
    decreases s
  {
    if s > 0 {
      XorHalf(a, b);
      XorShr(a / 2, b / 2, s - 1);
    }
  }

  /** Recovers `k` from `k ^ (k >> s)`, from the high bits down. */
  function Unxor(h: Word, s: nat): Word
    requires s > 0
    decreases h
  {
    if h == 0 then 0
    else
      ShrBound(h, s);
      XorWord(h, Unxor(Shr(h, s), s));
      Xor(h, Unxor(Shr(h, s), s))
  }

  lemma {:induction false} XorNotSelf(a: nat, b: nat)
    requires a != b
    ensures Xor(a, b) != 0
    decreases a + b
  {
    if a % 2 == b % 2 {
      XorNotSelf(a / 2, b / 2);
    }
  }

  lemma {:induction false} UnxorMixXor(k: Word, s: nat)
    requires s > 0
    ensures Unxor(MixXor(k, s), s) == k
    decreases k
  {
    ShrBound(k, s);
    if k > 0 {
      UnxorMixXor(Shr(k, s), s);
      XorShr(k, Shr(k, s), s);
      XorTwice(k, Shr(k, s));
      XorNotSelf(k, Shr(k, s));
    }
  }

  lemma {:induction false} MixXorUnxor(h: Word, s: nat)
    requires s > 0
    ensures MixXor(Unxor(h, s), s) == h
    decreases h
  {
    ShrBound(h, s);
    if h > 0 {
      var x := Unxor(Shr(h, s), s);
      MixXorUnxor(Shr(h, s), s);
      XorShr(h, x, s);
      XorTwice(x, Shr(x, s));
      XorTwice(h, x);
    } else {
      ShrBound(0, s);
    }
  }

  // ----- Arithmetic modulo m

  lemma ModPlus(a: int, t: int, m: int)
    requires m > 0
    ensures (a + m * t) % m == a % m
  {
    assert a + m * t == m * (a / m + t) + a % m;
    QuotientIs(a + m * t, m, a / m + t, a % m);
  }

  lemma ModAdd(a: int, b: int, m: int)
    requires m > 0
    ensures (a % m + b) % m == (a + b) % m
  {
    assert a + b == a % m + b + m * (a / m);
    ModPlus(a % m + b, a / m, m);
  }

  lemma ModMul(a: int, b: int, m: int)
    requires m > 0
    ensures (a % m * b) % m == (a * b) % m
  {
    var q, r := a / m, a % m;
    assert a * b == r * b + m * (q * b) by {
      assert (m * q + r) * b == r * b + m * (q * b);
    }
    ModPlus(r * b, q * b, m);
  }

  /** Multiplying by inverse factors gives the number back. */
  lemma InverseFactors(x: int, c: int, i: int, t: int, m: int)
    requires 0 <= x < m && c * i == 1 + m * t
    ensures (x * c % m * i) % m == x
  {
    ModMul(x * c, i, m);
    assert x * c * i == x + m * (x * t) by {
      assert x * c * i == x * (c * i) == x * (1 + m * t) == x + m * (x * t);
    }
    ModPlus(x, x * t, m);
    QuotientIs(x, m, 0, x);
  }

  // ----- The mix undone

  lemma Mix1IsLinear(k: Word)
    ensures Mix1(k) == U32(k * 32767 - 1)
  {
    ModAdd(k * 0x8000, WORDS - 1 - k, WORDS);
    ModPlus(k * 32767 - 1, 1, WORDS);
  }

  lemma Mix3IsTimes5(k: Word)
    ensures Mix3(k) == Times(k, 5)
  {
    ModAdd(k * 4, k, WORDS);
  }

  function Unmix1(h: Word): Word { Times(h + 1, 0xBFFF7FFF) }

  lemma Undo1(k: Word)
    ensures Unmix1(Mix1(k)) == k && Mix1(Unmix1(k)) == k
  {
    Mix1IsLinear(k);
    ModAdd(k * 32767 - 1, 1, WORDS);
    ModMul(Mix1(k) + 1, 0xBFFF7FFF, WORDS);
    InverseFactors(k, 32767, 0xBFFF7FFF, 24575, WORDS);
    Undo1Back(k);
  }

  lemma Undo1Back(h: Word)
    ensures Mix1(Unmix1(h)) == h
  {
    var n := (h + 1) % WORDS;
    Mix1IsLinear(Unmix1(h));
    ModMul(h + 1, 0xBFFF7FFF, WORDS);
    InverseFactors(n, 0xBFFF7FFF, 32767, 24575, WORDS);
    ModAdd(Unmix1(h) * 32767, -1, WORDS);
    ModAdd(h + 1, -1, WORDS);
  }

  function Unmix3(h: Word): Word { Times(h, 0xCCCCCCCD) }

  lemma Undo3(k: Word)
    ensures Unmix3(Mix3(k)) == k && Mix3(Unmix3(k)) == k
  {
    Mix3IsTimes5(k);
    Mix3IsTimes5(Unmix3(k));
    InverseFactors(k, 5, 0xCCCCCCCD, 4, WORDS);
    InverseFactors(k, 0xCCCCCCCD, 5, 4, WORDS);
  }

  lemma Undo5(k: Word)
    ensures Times(Times(k, 2057), 0xC8DE0639) == k && Times(Times(k, 0xC8DE0639), 2057) == k
  {
    InverseFactors(k, 2057, 0xC8DE0639, 1614, WORDS);
    InverseFactors(k, 0xC8DE0639, 2057, 1614, WORDS);
  }

  function UnhashInt(h: Word): Word {
    var k5 := Unxor(h, 16);
    var k4 := Times(k5, 0xC8DE0639);
    var k3 := Unxor(k4, 4);
    var k2 := Unmix3(k3);
    var k1 := Unxor(k2, 12);
    Unmix1(k1)
  }

  /** The mix is a permutation of the 32-bit words. */
  lemma HashIntIsPermutation(k: Word)
    ensures UnhashInt(HashInt(k)) == k && HashInt(UnhashInt(k)) == k
  {
    UnhashHash(k);
    HashUnhash(k);
  }

  lemma UnhashHash(key: Word)
    ensures UnhashInt(HashInt(key)) == key
  {
    hide Mix1, Mix3, MixXor, Unmix1, Unmix3, Unxor, Times;
    var k1 := Mix1(key);
    var k2 := MixXor(k1, 12);
    var k3 := Mix3(k2);
    var k4 := MixXor(k3, 4);
    UnxorMixXor(Times(k4, 2057), 16);
    Undo5(k4);
    UnxorMixXor(k3, 4);
    Undo3(k2);
    UnxorMixXor(k1, 12);
    Undo1(key);
  }

  lemma HashUnhash(h: Word)
    ensures HashInt(UnhashInt(h)) == h
  {
    hide Mix1, Mix3, MixXor, Unmix1, Unmix3, Unxor, Times;
    var k5 := Unxor(h, 16);
    var k4 := Times(k5, 0xC8DE0639);
    var k3 := Unxor(k4, 4);
    var k2 := Unmix3(k3);
    Undo1(Unxor(k2, 12));
    MixXorUnxor(k2, 12);
    Undo3(k3);
    MixXorUnxor(k4, 4);
    Undo5(k5);
    MixXorUnxor(h, 16);
  }

  lemma XorBit(a: nat, b: nat, p: nat, q: nat)
    requires p < 2 && q < 2
    ensures Xor(2 * a + p, 2 * b + q) == 2 * Xor(a, b) + (if p == q then 0 else 1)
  {
  }

  /** Two bits differ. */
  function Differ(p: nat, q: nat): nat {
    if p == q then 0 else 1
  }

  lemma XorFour(a: nat, b: nat, x: (nat, nat, nat, nat), y: (nat, nat, nat, nat))
    requires x.0 < 2 && x.1 < 2 && x.2 < 2 && x.3 < 2 && y.0 < 2 && y.1 < 2 && y.2 < 2 && y.3 < 2
    ensures Xor(16 * a + 8 * x.0 + 4 * x.1 + 2 * x.2 + x.3, 16 * b + 8 * y.0 + 4 * y.1 + 2 * y.2 + y.3) ==
            16 * Xor(a, b) + 8 * Differ(x.0, y.0) + 4 * Differ(x.1, y.1) + 2 * Differ(x.2, y.2) + Differ(x.3, y.3)
  {
    hide Xor;
    XorBit(a, b, x.0, y.0);
    XorBit(2 * a + x.0, 2 * b + y.0, x.1, y.1);
    XorBit(4 * a + 2 * x.0 + x.1, 4 * b + 2 * y.0 + y.1, x.2, y.2);
    XorBit(8 * a + 4 * x.0 + 2 * x.1 + x.2, 8 * b + 4 * y.0 + 2 * y.1 + y.2, x.3, y.3);
  }

  lemma {:induction false} XorNothing(a: nat)
    ensures Xor(a, 0) == a
  {
    if a > 0 {
      XorNothing(a / 2);
    }
  }

  lemma XorExamples()
    ensures Xor(0x7FFE, 7) == 0x7FF9 && Xor(0x2_7FDD, 0x27FD) == 0x2_5820
    ensures Xor(0x12D6_1920, 0x12D6) == 0x12D6_0BF6
  {
    hide Xor;
    XorNothing(0x7FF);
    XorFour(0x7FF, 0, (1, 1, 1, 0), (0, 1, 1, 1));
    XorNothing(2);
    XorFour(2, 0, (0, 1, 1, 1), (0, 0, 1, 0));
    XorFour(0x27, 0x2, (1, 1, 1, 1), (0, 1, 1, 1));
    XorFour(0x27F, 0x27, (1, 1, 0, 1), (1, 1, 1, 1));
    XorFour(0x27FD, 0x27F, (1, 1, 0, 1), (1, 1, 0, 1));
    XorNothing(0x12D6);
    XorFour(0x12D6, 0, (0, 0, 0, 1), (0, 0, 0, 1));
    XorFour(0x1_2D61, 1, (1, 0, 0, 1), (0, 0, 1, 0));
    XorFour(0x12_D619, 0x12, (0, 0, 1, 0), (1, 1, 0, 1));
    XorFour(0x12D_6192, 0x12D, (0, 0, 0, 0), (0, 1, 1, 0));
  }

  lemma ShrFour(k: nat, s: nat)
    ensures Shr(k, s + 4) == Shr(k / 16, s)
  {
    assert Shr(k, s + 4) == Shr(k / 2, s + 3) == Shr(k / 2 / 2, s + 2) == Shr(k / 2 / 2 / 2, s + 1);
    assert k / 2 / 2 / 2 / 2 == k / 16;
  }

  /** The mix of 1. */
  lemma MixExample()
    ensures HashInt(1) == 0x12D6_0BF6
  {
    hide Xor;
    XorExamples();
    assert Mix1(1) == 0x7FFE;
    assert Shr(0x7FFE, 12) == 7;
    assert Mix3(0x7FF9) == 0x2_7FDD;
    assert Shr(0x2_7FDD, 4) == 0x27FD;
    assert Times(0x2_5820, 2057) == 0x12D6_1920;
    ShrFour(0x12D6_1920, 12);
    ShrFour(0x12D_6192, 8);
    ShrFour(0x12_D619, 4);
    ShrFour(0x1_2D61, 0);
  }

  // ----- Hashing a channel name

  /** A signed `char`. */
  type Char = c: int | -128 <= c < 128

  /** What `c_str()` shows: everything before the first NUL. */
  function CString(s: seq<Char>): seq<Char> {
    if s == [] || s[0] == 0 then [] else [s[0]] + CString(s[1..])
  }

  /** The BKDR loop of `hash_string` over a C string. */
  function Bkdr(hash: Word, str: seq<Char>): Word
    decreases |str|
  {
    if str == [] then hash else Bkdr(U32(hash * 131 + str[0]), str[1..])
  }

  function HashString(hash: Word, str: seq<Char>): Word {
    Bkdr(hash, CString(str)) % HALF
  }

  method ComputeHashString(hash: Word, str: seq<Char>) returns (r: Word)
    ensures r == HashString(hash, str)
  {
    var h: Word := hash;
    var i := 0;
    while i < |str| && str[i] != 0
      invariant 0 <= i <= |str|
      invariant Bkdr(h, CString(str[i..])) == Bkdr(hash, CString(str))
    {
      assert str[i..][1..] == str[i + 1..];
      assert CString(str[i..]) == [str[i]] + CString(str[i + 1..]);
      h := U32(h * 131 + str[i]);
      i := i + 1;
    }
    assert CString(str[i..]) == [];
    r := h % HALF;
  }

  /** Only the low 31 bits of the start value matter to the low 31 bits of the hash. */
  lemma LowBits(h: Word, c: Char)
    ensures U32(h * 131 + c) % HALF == (h % HALF * 131 % HALF + c) % HALF
  {
    ModPlus(U32(h * 131 + c), 2 * ((h * 131 + c) / WORDS), HALF);
    assert U32(h * 131 + c) + HALF * (2 * ((h * 131 + c) / WORDS)) == h * 131 + c;
    ModMul(h, 131, HALF);
    ModAdd(h * 131, c, HALF);
  }

  lemma StepIsInjective(g: Word, h: Word, c: Char)
    ensures U32(g * 131 + c) % HALF == U32(h * 131 + c) % HALF <==> g % HALF == h % HALF
  {
    LowBits(g, c);
    LowBits(h, c);
    ShiftIsInjective(g % HALF * 131 % HALF, h % HALF * 131 % HALF, c, HALF);
    InverseFactors(g % HALF, 131, 0x49484E2B, 75, HALF);
    InverseFactors(h % HALF, 131, 0x49484E2B, 75, HALF);
  }

  lemma ShiftIsInjective(x: int, y: int, c: int, m: int)
    requires 0 <= x < m && 0 <= y < m
    ensures (x + c) % m == (y + c) % m <==> x == y
  {
    ModAdd(x + c, -c, m);
    ModAdd(y + c, -c, m);
    QuotientIs(x, m, 0, x);
    QuotientIs(y, m, 0, y);
  }

  lemma {:induction false} BkdrIsInjective(g: Word, h: Word, str: seq<Char>)
    ensures Bkdr(g, str) % HALF == Bkdr(h, str) % HALF <==> g % HALF == h % HALF
    decreases |str|
  {
    if str != [] {
      StepIsInjective(g, h, str[0]);
      BkdrIsInjective(U32(g * 131 + str[0]), U32(h * 131 + str[0]), str[1..]);
    }
  }

  /** 131^n. */
  function Pow131(n: nat): nat {
    if n == 0 then 1 else 131 * Pow131(n - 1)
  }

  /** The sum of s[i] * 131^(n - 1 - i) over a string of length n. */
  function Polynomial(s: seq<Char>): int {
    if s == [] then 0 else s[0] * Pow131(|s| - 1) + Polynomial(s[1..])
  }

  lemma {:induction false} BkdrIsPolynomial(g: Word, s: seq<Char>)
    ensures Bkdr(g, s) == (g * Pow131(|s|) + Polynomial(s)) % WORDS
    decreases |s|
  {
    hide Bkdr, Pow131, Polynomial, U32;
    PolynomialUnfolds(g, s);
    if s == [] {
      QuotientIs(g, WORDS, 0, g);
    } else {
      BkdrIsPolynomial(U32(g * 131 + s[0]), s[1..]);
      PolynomialStep(g, s[0], Pow131(|s| - 1), Polynomial(s[1..]));
    }
  }

  lemma PolynomialUnfolds(g: Word, s: seq<Char>)
    ensures s == [] ==> Bkdr(g, s) == g && g * Pow131(|s|) + Polynomial(s) == g
    ensures s != [] ==>
              && Bkdr(g, s) == Bkdr(U32(g * 131 + s[0]), s[1..])
              && Pow131(|s|) == 131 * Pow131(|s| - 1)
              && Polynomial(s) == s[0] * Pow131(|s| - 1) + Polynomial(s[1..])
  {
  }

  lemma PolynomialStep(g: int, c: int, p: int, rest: int)
    ensures (U32(g * 131 + c) * p + rest) % WORDS == (g * (131 * p) + (c * p + rest)) % WORDS
  {
    var x := g * 131 + c;
    ModMul(x, p, WORDS);
    ModAdd(U32(x) * p, rest, WORDS);
    ModAdd(x * p, rest, WORDS);
    Distribute(g, c, p, rest);
  }

  lemma Distribute(g: int, c: int, p: int, rest: int)
    ensures (g * 131 + c) * p + rest == g * (131 * p) + (c * p + rest)
  {
  }

  lemma {:induction false} CStringIs(s: seq<Char>)
    requires forall i | 0 <= i < |s| :: s[i] != 0
    ensures CString(s) == s
  {
    if s != [] {
      CStringIs(s[1..]);
      assert s == [s[0]] + s[1..];
    }
  }

  /** Whatever follows a NUL does not count. */
  lemma {:induction false} NulEndsString(g: Word, p: seq<Char>, q: seq<Char>)
    requires forall i | 0 <= i < |p| :: p[i] != 0
    ensures HashString(g, p + [0] + q) == HashString(g, p)
    ensures CString(p + [0] + q) == p == CString(p)
    decreases |p|
  {
    CStringIs(p);
    if p != [] {
      NulEndsString(g, p[1..], q);
      assert (p + [0] + q)[1..] == p[1..] + [0] + q;
      assert p == [p[0]] + p[1..];
    }
  }

  /** The hash of a string without NUL is a polynomial in 131, its coefficients the group and the characters. */
  lemma HashIsPolynomial(g: Word, s: seq<Char>)
    requires forall i | 0 <= i < |s| :: s[i] != 0
    ensures HashString(g, s) == (g * Pow131(|s|) + Polynomial(s)) % 0x8000_0000
  {
    hide Bkdr, Pow131, Polynomial, CString;
    CStringIs(s);
    BkdrIsPolynomial(g, s);
    HalfOfWord(g * Pow131(|s|) + Polynomial(s));
  }

  lemma HalfOfWord(x: int)
    ensures x % WORDS % HALF == x % HALF
  {
    ModPlus(x % WORDS, 2 * (x / WORDS), HALF);
    assert x == x % WORDS + HALF * (2 * (x / WORDS));
  }

  lemma {:induction false} BkdrAppend(g: Word, p: seq<Char>, q: seq<Char>)
    ensures Bkdr(g, p + q) == Bkdr(Bkdr(g, p), q)
    decreases |p|
  {
    if p == [] {
      assert p + q == q;
    } else {
      assert (p + q)[1..] == p[1..] + q;
      BkdrAppend(U32(g * 131 + p[0]), p[1..], q);
    }
  }

  lemma CharacterMatters(h: Word, a: Char, b: Char)
    requires a != b
    ensures U32(h * 131 + a) % HALF != U32(h * 131 + b) % HALF
  {
    LowBits(h, a);
    LowBits(h, b);
    hide U32;
    CloseDiffer(h % HALF * 131 % HALF, a, b, HALF);
  }

  lemma CloseDiffer(x: int, a: int, b: int, m: int)
    requires a != b && -m < a - b < m
    ensures (x + a) % m != (x + b) % m
  {
    var d := (x + a) / m - (x + b) / m;
    assert m * d == m * ((x + a) / m) - m * ((x + b) / m);
    if d >= 1 {
      MulAtLeast(m, d);
    } else if d <= -1 {
      MulAtLeast(m, -d);
    }
  }

  /** Channels that differ in one character have different scores in every group. */
  lemma OneCharacterMatters(g: Word, p: seq<Char>, a: Char, b: Char, q: seq<Char>)
    requires a != b && a != 0 && b != 0
    requires (forall i | 0 <= i < |p| :: p[i] != 0) && (forall i | 0 <= i < |q| :: q[i] != 0)
    ensures HashString(g, p + [a] + q) != HashString(g, p + [b] + q)
    ensures Score(p + [a] + q, g) != Score(p + [b] + q, g)
  {
    hide HashInt, UnhashInt, Bkdr, CString;
    CStringIs(p + [a] + q);
    CStringIs(p + [b] + q);
    HashWithCharacter(g, p, a, q);
    HashWithCharacter(g, p, b, q);
    var h := Bkdr(g, p);
    CharacterMatters(h, a, b);
    BkdrIsInjective(U32(h * 131 + a), U32(h * 131 + b), q);
    HashIntIsPermutation(HashString(g, p + [a] + q));
    HashIntIsPermutation(HashString(g, p + [b] + q));
  }

  lemma HashWithCharacter(g: Word, p: seq<Char>, a: Char, q: seq<Char>)
    ensures Bkdr(g, p + [a] + q) == Bkdr(U32(Bkdr(g, p) * 131 + a), q)
  {
    BkdrAppend(g, p + [a], q);
    BkdrAppend(g, p, [a]);
    assert [a][1..] == [];
    assert Bkdr(Bkdr(g, p), [a]) == Bkdr(U32(Bkdr(g, p) * 131 + a), [a][1..]);
  }

  // ----- Choosing a group

  /** The hash that decides between groups. */
  function Score(channel: seq<Char>, group: Word): Word {
    HashInt(HashString(group, channel))
  }

  /** Two groups tie exactly when their ids agree modulo 2^31. */
  lemma ScoresTie(channel: seq<Char>, g: Word, h: Word)
    ensures Score(channel, g) == Score(channel, h) <==> g % HALF == h % HALF
  {
    BkdrIsInjective(g, h, CString(channel));
    HashIntIsPermutation(HashString(g, channel));
    HashIntIsPermutation(HashString(h, channel));
    hide HashInt, Bkdr;
  }

  /** The one word that hashes to zero is not below 2^31, so no score is zero. */
  lemma ScoreIsPositive(channel: seq<Char>, g: Word)
    ensures Score(channel, g) > 0
  {
    hide HashInt, UnhashInt, Bkdr;
    HashIntIsPermutation(HashString(g, channel));
    UnhashZero();
  }

  lemma UnhashZero()
    ensures UnhashInt(0) == 0xBFFF7FFF
  {
    hide Unxor, Times;
    UnxorZero(16);
    UnxorZero(4);
    UnxorZero(12);
    SmallTimes();
  }

  lemma UnxorZero(s: nat)
    requires s > 0
    ensures Unxor(0, s) == 0
  {
  }

  lemma SmallTimes()
    ensures Times(0, 0xC8DE0639) == 0 && Times(0, 0xCCCCCCCD) == 0 && Times(1, 0xBFFF7FFF) == 0xBFFF7FFF
  {
  }

  /** The loop of `hashChannelGroup` from a given maximum on. */
  function Scan(channel: seq<Char>, groups: seq<Word>, maxHash: Word, groupId: Word): Word {
    if groups == [] then groupId
    else
      var h := Score(channel, groups[0]);
      if h > maxHash then Scan(channel, groups[1..], h, groups[0])
      else Scan(channel, groups[1..], maxHash, groupId)
  }

  /** The group chosen when the set is iterated in the given order. */
  function Choose(channel: seq<Char>, groups: seq<Word>): Word {
    Scan(channel, groups, 0, 0)
  }

  method HashChannelGroup(channel: seq<Char>, groups: seq<Word>) returns (groupId: Word)
    ensures groupId == Choose(channel, groups)
    ensures Ascending(groups) && groups != [] ==> Best(channel, groups, groupId)
  {
    var maxHash: Word := 0;
    groupId := 0;
    for i := 0 to |groups|
      invariant Scan(channel, groups[i..], maxHash, groupId) == Choose(channel, groups)
    {
      var s := ComputeHashString(groups[i], channel);
      var h := HashInt(s);
      assert groups[i..][1..] == groups[i + 1..];
      if h > maxHash {
        maxHash := h;
        groupId := groups[i];
      }
    }
    if Ascending(groups) && groups != [] {
      ChoiceIsBest(channel, groups);
    }
  }

  /** A `std::set` iterates in this order. */
  ghost predicate Ascending(groups: seq<Word>) {
    forall i, j | 0 <= i < j < |groups| :: groups[i] < groups[j]
  }

  /** `g` comes before `h`: by the higher score, and among equal scores by the smaller id. */
  predicate Beats(channel: seq<Char>, g: Word, h: Word) {
    Score(channel, g) > Score(channel, h) || (Score(channel, g) == Score(channel, h) && g < h)
  }

  /** `g` is a member that beats all the others. */
  ghost predicate Best(channel: seq<Char>, groups: seq<Word>, g: Word) {
    g in groups && forall h | h in groups && h != g :: Beats(channel, g, h)
  }

  lemma {:induction false} ScanFindsBest(channel: seq<Char>, groups: seq<Word>, maxHash: Word, groupId: Word)
    requires Ascending(groups)
    ensures var r := Scan(channel, groups, maxHash, groupId);
            (r == groupId && forall h | h in groups :: Score(channel, h) <= maxHash) ||
            (Best(channel, groups, r) && Score(channel, r) > maxHash)
    decreases |groups|
  {
    hide Score;
    if groups != [] {
      var h := Score(channel, groups[0]);
      assert forall i | 0 < i < |groups| :: groups[i] == groups[1..][i - 1];
      assert forall x | x in groups[1..] :: x > groups[0];
      assert forall x | x in groups :: x == groups[0] || x in groups[1..];
      if h > maxHash {
        ScanFindsBest(channel, groups[1..], h, groups[0]);
      } else {
        ScanFindsBest(channel, groups[1..], maxHash, groupId);
      }
    }
  }

  /** The choice has the highest score, and it is the smallest id that has it. */
  lemma ChoiceIsBest(channel: seq<Char>, groups: seq<Word>)
    requires groups != [] && Ascending(groups)
    ensures Best(channel, groups, Choose(channel, groups))
  {
    hide Score;
    ScanFindsBest(channel, groups, 0, 0);
    ScoreIsPositive(channel, groups[0]);
    assert groups[0] in groups;
  }

  lemma BestIsUnique(channel: seq<Char>, groups: seq<Word>, g: Word, h: Word)
    requires Best(channel, groups, g) && Best(channel, groups, h)
    ensures g == h
  {
    hide Score;
  }

  /** Ids that agree in their low 31 bits share every score, so the larger one never gets a channel. */
  lemma LargerOfTiesNeverChosen(channel: seq<Char>, groups: seq<Word>, g: Word, h: Word)
    requires Ascending(groups) && g in groups && h in groups && g < h && g % HALF == h % HALF
    ensures Choose(channel, groups) != h
  {
    hide Score;
    ScoresTie(channel, g, h);
    ChoiceIsBest(channel, groups);
  }

  /** A member left out scores strictly lower exactly when its id differs in the low 31 bits. */
  lemma ChoiceIsStrict(channel: seq<Char>, groups: seq<Word>, h: Word)
    requires Ascending(groups) && h in groups && h != Choose(channel, groups)
    ensures Score(channel, h) < Score(channel, Choose(channel, groups)) <==>
            h % HALF != Choose(channel, groups) % HALF
  {
    hide Score;
    ChoiceIsBest(channel, groups);
    ScoresTie(channel, h, Choose(channel, groups));
  }

  /** Ids 2^31 apart tie, and every channel goes to the smaller. */
  lemma TieExample(channel: seq<Char>, g: Word)
    requires g < HALF
    ensures Score(channel, g) == Score(channel, g + HALF) && Choose(channel, [g, g + HALF]) == g
  {
    hide Score, Choose;
    var groups := [g, g + HALF];
    ScoresTie(channel, g, g + HALF);
    assert groups[0] == g && groups[1] == g + HALF && g % HALF == (g + HALF) % HALF;
    LargerOfTiesNeverChosen(channel, groups, g, g + HALF);
    ChoiceIsBest(channel, groups);
  }

  /** Adding a group, even the first one, moves a channel only to the new group. */
  lemma AddingMovesOnlyToNew(channel: seq<Char>, groups: seq<Word>, more: seq<Word>, g: Word)
    requires Ascending(groups) && Ascending(more)
    requires forall x :: x in more <==> x in groups || x == g
    ensures Choose(channel, more) == g || Choose(channel, more) == Choose(channel, groups)
  {
    hide Score;
    assert g in more;
    ChoiceIsBest(channel, more);
    var r := Choose(channel, more);
    if r != g {
      assert r in groups;
      ChoiceIsBest(channel, groups);
      BestIsUnique(channel, groups, r, Choose(channel, groups));
    }
  }

  /** Removing a group that was not chosen changes nothing. */
  lemma RemovingOthersKeepsChoice(channel: seq<Char>, groups: seq<Word>, fewer: seq<Word>, g: Word)
    requires Ascending(groups) && Ascending(fewer) && g in groups && g != Choose(channel, groups)
    requires forall x :: x in fewer <==> x in groups && x != g
    ensures Choose(channel, fewer) == Choose(channel, groups)
  {
    hide Score;
    ChoiceIsBest(channel, groups);
    var r := Choose(channel, groups);
    assert r in fewer;
    ChoiceIsBest(channel, fewer);
    BestIsUnique(channel, fewer, r, Choose(channel, fewer));
  }

  // ----- Other orders than the set's

  /** Ids below 2^31, or more generally ids that differ in their low 31 bits. */
  ghost predicate Separated(groups: seq<Word>) {
    forall g, h | g in groups && h in groups && g % HALF == h % HALF :: g == h
  }

  lemma {:induction false} ScanFindsMaximum(channel: seq<Char>, groups: seq<Word>, maxHash: Word, groupId: Word)
    ensures var r := Scan(channel, groups, maxHash, groupId);
            (r == groupId && forall h | h in groups :: Score(channel, h) <= maxHash) ||
            (r in groups && Score(channel, r) > maxHash &&
             forall h | h in groups :: Score(channel, h) <= Score(channel, r))
    decreases |groups|
  {
    hide Score;
    if groups != [] {
      var h := Score(channel, groups[0]);
      if h > maxHash {
        ScanFindsMaximum(channel, groups[1..], h, groups[0]);
      } else {
        ScanFindsMaximum(channel, groups[1..], maxHash, groupId);
      }
      assert forall x | x in groups :: x == groups[0] || x in groups[1..];
    }
  }

  lemma BestInAnyOrder(channel: seq<Char>, groups: seq<Word>)
    requires groups != [] && Separated(groups)
    ensures Best(channel, groups, Choose(channel, groups))
  {
    hide Score;
    ScanFindsMaximum(channel, groups, 0, 0);
    ScoreIsPositive(channel, groups[0]);
    assert groups[0] in groups;
    var r := Choose(channel, groups);
    forall h | h in groups && h != r ensures Beats(channel, r, h) {
      ScoresTie(channel, h, r);
    }
  }

  /** Where no scores tie, the choice does not depend on the iteration order. */
  lemma OrderDoesNotMatter(channel: seq<Char>, groups: seq<Word>, reordered: seq<Word>)
    requires Separated(groups) && multiset(groups) == multiset(reordered)
    ensures Choose(channel, groups) == Choose(channel, reordered)
  {
    hide Score, Choose;
    assert |groups| == |multiset(groups)| == |reordered|;
    assert forall g :: g in groups <==> g in multiset(groups);
    assert forall g :: g in reordered <==> g in multiset(reordered);
    if groups != [] {
      BestInAnyOrder(channel, groups);
      BestInAnyOrder(channel, reordered);
      BestIsUnique(channel, groups, Choose(channel, groups), Choose(channel, reordered));
    } else {
      assert groups == reordered;
    }
  }
}
