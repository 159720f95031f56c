/**
 * Decimal text, and the two printers that produce it: the lookup-table printer of
 * cppBase/utility/strutil.cpp and the reversed-remainder printer of muduo/base/LogStream.cc.
 */
module Decimals {
  import opened CArith

  function Digit(d: int): char
    requires 0 <= d < 10
  {
    '0' + d as char
  }

  /** Canonical decimal text. */
  function Decimal(n: nat): (s: string)
    ensures |s| > 0
  {
    if n < 10 then [Digit(n)] else Decimal(n / 10) + [Digit(n % 10)]
  }

  function DecimalInt(v: int): string {
    if v < 0 then "-" + Decimal(-v) else Decimal(v)
  }

  /** Exactly `k` digits, with leading zeros. */
  function Padded(n: nat, k: nat): (s: string)
    ensures |s| == k
  {
    if k == 0 then "" else Padded(n / 10, k - 1) + [Digit(n % 10)]
  }

  function Pow10(k: nat): (p: nat)
    ensures p > 0
  {
    if k == 0 then 1 else 10 * Pow10(k - 1)
  }

  // ----- The text is the only canonical one with its value

  predicate IsDigit(c: char) {
    '0' <= c <= '9'
  }

  predicate Canonical(s: string) {
    && |s| > 0 && (forall c | c in s :: IsDigit(c))
    && (s[0] == '0' ==> |s| == 1)
  }

  function Value(s: string): nat
    requires forall c | c in s :: IsDigit(c)
  {
    if s == "" then 0
    else
      assert s[|s| - 1] in s && IsDigit(s[|s| - 1]);
      10 * Value(s[..|s| - 1]) + (s[|s| - 1] as int - '0' as int)
  }

  lemma {:induction false} DecimalIsCanonical(n: nat)
    ensures Canonical(Decimal(n)) && Value(Decimal(n)) == n
    ensures n > 0 ==> Decimal(n)[0] != '0'
  {
    if n < 10 {
      assert Decimal(n)[..0] == "";
    } else {
      DecimalIsCanonical(n / 10);
      assert Decimal(n)[..|Decimal(n)| - 1] == Decimal(n / 10);
    }
  }

  lemma {:induction false} CanonicalIsDecimal(s: string)
    requires Canonical(s)
    ensures s == Decimal(Value(s))
    ensures s[0] != '0' ==> Value(s) > 0
    decreases |s|
  {
    var n := |s| - 1;
    assert s[n] in s;
    var d := s[n] as int - '0' as int;
    assert s == s[..n] + [Digit(d)];
    if n == 0 {
      assert s[..0] == "";
    } else {
      assert s[0] in s;
      CanonicalIsDecimal(s[..n]);
      QuotientIs(Value(s), 10, Value(s[..n]), d);
    }
  }

  lemma {:induction false} DecimalLength(n: nat, k: nat)
    requires 0 < k && n < Pow10(k)
    ensures |Decimal(n)| <= k
  {
    if n >= 10 {
      assert k > 1;
      DecimalLength(n / 10, k - 1);
    }
  }

  // ----- Splitting a number's text

  lemma {:induction false} SplitDecimal(hi: nat, lo: nat, k: nat)
    requires hi > 0 && lo < Pow10(k)
    ensures Decimal(hi * Pow10(k) + lo) == Decimal(hi) + Padded(lo, k)
    decreases k
  {
    if k > 0 {
      var p := Pow10(k - 1);
      var n := hi * Pow10(k) + lo;
      assert hi * Pow10(k) == 10 * (hi * p);
      QuotientIs(n, 10, hi * p + lo / 10, lo % 10);
      SplitDecimal(hi, lo / 10, k - 1);
      MulAtLeast(p, hi);
      assert n >= 10;
      assert Decimal(hi) + Padded(lo, k) == Decimal(hi) + Padded(lo / 10, k - 1) + [Digit(lo % 10)];
    } else {
      assert Decimal(hi) + "" == Decimal(hi);
    }
  }

  lemma {:induction false} SplitPadded(hi: nat, lo: nat, j: nat, k: nat)
    requires lo < Pow10(k)
    ensures Padded(hi * Pow10(k) + lo, j + k) == Padded(hi, j) + Padded(lo, k)
    decreases k
  {
    if k > 0 {
      var p := Pow10(k - 1);
      var n := hi * Pow10(k) + lo;
      assert hi * Pow10(k) == 10 * (hi * p);
      QuotientIs(n, 10, hi * p + lo / 10, lo % 10);
      SplitPadded(hi, lo / 10, j, k - 1);
      assert Padded(hi, j) + Padded(lo, k) == Padded(hi, j) + Padded(lo / 10, k - 1) + [Digit(lo % 10)];
    } else {
      assert Padded(hi, j) + "" == Padded(hi, j);
    }
  }

  /** The four digits of `v` that are switched on. */
  function Lead4(v: nat, on3: bool, on2: bool, on1: bool, on0: bool): (s: string)
    requires v < 10000
    ensures |s| <= 4
  {
    (if on3 then [Digit(v / 1000)] else "") + (if on2 then [Digit(v / 100 % 10)] else "") +
    (if on1 then [Digit(v / 10 % 10)] else "") + (if on0 then [Digit(v % 10)] else "")
  }

  lemma LeadIsDecimal(v: nat)
    requires v < 10000
    ensures Lead4(v, v >= 1000, v >= 100, v >= 10, true) == Decimal(v)
  {
    assert v / 10 / 10 == v / 100 && v / 100 / 10 == v / 1000;
    assert v >= 10 ==> Decimal(v) == Decimal(v / 10) + [Digit(v % 10)];
    assert v >= 100 ==> Decimal(v / 10) == Decimal(v / 100) + [Digit(v / 10 % 10)];
    assert v >= 1000 ==> Decimal(v / 100) == Decimal(v / 1000) + [Digit(v / 100 % 10)];
  }

  lemma LeadIsPadded(v: nat)
    requires v < 10000
    ensures Lead4(v, true, true, true, true) == Padded(v, 4)
  {
    assert v / 10 / 10 == v / 100 && v / 100 / 10 == v / 1000;
    assert Padded(v / 1000, 1) == [Digit(v / 1000)];
    assert Padded(v / 100, 2) == Padded(v / 1000, 1) + [Digit(v / 100 % 10)];
    assert Padded(v / 10, 3) == Padded(v / 100, 2) + [Digit(v / 10 % 10)];
  }

  // ----- The lookup-table printer

  /** One row of the table: the ten pairs with tens digit `d`. */
  function LutRow(d: char): (row: string)
    ensures |row| == 20
  {
    [d, '0', d, '1', d, '2', d, '3', d, '4', d, '5', d, '6', d, '7', d, '8', d, '9']
  }

  /** `GetDigitsLut`. */
  const DIGITS_LUT: string :=
    LutRow('0') + LutRow('1') + LutRow('2') + LutRow('3') + LutRow('4') +
    LutRow('5') + LutRow('6') + LutRow('7') + LutRow('8') + LutRow('9')

  lemma LutRowEntry(d: char, j: nat)
    requires j < 10
    ensures LutRow(d)[2 * j] == d && LutRow(d)[2 * j + 1] == Digit(j)
  {
  }

  lemma LutRows()
    ensures |DIGITS_LUT| == 200
    ensures forall i | 0 <= i < 10 :: DIGITS_LUT[20 * i..20 * i + 20] == LutRow(Digit(i))
  {
    hide LutRow;
    assert DIGITS_LUT[0..20] == LutRow('0');
    assert DIGITS_LUT[20..40] == LutRow('1');
    assert DIGITS_LUT[40..60] == LutRow('2');
    assert DIGITS_LUT[60..80] == LutRow('3');
    assert DIGITS_LUT[80..100] == LutRow('4');
    assert DIGITS_LUT[100..120] == LutRow('5');
    assert DIGITS_LUT[120..140] == LutRow('6');
    assert DIGITS_LUT[140..160] == LutRow('7');
    assert DIGITS_LUT[160..180] == LutRow('8');
    assert DIGITS_LUT[180..200] == LutRow('9');
  }

  /** Entries 2i and 2i+1 are the two digits of i. */
  lemma LutEntry(i: nat)
    requires i < 100
    ensures |DIGITS_LUT| == 200
    ensures DIGITS_LUT[2 * i] == Digit(i / 10) && DIGITS_LUT[2 * i + 1] == Digit(i % 10)
  {
    LutRows();
    LutRowEntry(Digit(i / 10), i % 10);
    hide LutRow, DIGITS_LUT;
    var row := DIGITS_LUT[20 * (i / 10)..20 * (i / 10) + 20];
    assert row == LutRow(Digit(i / 10));
    assert DIGITS_LUT[2 * i] == row[2 * (i % 10)] && DIGITS_LUT[2 * i + 1] == row[2 * (i % 10) + 1];
  }

  /** `s` with `text` written over it from position `p` on. */
  function Over(s: string, p: nat, text: string): (t: string)
    requires p + |text| <= |s|
    ensures |t| == |s|
  {
    s[..p] + text + s[p + |text|..]
  }

  lemma OverTwice(s: string, p: nat, a: string, b: string)
    requires p + |a| + |b| <= |s|
    ensures Over(Over(s, p, a), p + |a|, b) == Over(s, p, a + b)
  {
  }

  /** `*p++ = c`, if switched on. */
  method PutIf(on: bool, buffer: array<char>, p: nat, c: char) returns (q: nat)
    requires p < buffer.Length
    modifies buffer
    ensures var text := if on then [c] else "";
            q == p + |text| <= buffer.Length && buffer[..] == Over(old(buffer[..]), p, text)
  {
    q := p;
    if on {
      buffer[p] := c;
      q := p + 1;
    }
  }

  lemma LutHalves(v: nat)
    requires v < 10000
    ensures |DIGITS_LUT| == 200
    ensures DIGITS_LUT[v / 100 * 2] == Digit(v / 1000) && DIGITS_LUT[v / 100 * 2 + 1] == Digit(v / 100 % 10)
    ensures DIGITS_LUT[v % 100 * 2] == Digit(v / 10 % 10) && DIGITS_LUT[v % 100 * 2 + 1] == Digit(v % 10)
  {
    hide DIGITS_LUT, Digit;
    LutEntry(v / 100);
    LutEntry(v % 100);
    Halves(v);
  }

  lemma Halves(v: nat)
    requires v < 10000
    ensures v / 100 / 10 == v / 1000 && v % 100 / 10 == v / 10 % 10 && v % 100 % 10 == v % 10
  {
  }

  /** The characters that are switched on, in order. */
  function Select(c3: char, c2: char, c1: char, c0: char, on3: bool, on2: bool, on1: bool, on0: bool): string {
    (if on3 then [c3] else "") + (if on2 then [c2] else "") +
    (if on1 then [c1] else "") + (if on0 then [c0] else "")
  }

  method PutFour(buffer: array<char>, p: nat, c3: char, c2: char, c1: char, c0: char,
                 on3: bool, on2: bool, on1: bool, on0: bool)
    returns (q: nat)
    requires p + 4 <= buffer.Length
    modifies buffer
    ensures var text := Select(c3, c2, c1, c0, on3, on2, on1, on0);
            q == p + |text| <= buffer.Length && buffer[..] == Over(old(buffer[..]), p, text)
  {
    hide Over;
    ghost var s := buffer[..];
    ghost var t3, t2 := if on3 then [c3] else "", if on2 then [c2] else "";
    ghost var t1, t0 := if on1 then [c1] else "", if on0 then [c0] else "";
    q := PutIf(on3, buffer, p, c3);
    q := PutIf(on2, buffer, q, c2);
    OverTwice(s, p, t3, t2);
    q := PutIf(on1, buffer, q, c1);
    OverTwice(s, p, t3 + t2, t1);
    q := PutIf(on0, buffer, q, c0);
    OverTwice(s, p, t3 + t2 + t1, t0);
  }

  /** Writes the digits of `v` that are switched on, with two table entries for each half. */
  method PutLead4(buffer: array<char>, p: nat, v: nat, on3: bool, on2: bool, on1: bool, on0: bool)
    returns (q: nat)
    requires v < 10000 && p + 4 <= buffer.Length
    modifies buffer
    ensures var text := Lead4(v, on3, on2, on1, on0);
            q == p + |text| <= buffer.Length && buffer[..] == Over(old(buffer[..]), p, text)
  {
    hide Over, DIGITS_LUT, Digit;
    var d1, d2 := v / 100 * 2, v % 100 * 2;
    LutHalves(v);
    q := PutFour(buffer, p, DIGITS_LUT[d1], DIGITS_LUT[d1 + 1], DIGITS_LUT[d2], DIGITS_LUT[d2 + 1],
                 on3, on2, on1, on0);
  }

  /** Eight digits: `value = bbbbcccc`. */
  method PutPadded8(buffer: array<char>, p: nat, v: nat) returns (q: nat)
    requires v < 100000000 && p + 8 <= buffer.Length
    modifies buffer
    ensures q == p + 8 && buffer[..] == Over(old(buffer[..]), p, Padded(v, 8))
  {
    hide Over, Lead4, Padded;
    var b, c := v / 10000, v % 10000;
    FourAndFour(v, b, c);
    q := PutLead4(buffer, p, b, true, true, true, true);
    q := PutLead4(buffer, q, c, true, true, true, true);
    OverTwice(old(buffer[..]), p, Padded(b, 4), Padded(c, 4));
  }

  lemma FourAndFour(v: nat, b: nat, c: nat)
    requires b < 10000 && c < 10000 && v == b * 10000 + c
    ensures Padded(v, 8) == Padded(b, 4) + Padded(c, 4)
    ensures Lead4(b, true, true, true, true) == Padded(b, 4)
    ensures Lead4(c, true, true, true, true) == Padded(c, 4)
  {
    TenToTheFour();
    SplitPadded(b, c, 4, 4);
    LeadIsPadded(b);
    LeadIsPadded(c);
  }

  lemma TenToTheFour()
    ensures Pow10(4) == 10000
  {
    assert Pow10(2) == 100;
  }

  lemma TenToTheEight()
    ensures Pow10(8) == 100000000 && Pow10(16) == 10000000000000000 && Pow10(20) == 100000000000000000000
  {
    TenToTheFour();
    assert Pow10(6) == 1000000;
    assert Pow10(8) == 100000000;
    assert Pow10(10) == 10000000000;
    assert Pow10(12) == 1000000000000;
    assert Pow10(14) == 100000000000000;
    assert Pow10(16) == 10000000000000000;
    assert Pow10(18) == 1000000000000000000;
  }

  /** Up to eight digits without leading zeros, each switched on by its own comparison. */
  method PutLead8(buffer: array<char>, p: nat, v: nat, on7: bool, on6: bool, on5: bool, on4: bool,
                  on3: bool, on2: bool, on1: bool, on0: bool)
    returns (q: nat)
    requires v < 100000000 && p + 8 <= buffer.Length
    requires on7 == (v >= 10000000) && on6 == (v >= 1000000) && on5 == (v >= 100000) && on4 == (v >= 10000)
    requires on3 == (v >= 1000) && on2 == (v >= 100) && on1 == (v >= 10) && on0
    modifies buffer
    ensures q == p + |Decimal(v)| <= buffer.Length && buffer[..] == Over(old(buffer[..]), p, Decimal(v))
  {
    hide Over, Lead4, Decimal;
    var b, c := v / 10000, v % 10000;
    Lead8IsDecimal(v);
    q := PutLead4(buffer, p, b, on7, on6, on5, on4);
    q := PutLead4(buffer, q, c, on3, on2, on1, on0);
    OverTwice(old(buffer[..]), p, Lead4(b, on7, on6, on5, on4), Lead4(c, on3, on2, on1, on0));
  }

  lemma Lead8IsDecimal(v: nat)
    requires v < 100000000
    ensures Decimal(v) ==
            Lead4(v / 10000, v >= 10000000, v >= 1000000, v >= 100000, v >= 10000) +
            Lead4(v % 10000, v >= 1000, v >= 100, v >= 10, true)
  {
    var b, c := v / 10000, v % 10000;
    if v < 10000 {
      assert Lead4(b, false, false, false, false) == "";
      LeadIsDecimal(v);
    } else {
      hide Lead4;
      LeadIsDecimal(b);
      LeadIsPadded(c);
      TenToTheFour();
      SplitDecimal(b, c, 4);
    }
  }

  /** The branch for values below 10^8, common to both widths. */
  method PutBelowTen8(buffer: array<char>, p: nat, v: nat) returns (q: nat)
    requires v < 100000000 && p + 8 <= buffer.Length
    modifies buffer
    ensures q == p + |Decimal(v)| <= buffer.Length && buffer[..] == Over(old(buffer[..]), p, Decimal(v))
  {
    hide Over, Lead4, Decimal, Padded;
    if v < 10000 {
      q := PutLead4(buffer, p, v, v >= 1000, v >= 100, v >= 10, true);
      LeadIsDecimal(v);
    } else {
      var b, c := v / 10000, v % 10000;
      q := PutLead4(buffer, p, b, v >= 10000000, v >= 1000000, v >= 100000, true);
      q := PutLead4(buffer, q, c, true, true, true, true);
      LeadIsDecimal(b);
      LeadIsPadded(c);
      assert |Decimal(b)| <= 4;
      OverTwice(old(buffer[..]), p, Decimal(b), Padded(c, 4));
      TenToTheFour();
      SplitDecimal(b, c, 4);
    }
  }

  /** Both digits of the table entry for `i`. */
  method PutPair(buffer: array<char>, p: nat, i: nat) returns (q: nat)
    requires i < 100 && p + 2 <= buffer.Length
    modifies buffer
    ensures q == p + 2 && buffer[..] == Over(old(buffer[..]), p, Pair(i))
  {
    hide Over, DIGITS_LUT, Digit;
    LutEntry(i);
    q := PutIf(true, buffer, p, DIGITS_LUT[2 * i]);
    q := PutIf(true, buffer, q, DIGITS_LUT[2 * i + 1]);
    OverTwice(old(buffer[..]), p, [Digit(i / 10)], [Digit(i % 10)]);
    assert Pair(i) == [Digit(i / 10)] + [Digit(i % 10)];
  }

  /** The leading group of a large value, by its number of digits. */
  method PutTop(buffer: array<char>, p: nat, a: nat) returns (q: nat)
    requires 0 < a < 10000 && p + 4 <= buffer.Length
    modifies buffer
    ensures q == p + |Decimal(a)| <= buffer.Length && buffer[..] == Over(old(buffer[..]), p, Decimal(a))
  {
    hide Over, Decimal, Pair, Digit;
    PairsAreDecimal(a);
    if a < 10 {
      q := PutIf(true, buffer, p, Digit(a));
    } else if a < 100 {
      q := PutPair(buffer, p, a);
    } else if a < 1000 {
      q := PutIf(true, buffer, p, Digit(a / 100));
      q := PutPair(buffer, q, a % 100);
      OverTwice(old(buffer[..]), p, [Digit(a / 100)], Pair(a % 100));
    } else {
      q := PutPair(buffer, p, a / 100);
      q := PutPair(buffer, q, a % 100);
      OverTwice(old(buffer[..]), p, Pair(a / 100), Pair(a % 100));
    }
  }

  function Pair(i: nat): (s: string)
    requires i < 100
    ensures |s| == 2
  {
    [Digit(i / 10), Digit(i % 10)]
  }

  lemma PairsAreDecimal(a: nat)
    requires a < 10000
    ensures Decimal(a) ==
            if a < 10 then [Digit(a)]
            else if a < 100 then Pair(a)
            else if a < 1000 then [Digit(a / 100)] + Pair(a % 100)
            else Pair(a / 100) + Pair(a % 100)
  {
    hide Digit, Decimal;
    LeadIsDecimal(a);
    Halves(a);
    assert a < 10 ==> a % 10 == a && a / 10 == 0;
  }

  method U32toa(value: nat, buffer: array<char>, p: nat) returns (q: nat)
    requires value < 0x1_0000_0000 && p + 10 <= buffer.Length
    modifies buffer
    ensures q == p + |Decimal(value)| <= buffer.Length && buffer[..] == Over(old(buffer[..]), p, Decimal(value))
  {
    hide Over, Decimal, Padded;
    if value < 100000000 {
      q := PutBelowTen8(buffer, p, value);
    } else {
      var a, low := value / 100000000, value % 100000000;
      TenToTheEight();
      DecimalLength2(a);
      q := PutTop(buffer, p, a);
      q := PutPadded8(buffer, q, low);
      OverTwice(old(buffer[..]), p, Decimal(a), Padded(low, 8));
      SplitDecimal(a, low, 8);
    }
  }

  lemma DecimalLength2(a: nat)
    requires a < 100
    ensures |Decimal(a)| <= 2
  {
    assert Pow10(2) == 100;
    DecimalLength(a, 2);
  }

  /** Values from 10^8 up to 10^16. */
  method PutBelowTen16(buffer: array<char>, p: nat, value: nat) returns (q: nat)
    requires 100000000 <= value < 10000000000000000 && p + 16 <= buffer.Length
    modifies buffer
    ensures q == p + |Decimal(value)| <= buffer.Length && buffer[..] == Over(old(buffer[..]), p, Decimal(value))
  {
    hide Over, Decimal, Padded;
    var v0, v1 := value / 100000000, value % 100000000;
    TwoGroups(value, v0, v1);
    Thresholds(value);
    q := PutLead8(buffer, p, v0, value >= 1000000000000000, value >= 100000000000000,
                  value >= 10000000000000, value >= 1000000000000, value >= 100000000000,
                  value >= 10000000000, value >= 1000000000, value >= 100000000);
    q := PutPadded8(buffer, q, v1);
    OverTwice(old(buffer[..]), p, Decimal(v0), Padded(v1, 8));
  }

  lemma Thresholds(value: nat)
    ensures value / 100000000 >= 10000000 <==> value >= 1000000000000000
    ensures value / 100000000 >= 1000000 <==> value >= 100000000000000
    ensures value / 100000000 >= 100000 <==> value >= 10000000000000
    ensures value / 100000000 >= 10000 <==> value >= 1000000000000
    ensures value / 100000000 >= 1000 <==> value >= 100000000000
    ensures value / 100000000 >= 100 <==> value >= 10000000000
    ensures value / 100000000 >= 10 <==> value >= 1000000000
  {
  }

  lemma TwoGroups(value: nat, v0: nat, v1: nat)
    requires 0 < v0 < 100000000 && v1 < 100000000 && value == v0 * 100000000 + v1
    ensures Decimal(value) == Decimal(v0) + Padded(v1, 8)
    ensures |Decimal(v0)| <= 8
  {
    TenToTheEight();
    DecimalLength(v0, 8);
    SplitDecimal(v0, v1, 8);
  }

  /** Values of at least 10^16. */
  method PutFromTen16(buffer: array<char>, p: nat, value: nat) returns (q: nat)
    requires 10000000000000000 <= value < 0x1_0000_0000_0000_0000 && p + 20 <= buffer.Length
    modifies buffer
    ensures q == p + |Decimal(value)| <= buffer.Length && buffer[..] == Over(old(buffer[..]), p, Decimal(value))
  {
    hide Over, Decimal, Padded;
    var kTen8, kTen16 := 100000000, 10000000000000000;
    var a, low := value / kTen16, value % kTen16;
    var v0, v1 := low / kTen8, low % kTen8;
    ghost var s := buffer[..];
    Pow10Bound4(a);
    q := PutTop(buffer, p, a);
    q := PutPadded8(buffer, q, v0);
    OverTwice(s, p, Decimal(a), Padded(v0, 8));
    q := PutPadded8(buffer, q, v1);
    OverTwice(s, p, Decimal(a) + Padded(v0, 8), Padded(v1, 8));
    ThreeGroups(value, a, low, v0, v1);
  }

  lemma ThreeGroups(value: nat, a: nat, low: nat, v0: nat, v1: nat)
    requires a > 0 && value == a * 10000000000000000 + low && low < 10000000000000000
    requires low == v0 * 100000000 + v1 && v1 < 100000000
    ensures Decimal(value) == Decimal(a) + Padded(v0, 8) + Padded(v1, 8)
  {
    hide Decimal, Padded, Pow10;
    TenToTheEight();
    SplitPadded(v0, v1, 8, 8);
    SplitDecimal(a, low, 16);
  }

  method U64toa(value: nat, buffer: array<char>, p: nat) returns (q: nat)
    requires value < 0x1_0000_0000_0000_0000 && p + 20 <= buffer.Length
    modifies buffer
    ensures q == p + |Decimal(value)| <= p + 20 && buffer[..] == Over(old(buffer[..]), p, Decimal(value))
  {
    DecimalLength20(value);
    if value < 100000000 {
      q := PutBelowTen8(buffer, p, value);
    } else if value < 10000000000000000 {
      q := PutBelowTen16(buffer, p, value);
    } else {
      q := PutFromTen16(buffer, p, value);
    }
  }

  lemma Pow10Bound4(a: nat)
    requires a < 10000
    ensures |Decimal(a)| <= 4
  {
    TenToTheFour();
    DecimalLength(a, 4);
  }

  lemma DecimalLength20(n: nat)
    requires n < 0x1_0000_0000_0000_0000
    ensures |Decimal(n)| <= 20
  {
    TenToTheEight();
    DecimalLength(n, 20);
  }

  method I32toa(value: int, buffer: array<char>, p: nat) returns (q: nat)
    requires FitsInt(value) && p + 11 <= buffer.Length
    modifies buffer
    ensures q == p + |DecimalInt(value)| <= buffer.Length && buffer[..] == Over(old(buffer[..]), p, DecimalInt(value))
  {
    hide Over, Decimal;
    var u := value % 0x1_0000_0000;
    q := p;
    if value < 0 {
      q := PutIf(true, buffer, p, '-');
      var complement := 0xFFFF_FFFF - u;
      u := (complement + 1) % 0x1_0000_0000;
      assert u == -value;
    }
    q := U32toa(u, buffer, q);
    if value < 0 {
      OverTwice(old(buffer[..]), p, "-", Decimal(u));
    }
  }

  /** The sign and magnitude are taken from the value's two's complement pattern. */
  method I64toa(value: int, buffer: array<char>, p: nat) returns (q: nat)
    requires -0x8000_0000_0000_0000 <= value < 0x8000_0000_0000_0000 && p + 21 <= buffer.Length
    modifies buffer
    ensures q == p + |DecimalInt(value)| <= p + 21 && buffer[..] == Over(old(buffer[..]), p, DecimalInt(value))
  {
    hide Over, Decimal;
    var u := value % 0x1_0000_0000_0000_0000;
    q := p;
    if value < 0 {
      q := PutIf(true, buffer, p, '-');
      var complement := 0xFFFF_FFFF_FFFF_FFFF - u;
      u := (complement + 1) % 0x1_0000_0000_0000_0000;
      assert u == -value;
    }
    q := U64toa(u, buffer, q);
    if value < 0 {
      OverTwice(old(buffer[..]), p, "-", Decimal(u));
    }
  }

  /** `to_string(int64_t)`: the text and its terminator fit 32 bytes. */
  method Int64ToString(n: int) returns (s: string)
    requires -0x8000_0000_0000_0000 <= n < 0x8000_0000_0000_0000
    ensures s == DecimalInt(n)
  {
    var buf := new char[32](_ => ' ');
    var pos := I64toa(n, buf, 0);
    buf[pos] := '\0';
    s := buf[..pos];
  }

  // ----- The reversed-remainder printer

  const DIGITS: string := "9876543210123456789"

  function Abs(x: int): nat {
    if x < 0 then -x else x
  }

  function Reversed(s: string): string {
    seq(|s|, i requires 0 <= i < |s| => s[|s| - 1 - i])
  }

  lemma ReversedSnoc(s: string, c: char)
    ensures Reversed(s + [c]) == [c] + Reversed(s)
  {
  }

  /** `std::reverse` on part of a buffer. */
  method ReverseRange(buf: array<char>, lo: nat, hi: nat)
    requires lo <= hi <= buf.Length
    modifies buf
    ensures buf[..] == Over(old(buf[..]), lo, Reversed(old(buf[lo..hi])))
  {
    var i, j := lo, hi;
    while i < j && i < j - 1
      invariant lo <= i <= j <= hi && i - lo == hi - j
      invariant forall k | 0 <= k < lo || i <= k < j || hi <= k < buf.Length :: buf[k] == old(buf[k])
      invariant forall k | lo <= k < i || j <= k < hi :: buf[k] == old(buf[lo + hi - 1 - k])
    {
      j := j - 1;
      buf[i], buf[j] := buf[j], buf[i];
      i := i + 1;
    }
  }

  /** The table holds the digit of a remainder of either sign. */
  lemma SignedDigit(d: int)
    requires -10 < d < 10
    ensures DIGITS[9 + d] == Digit(Abs(d))
  {
  }

  /** One division step of either sign takes the last digit of the magnitude. */
  lemma DivideStep(i: int)
    ensures -10 < Rem(i, 10) < 10 && Abs(Rem(i, 10)) == Abs(i) % 10 && Abs(Quot(i, 10)) == Abs(i) / 10
  {
  }

  /** The digits still to come; none once the loop has run and `i` is zero. */
  function Pending(i: int, started: bool): string {
    if started && i == 0 then "" else Decimal(Abs(i))
  }

  lemma PendingStep(i: int, started: bool)
    requires !started || i != 0
    ensures Pending(i, started) == Pending(Quot(i, 10), true) + [Digit(Abs(i) % 10)]
  {
    DivideStep(i);
  }

  lemma OverNothing(s: string, p: nat)
    requires p <= |s|
    ensures Over(s, p, "") == s
  {
  }

  lemma OverHead(s: string, p: nat, a: string, b: string, tail: string)
    requires |a| == |b| && p + |a| + |tail| <= |s|
    ensures Over(s, p, a + tail)[p..p + |a|] == a
    ensures Over(Over(s, p, a + tail), p, b) == Over(s, p, b + tail)
  {
  }

  /** The do-while loop: the digits of the magnitude, last one first. */
  method ConvertDigits(buf: array<char>, at: nat, value: int) returns (p: nat, ghost rev: string)
    requires -0x8000_0000_0000_0000 <= value < 0x1_0000_0000_0000_0000 && at + 20 <= buf.Length
    modifies buf
    ensures Reversed(rev) == Decimal(Abs(value)) && |rev| <= 20
    ensures p == at + |rev| && buf[..] == Over(old(buf[..]), at, rev)
  {
    hide Over, Decimal, Digit;
    DecimalLength20(Abs(value));
    ghost var start := buf[..];
    var i, more := value, true;
    p, rev := at, "";
    OverNothing(start, at);
    while more
      invariant p == at + |rev| <= at + 20 && buf[..] == Over(start, at, rev)
      invariant if more then rev == "" || i != 0 else rev != "" && i == 0
      invariant Decimal(Abs(value)) == Pending(i, rev != "") + Reversed(rev)
      decreases Abs(i) + (if more then 1 else 0)
    {
      PendingStep(i, rev != "");
      DivideStep(i);
      var lsd := Rem(i, 10);
      SignedDigit(lsd);
      var c := DIGITS[9 + lsd];
      ReversedSnoc(rev, c);
      i := Quot(i, 10);
      p := PutIf(true, buf, p, c);
      OverTwice(start, at, rev, [c]);
      rev := rev + [c];
      more := i != 0;
    }
  }

  method Convert(buf: array<char>, at: nat, value: int) returns (len: nat)
    requires -0x8000_0000_0000_0000 <= value < 0x1_0000_0000_0000_0000 && at + 22 <= buf.Length
    modifies buf
    ensures len == |DecimalInt(value)| <= 21
    ensures buf[..] == Over(old(buf[..]), at, DecimalInt(value) + "\0")
  {
    hide Over, Decimal, Digit;
    ghost var start := buf[..];
    var p, rev := ConvertDigits(buf, at, value);
    ghost var sign := if value < 0 then "-" else "";
    p := PutIf(value < 0, buf, p, '-');
    OverTwice(start, at, rev, sign);
    if value < 0 {
      ReversedSnoc(rev, '-');
    } else {
      assert rev + sign == rev;
    }
    rev := rev + sign;
    assert Reversed(rev) == DecimalInt(value);
    var _ := PutIf(true, buf, p, '\0');
    OverTwice(start, at, rev, "\0");
    OverHead(start, at, rev, Reversed(rev), "\0");
    assert buf[at..p] == buf[..][at..p] == rev;
    ReverseRange(buf, at, p);
    len := p - at;
  }
}
