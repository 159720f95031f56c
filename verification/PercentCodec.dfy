/** Percent encoding of C strings, cppBase/utility/url_code.cpp. */
module PercentCodec {
  import opened CArith
  import opened Sequences

  /** A byte of a C string: anything but the terminator. */
  type NonNul = b: int | 0 < b < 256 witness 1

  function ToHex(x: int): Byte {
    if x > 9 then U8(x - 10 + 'A' as int) else U8(x + '0' as int)
  }

  predicate IsDigitByte(x: int) {
    '0' as int <= x <= '9' as int
  }

  function FromHex(x: Byte): Byte {
    if IsDigitByte(x) then U8(x - '0' as int) else U8(x - 'A' as int + 10)
  }

  /** Bitwise or. */
  function Or(a: nat, b: nat): nat {
    if a == 0 && b == 0 then 0 else (if a % 2 == 1 || b % 2 == 1 then 1 else 0) + 2 * Or(a / 2, b / 2)
  }

  /** What the decoder makes of two digits. */
  function TwoDigits(first: Byte, second: Byte): Byte {
    U8(Or(U8(FromHex(first) * 16), FromHex(second)))
  }

  predicate IsAlnumByte(b: int) {
    IsDigitByte(b) || 'A' as int <= b <= 'Z' as int || 'a' as int <= b <= 'z' as int
  }

  const PERCENT: int := '%' as int
  const PLUS: int := '+' as int
  const SPACE: int := ' ' as int

  /** What one byte becomes. */
  function Escape(b: NonNul): (r: seq<NonNul>)
    ensures |r| == if IsAlnumByte(b) then 1 else 3
  {
    if IsAlnumByte(b) then [b] else [PERCENT, ToHex(b / 16), ToHex(b % 16)]
  }

  function UrlEncode(s: seq<NonNul>): seq<NonNul> {
    if s == [] then [] else Escape(s[0]) + UrlEncode(s[1..])
  }

  /** Letters and digits stay; any other byte becomes a percent sign and two upper-case digits. */
  lemma EscapeIs(b: NonNul)
    ensures Escape(b) ==
            if 48 <= b <= 57 || 65 <= b <= 90 || 97 <= b <= 122 then [b]
            else [37, "0123456789ABCDEF"[b / 16] as int, "0123456789ABCDEF"[b % 16] as int]
  {
    HexDigit(b / 16);
    HexDigit(b % 16);
  }

  lemma HexDigit(x: int)
    requires 0 <= x < 16
    ensures ToHex(x) == "0123456789ABCDEF"[x] as int
  {
  }

  method ComputeUrlEncode(sIn: seq<NonNul>, before: seq<NonNul>) returns (strOut: seq<NonNul>)
    ensures strOut == before + UrlEncode(sIn)
  {
    strOut := before;
    for ix := 0 to |sIn|
      invariant strOut + UrlEncode(sIn[ix..]) == before + UrlEncode(sIn)
    {
      assert sIn[ix..][1..] == sIn[ix + 1..];
      strOut := strOut + Escape(sIn[ix]);
    }
    assert sIn[|sIn|..] == [];
  }

  /**
   * Decoding a C string. A percent sign always takes the next two bytes. If it is the last byte, the
   * second of them lies beyond the terminator, and the result is `None`; if it is the last but one,
   * the second is the terminator.
   */
  function UrlDecode(s: seq<NonNul>): Option<seq<Byte>>
    decreases |s|
  {
    if s == [] then Some([])
    else if s[0] == PERCENT then
      if |s| < 2 then None
      else
        var second: Byte := if |s| == 2 then 0 else s[2];
        Prepend(TwoDigits(s[1], second), UrlDecode(if |s| == 2 then [] else s[3..]))
    else Prepend(if s[0] == PLUS then SPACE else s[0], UrlDecode(s[1..]))
  }

  function Prepend(b: Byte, rest: Option<seq<Byte>>): Option<seq<Byte>> {
    if rest.None? then None else Some([b] + rest.value)
  }

  function Append(front: seq<Byte>, rest: Option<seq<Byte>>): Option<seq<Byte>> {
    if rest.None? then None else Some(front + rest.value)
  }

  lemma AppendNothing(rest: Option<seq<Byte>>)
    ensures Append([], rest) == rest
  {
    if rest.Some? {
      assert [] + rest.value == rest.value;
    }
  }

  lemma AppendPrepend(front: seq<Byte>, b: Byte, rest: Option<seq<Byte>>)
    ensures Append(front, Prepend(b, rest)) == Append(front + [b], rest)
  {
    if rest.Some? {
      assert front + ([b] + rest.value) == front + [b] + rest.value;
    }
  }

  /** What is left of the string from an index on. */
  function From(s: seq<NonNul>, ix: nat): seq<NonNul> {
    if ix <= |s| then s[ix..] else []
  }

  method ComputeUrlDecode(sIn: seq<NonNul>) returns (r: Option<seq<Byte>>)
    ensures r == UrlDecode(sIn)
  {
    hide FromHex, Or;
    var sOut: seq<Byte> := [];
    var ix := 0;
    AppendNothing(UrlDecode(sIn));
    while ix < |sIn|
      invariant 0 <= ix <= |sIn| + 1
      invariant Append(sOut, UrlDecode(From(sIn, ix))) == UrlDecode(sIn)
    {
      ghost var here := From(sIn, ix);
      assert here[0] == sIn[ix] && here[1..] == From(sIn, ix + 1);
      var ch: Byte := 0;
      if sIn[ix] == PERCENT {
        if ix + 2 > |sIn| {
          return None;
        }
        ch := U8(FromHex(sIn[ix + 1]) * 16);
        ch := U8(Or(ch, FromHex(if ix + 2 == |sIn| then 0 else sIn[ix + 2])));
        assert From(sIn, ix + 3) == if |here| == 2 then [] else here[3..];
        ix := ix + 2;
      } else if sIn[ix] == PLUS {
        ch := SPACE;
      } else {
        ch := sIn[ix];
      }
      AppendPrepend(sOut, ch, UrlDecode(From(sIn, ix + 1)));
      sOut := sOut + [ch];
      ix := ix + 1;
    }
    assert sOut + [] == sOut;
    r := Some(sOut);
  }

  /** Every percent sign that starts an escape is followed by two more bytes. */
  predicate Complete(s: seq<NonNul>) {
    if s == [] then true
    else if s[0] != PERCENT then Complete(s[1..])
    else |s| >= 3 && Complete(s[3..])
  }

  /** The decoder reads beyond the terminator exactly when the last byte is a percent sign starting an escape. */
  lemma {:induction false} ReadsBeyondIff(s: seq<NonNul>)
    ensures UrlDecode(s).None? <==> s != [] && s[|s| - 1] == PERCENT && Complete(s[..|s| - 1])
    decreases |s|
  {
    hide FromHex, Or, U8;
    if s != [] {
      var front := s[..|s| - 1];
      if s[0] != PERCENT {
        ReadsBeyondIff(s[1..]);
        if |s| > 1 {
          assert front[1..] == s[1..][..|s| - 2];
        }
      } else if |s| > 3 {
        ReadsBeyondIff(s[3..]);
        assert front[3..] == s[3..][..|s| - 4];
      }
    }
  }

  /** One string that does: a lone percent sign. */
  lemma LonePercent()
    ensures UrlDecode([PERCENT]).None?
  {
  }

  lemma {:induction false} OrZero(a: nat)
    ensures Or(a, 0) == a
  {
    if a > 0 {
      OrZero(a / 2);
    }
  }

  lemma OrBit(a: nat, b: nat, bit: nat)
    requires bit < 2
    ensures Or(2 * a, 2 * b + bit) == 2 * Or(a, b) + bit
  {
    if a == 0 && b == 0 && bit == 1 {
      assert Or(0, 1) == 1 + 2 * Or(0, 0);
    }
  }

  /** The low four bits come from the second number alone. */
  lemma OrNibbles(h: nat, g: nat, l: nat)
    requires l < 16
    ensures Or(16 * h, 16 * g + l) == 16 * Or(h, g) + l
  {
    hide Or;
    var l3, l2, l1 := l / 8, l / 4, l / 2;
    assert l3 < 2 && l2 == 2 * l3 + l2 % 2 && l1 == 2 * l2 + l1 % 2;
    OrBit(h, g, l3);
    OrBit(2 * h, 2 * g + l3, l2 % 2);
    OrBit(4 * h, 4 * g + l2, l1 % 2);
    OrBit(8 * h, 8 * g + l1, l % 2);
  }

  lemma HexRoundTrip(x: int)
    requires 0 <= x < 16
    ensures FromHex(ToHex(x)) == x && ToHex(x) != 0
  {
  }

  lemma HexPair(h: int, l: int)
    requires 0 <= h < 16 && 0 <= l < 16
    ensures ToHex(h) != 0 && ToHex(l) != 0
    ensures TwoDigits(ToHex(h), ToHex(l)) == 16 * h + l
  {
    hide FromHex, ToHex, Or;
    HexRoundTrip(h);
    HexRoundTrip(l);
    assert U8(h * 16) == 16 * h;
    OrZero(h);
    OrNibbles(h, 0, l);
  }

  lemma DecodeEscape(b: NonNul, rest: seq<NonNul>)
    ensures UrlDecode(Escape(b) + rest) == Prepend(b, UrlDecode(rest))
  {
    hide FromHex, ToHex, Or, U8;
    var s := Escape(b) + rest;
    if IsAlnumByte(b) {
      assert s[1..] == rest;
    } else {
      HexPair(b / 16, b % 16);
      assert s[0] == PERCENT && s[1] == ToHex(b / 16) && s[2] == ToHex(b % 16) && s[3..] == rest;
    }
  }

  /** Decoding the encoding gives every NUL-free string back. */
  lemma {:induction false} UrlRoundTrip(s: seq<NonNul>)
    ensures UrlDecode(UrlEncode(s)) == Some(s)
  {
    if s != [] {
      UrlRoundTrip(s[1..]);
      DecodeEscape(s[0], UrlEncode(s[1..]));
      assert s == [s[0]] + s[1..];
    }
  }

  // ----- Other strings than encodings

  /** Without a percent sign every byte stands for itself, but a plus sign for a space. */
  lemma {:induction false} PlainDecode(s: seq<NonNul>)
    requires forall i | 0 <= i < |s| :: s[i] != 37
    ensures UrlDecode(s).Some? && |UrlDecode(s).value| == |s|
    ensures forall i | 0 <= i < |s| :: UrlDecode(s).value[i] == if s[i] == 43 then 32 else s[i]
  {
    hide TwoDigits;
    if s != [] {
      PlainDecode(s[1..]);
    }
  }

  /** The byte at the front of a complete string, and what follows it. */
  function Head(p: seq<NonNul>): (Byte, seq<NonNul>)
    requires p != [] && Complete(p)
  {
    if p[0] == PERCENT then (TwoDigits(p[1], p[2]), p[3..])
    else (if p[0] == PLUS then SPACE else p[0], p[1..])
  }

  lemma DecodeHead(p: seq<NonNul>, q: seq<NonNul>)
    requires p != [] && Complete(p)
    ensures Complete(Head(p).1) && UrlDecode(p + q) == Prepend(Head(p).0, UrlDecode(Head(p).1 + q))
  {
    hide TwoDigits;
    var n := if p[0] == PERCENT then 3 else 1;
    assert (p + q)[n..] == p[n..] + q;
  }

  lemma PrependAppend(b: Byte, front: seq<Byte>, rest: Option<seq<Byte>>)
    ensures Prepend(b, Append(front, rest)) == Append([b] + front, rest)
  {
    if rest.Some? {
      assert [b] + (front + rest.value) == [b] + front + rest.value;
    }
  }

  /** A string of plain bytes and complete escapes is decoded on its own, whatever follows. */
  lemma {:induction false} DecodeParts(p: seq<NonNul>, q: seq<NonNul>)
    requires Complete(p)
    ensures UrlDecode(p).Some? && UrlDecode(p + q) == Append(UrlDecode(p).value, UrlDecode(q))
    decreases |p|
  {
    if p == [] {
      assert p + q == q;
      AppendNothing(UrlDecode(q));
    } else {
      var b, rest := Head(p).0, Head(p).1;
      assert |rest| < |p|;
      hide UrlDecode, Head;
      DecodeHead(p, q);
      DecodeHead(p, []);
      assert p + [] == p && rest + [] == rest;
      DecodeParts(rest, q);
      PrependAppend(b, UrlDecode(rest).value, UrlDecode(q));
    }
  }

  /** An escape cut off after its first digit takes the terminator, read as 201, for its second. */
  lemma CutEscape(h: int)
    requires 0 <= h < 16
    ensures UrlDecode([37, ToHex(h)]) == Some([Or(16 * h, 201)])
  {
    hide Or;
    HexRoundTrip(h);
    OrNibbles(h, 12, 9);
    OrBelow(h, 12);
    var s: seq<NonNul> := [37, ToHex(h)];
    assert FromHex(0) == 201 && U8(FromHex(s[1]) * 16) == 16 * h;
    var b := TwoDigits(s[1], 0);
    assert UrlDecode(s) == Prepend(b, UrlDecode([]));
    assert [b] + [] == [b];
  }

  lemma OrBelow(h: nat, g: nat)
    requires h < 16 && g < 16
    ensures Or(h, g) < 16
  {
    OrHalves(h, g);
    OrHalves(h / 2, g / 2);
    OrHalves(h / 4, g / 4);
    OrHalves(h / 8, g / 8);
  }

  lemma OrHalves(a: nat, b: nat)
    ensures Or(a, b) <= 2 * Or(a / 2, b / 2) + 1
  {
  }

  /** An encoding in which some of the spaces, those marked, are written as plus signs. */
  function FormEncode(s: seq<NonNul>, plus: seq<bool>): seq<NonNul>
    requires |plus| == |s|
  {
    if s == [] then []
    else (if s[0] == 32 && plus[0] then [43] else Escape(s[0])) + FormEncode(s[1..], plus[1..])
  }

  /** It is decoded to the same string. */
  lemma {:induction false} FormRoundTrip(s: seq<NonNul>, plus: seq<bool>)
    requires |plus| == |s|
    ensures UrlDecode(FormEncode(s, plus)) == Some(s)
    decreases |s|
  {
    hide Escape, TwoDigits;
    if s != [] {
      var rest := FormEncode(s[1..], plus[1..]);
      FormRoundTrip(s[1..], plus[1..]);
      DecodeEscape(s[0], rest);
      assert ([43] + rest)[1..] == rest;
      assert s == [s[0]] + s[1..];
    }
  }

  // ----- Lower-case digits

  /** A hexadecimal digit, with its letters in either case. */
  function Spell(x: int, lower: bool): NonNul
    requires 0 <= x < 16
  {
    if x > 9 then x - 10 + (if lower then 'a' else 'A') as int else x + '0' as int
  }

  lemma SpelledDigit(x: int, lower: bool)
    requires 0 <= x < 16
    ensures FromHex(Spell(x, lower)) == x + if lower && x > 9 then 32 else 0
  {
  }

  lemma OrTwo(h: nat)
    requires h < 16
    ensures Or(h, 2) < 16 && (Or(h, 2) == h <==> h / 2 % 2 == 1)
  {
    var m := h / 2;
    OrZero(m / 2);
    assert Or(h, 2) == h % 2 + 2 * Or(m, 1);
    assert Or(m, 1) == 1 + 2 * Or(m / 2, 0);
  }

  lemma LowerPair(h: int, l: int, lowerFirst: bool, lowerSecond: bool)
    requires 0 <= h < 16 && 0 <= l < 16
    ensures TwoDigits(Spell(h, lowerFirst), Spell(l, lowerSecond)) == 16 * h + l <==>
            !(lowerSecond && l > 9) || h / 2 % 2 == 1
  {
    hide FromHex, Or, Spell, U8;
    FirstDigit(h, lowerFirst);
    SpelledDigit(l, lowerSecond);
    var g := if lowerSecond && l > 9 then 2 else 0;
    OrNibbles(h, g, l);
    OrZero(h);
    OrTwo(h);
    SmallByte(16 * Or(h, g) + l);
  }

  lemma FirstDigit(h: int, lower: bool)
    requires 0 <= h < 16
    ensures U8(FromHex(Spell(h, lower)) * 16) == 16 * h
  {
    hide FromHex, Spell;
    SpelledDigit(h, lower);
  }

  lemma SmallByte(x: int)
    requires 0 <= x < 256
    ensures U8(x) == x
  {
  }

  /**
   * Section 2.1 of RFC 3986 lets escapes use either case. The decoder gives such an escape its byte exactly
   * if its second digit is not a lower-case letter, or the second lowest bit of the first digit is set.
   */
  lemma LowerCaseEscape(h: int, l: int, lowerFirst: bool, lowerSecond: bool)
    requires 0 <= h < 16 && 0 <= l < 16
    ensures UrlDecode([PERCENT, Spell(h, lowerFirst), Spell(l, lowerSecond)]) == Some([16 * h + l]) <==>
            !(lowerSecond && l > 9) || h / 2 % 2 == 1
  {
    hide FromHex, Or, Spell, U8;
    LowerPair(h, l, lowerFirst, lowerSecond);
    var s := [PERCENT, Spell(h, lowerFirst), Spell(l, lowerSecond)];
    assert s[3..] == [];
    var b := TwoDigits(s[1], s[2]);
    assert UrlDecode(s) == Prepend(b, UrlDecode([]));
    assert [b] + [] == [b] && [b][0] == b && [16 * h + l][0] == 16 * h + l;
  }

  /** "%0a" is decoded to an asterisk instead of a line feed. */
  lemma LowerCaseExample()
    ensures UrlDecode([PERCENT, '0' as int, 'a' as int]) == Some(['*' as int])
  {
    hide Or;
    var s: seq<NonNul> := [PERCENT, '0' as int, 'a' as int];
    assert s[3..] == [] && FromHex(s[1]) == 0 && FromHex(s[2]) == 42;
    OrNibbles(0, 2, 10);
    assert Or(0, 2) == 2 by {
      OrTwoOfZero();
    }
    var b := U8(Or(0, 42));
    assert UrlDecode(s) == Prepend(b, UrlDecode([]));
    assert b == 42 && [b] + [] == [b];
  }

  lemma OrTwoOfZero()
    ensures Or(0, 2) == 2
  {
    assert Or(0, 1) == 1 + 2 * Or(0, 0);
  }

  predicate Unreserved(b: int) {
    IsAlnumByte(b) || b == PERCENT
  }

  lemma EscapeAlphabet(b: NonNul)
    ensures forall i | 0 <= i < |Escape(b)| :: Unreserved(Escape(b)[i])
  {
    if !IsAlnumByte(b) {
      HexIsAlnum(b / 16);
      HexIsAlnum(b % 16);
    }
  }

  lemma HexIsAlnum(x: int)
    requires 0 <= x < 16
    ensures IsAlnumByte(ToHex(x))
  {
  }

  /** The encoding uses letters, digits and percent signs only. */
  lemma {:induction false} UrlEncodedAlphabet(s: seq<NonNul>)
    ensures forall i | 0 <= i < |UrlEncode(s)| :: Unreserved(UrlEncode(s)[i])
  {
    hide Unreserved, Escape;
    if s != [] {
      UrlEncodedAlphabet(s[1..]);
      EscapeAlphabet(s[0]);
    }
  }
}
