/** Base64 and URL-safe base64 of cppBase/utility/url_code.cpp. */
module UrlCodec {
  import opened CArith

  // ----- The two alphabets

  const UPPER: string := "ABCDEFGHIJKLMNOPQRSTUVWXYZ"
  const LOWER: string := "abcdefghijklmnopqrstuvwxyz"
  const DIGITS: string := "0123456789"

  /** `base64_chars`. */
  const PLAIN: string := UPPER + LOWER + DIGITS + "+/"

  /** `urlsafe_base64_chars`. */
  const URLSAFE: string := UPPER + LOWER + DIGITS + "-_"

  /** The character for a sextet, by ranges. */
  function Sextet(i: int, c62: char, c63: char): char
    requires 0 <= i < 64
  {
    if i < 26 then 'A' + i as char
    else if i < 52 then 'a' + (i - 26) as char
    else if i < 62 then '0' + (i - 52) as char
    else if i == 62 then c62
    else c63
  }

  lemma Letters(i: int)
    requires 0 <= i < 26
    ensures UPPER[i] == 'A' + i as char && LOWER[i] == 'a' + i as char
    ensures i < 10 ==> DIGITS[i] == '0' + i as char
  {
  }

  lemma Alphabets(i: int)
    requires 0 <= i < 64
    ensures |PLAIN| == 64 && |URLSAFE| == 64
    ensures PLAIN[i] == Sextet(i, '+', '/') && URLSAFE[i] == Sextet(i, '-', '_')
  {
    if i < 26 {
      Letters(i);
    } else if i < 52 {
      Letters(i - 26);
    } else if i < 62 {
      Letters(i - 52);
    }
  }

  predicate IsAlnum(c: char) {
    '0' <= c <= '9' || 'A' <= c <= 'Z' || 'a' <= c <= 'z'
  }

  predicate IsBase64(c: char) {
    IsAlnum(c) || c == '+' || c == '/'
  }

  /** `std::string::find` of a character, as an unsigned char: 255 when it is absent. */
  function Find(chars: string, c: char): (r: int)
    ensures r == 255 || 0 <= r < |chars|
  {
    FindFrom(chars, c, 0)
  }

  function FindFrom(chars: string, c: char, i: nat): (r: int)
    requires i <= |chars|
    ensures r == 255 || i <= r < |chars|
    decreases |chars| - i
  {
    if i == |chars| then 255 else if chars[i] == c then i else FindFrom(chars, c, i + 1)
  }

  lemma {:induction false} FindFromIs(chars: string, c: char, i: nat, k: nat)
    requires i <= k < |chars| && chars[k] == c && forall j | i <= j < k :: chars[j] != c
    ensures FindFrom(chars, c, i) == k
    decreases k - i
  {
    if i < k {
      FindFromIs(chars, c, i + 1, k);
    }
  }

  /** Looking a plain character up gives its sextet back, and it is a base64 character. */
  lemma FindSextet(i: int)
    requires 0 <= i < 64
    ensures |PLAIN| == 64 && Find(PLAIN, PLAIN[i]) == i && IsBase64(PLAIN[i])
  {
    Alphabets(i);
    forall j | 0 <= j < i ensures PLAIN[j] != PLAIN[i] {
      Alphabets(j);
    }
    hide PLAIN;
    FindFromIs(PLAIN, PLAIN[i], 0, i);
  }

  /** The decoder goes on exactly for the characters of the plain alphabet. */
  lemma AlphabetIsValid(c: char)
    ensures IsBase64(c) <==> exists i :: 0 <= i < |PLAIN| && PLAIN[i] == c
  {
    Alphabets(0);
    forall i | 0 <= i < 64 ensures PLAIN[i] == Sextet(i, '+', '/') {
      Alphabets(i);
    }
    if IsBase64(c) {
      var i := SextetOf(c);
      assert PLAIN[i] == c;
    }
  }

  function SextetOf(c: char): (i: int)
    requires IsBase64(c)
    ensures 0 <= i < 64 && Sextet(i, '+', '/') == c
  {
    if 'A' <= c <= 'Z' then c as int - 'A' as int
    else if 'a' <= c <= 'z' then c as int - 'a' as int + 26
    else if '0' <= c <= '9' then c as int - '0' as int + 52
    else if c == '+' then 62
    else 63
  }

  // ----- Encoding

  // The four sextets of three bytes.
  function Sextet1(a: Byte): int { a / 4 }
  function Sextet2(a: Byte, b: Byte): int { a % 4 * 16 + b / 16 }
  function Sextet3(b: Byte, c: Byte): int { b % 16 * 4 + c / 64 }
  function Sextet4(c: Byte): int { c % 64 }

  predicate AreSextets(q: seq<int>) {
    forall i | 0 <= i < |q| :: 0 <= q[i] < 64
  }

  function Sextets(a: Byte, b: Byte, c: Byte): (q: seq<int>)
    ensures |q| == 4 && AreSextets(q)
  {
    [Sextet1(a), Sextet2(a, b), Sextet3(b, c), Sextet4(c)]
  }

  function Chars(chars: string, q: seq<int>): string
    requires |chars| == 64 && AreSextets(q)
  {
    seq(|q|, i requires 0 <= i < |q| => chars[q[i]])
  }

  /** The sextets of a byte string, with zero bits filling the last one. */
  function AllSextets(bytes: seq<Byte>): (q: seq<int>)
    ensures AreSextets(q)
  {
    if bytes == [] then []
    else if |bytes| == 1 then Sextets(bytes[0], 0, 0)[..2]
    else if |bytes| == 2 then Sextets(bytes[0], bytes[1], 0)[..3]
    else Sextets(bytes[0], bytes[1], bytes[2]) + AllSextets(bytes[3..])
  }

  /** The sextets are the base-64 digits of the 24 bits, highest first, as in section 4 of RFC 4648. */
  lemma SextetsAreDigits(a: Byte, b: Byte, c: Byte)
    ensures var q := Sextets(a, b, c);
            ((q[0] * 64 + q[1]) * 64 + q[2]) * 64 + q[3] == (a * 256 + b) * 256 + c
  {
    assert a == a / 4 * 4 + a % 4 && b == b / 16 * 16 + b % 16 && c == c / 64 * 64 + c % 64;
  }

  function Padding(n: nat): string {
    if n % 3 == 0 then "" else if n % 3 == 1 then "==" else "="
  }

  /** Base64 text of a byte string in the given alphabet. */
  function Encode(chars: string, bytes: seq<Byte>): string
    requires |chars| == 64
  {
    Chars(chars, AllSextets(bytes)) + Padding(|bytes|)
  }

  lemma {:induction false} SextetsAppend(p: seq<Byte>, q: seq<Byte>, groups: nat)
    requires |p| == 3 * groups
    ensures AllSextets(p + q) == AllSextets(p) + AllSextets(q)
    decreases groups
  {
    hide Sextets;
    if p == [] {
      assert p + q == q;
    } else {
      assert (p + q)[3..] == p[3..] + q;
      SextetsAppend(p[3..], q, groups - 1);
    }
  }

  lemma {:induction false} SextetCount(bytes: seq<Byte>)
    ensures |AllSextets(bytes)| == |bytes| / 3 * 4 + (if |bytes| % 3 == 0 then 0 else |bytes| % 3 + 1)
    decreases |bytes|
  {
    if |bytes| >= 3 {
      SextetCount(bytes[3..]);
    }
  }

  /** Four characters for every three bytes begun. */
  lemma EncodedLength(chars: string, bytes: seq<Byte>)
    requires |chars| == 64
    ensures |Encode(chars, bytes)| == (|bytes| + 2) / 3 * 4
  {
    SextetCount(bytes);
  }

  /** Whole groups of three bytes are encoded on their own. */
  lemma EncodeParts(chars: string, p: seq<Byte>, q: seq<Byte>, groups: nat)
    requires |chars| == 64 && |p| == 3 * groups
    ensures Encode(chars, p + q) == Encode(chars, p) + Encode(chars, q)
  {
    hide Chars, AllSextets, Sextets, Padding;
    SextetsAppend(p, q, groups);
    CharsAppend(chars, AllSextets(p), AllSextets(q));
    PaddingOfRest(|p|, groups);
    PaddingOfMore(groups, |q|);
  }

  lemma PaddingOfMore(groups: nat, n: nat)
    ensures Padding(3 * groups + n) == Padding(n)
  {
    assert (3 * groups + n) % 3 == n % 3;
  }

  /** A last group of two bytes or one is filled up with zero bits and written with one or two '='. */
  lemma LastGroupText(chars: string, a: Byte, b: Byte)
    requires |chars| == 64
    ensures Encode(chars, [a, b]) == [chars[a / 4], chars[a % 4 * 16 + b / 16], chars[b % 16 * 4], '=']
    ensures Encode(chars, [a]) == [chars[a / 4], chars[a % 4 * 16], '=', '=']
    ensures Encode(chars, []) == []
  {
    var two, one: seq<Byte> := [a, b], [a];
    assert AllSextets(two) == [a / 4, a % 4 * 16 + b / 16, b % 16 * 4];
    assert AllSextets(one) == [a / 4, a % 4 * 16];
    hide AllSextets;
    assert |two| == 2 && |one| == 1;
  }

  /** A group of three bytes is written as four characters. */
  lemma WholeGroupText(chars: string, a: Byte, b: Byte, c: Byte)
    requires |chars| == 64
    ensures Encode(chars, [a, b, c]) ==
            [chars[a / 4], chars[a % 4 * 16 + b / 16], chars[b % 16 * 4 + c / 64], chars[c % 64]]
  {
    var three: seq<Byte> := [a, b, c];
    assert three[3..] == [];
    assert AllSextets(three) == Sextets(a, b, c) + AllSextets(three[3..]) == Sextets(a, b, c);
    hide AllSextets;
    assert |three| == 3;
  }

  /** `base64_encode` and `urlsafe_b64encode`, which differ in the alphabet only. */
  method Base64Encode(chars: string, bytes: seq<Byte>) returns (ret: string)
    requires |chars| == 64
    ensures ret == Encode(chars, bytes)
  {
    hide AllSextets, Sextets, Chars, Padding, Encode;
    NoText(chars, bytes);
    ret := "";
    var i := 0;
    ghost var groups := 0;
    var three := new Byte[3](_ => 0);
    for n := 0 to |bytes|
      invariant 0 <= i < 3 && groups >= 0 && n == 3 * groups + i
      invariant forall k | 0 <= k < i :: three[k] == bytes[n - i + k]
      invariant ret == Chars(chars, AllSextets(bytes[..n - i]))
    {
      three[i] := bytes[n];
      i := i + 1;
      if i == 3 {
        var four := Sextets(three[0], three[1], three[2]);
        assert four == Sextets(bytes[n - 2], bytes[n - 1], bytes[n]);
        ThreeBytes(bytes, groups);
        CharsAppend(chars, AllSextets(bytes[..n - 2]), four);
        ret := ret + Chars(chars, four);
        i, groups := 0, groups + 1;
      }
    }
    WholeText(chars, bytes, groups);
    assert bytes[|bytes| - i..] == three[..i];
    if i > 0 {
      var last := EncodeLast(chars, three, i);
      ret := ret + last;
    }
  }

  lemma NoText(chars: string, bytes: seq<Byte>)
    requires |chars| == 64
    ensures Chars(chars, AllSextets(bytes[..0])) == ""
  {
  }

  lemma WholeText(chars: string, bytes: seq<Byte>, groups: nat)
    requires |chars| == 64 && 3 * groups <= |bytes| < 3 * groups + 3
    ensures var m := 3 * groups;
            Encode(chars, bytes) ==
            Chars(chars, AllSextets(bytes[..m])) +
            (if m == |bytes| then "" else Chars(chars, AllSextets(bytes[m..])) + Padding(|bytes| - m))
  {
    hide Chars, AllSextets, Sextets, Padding;
    var m := 3 * groups;
    assert bytes == bytes[..m] + bytes[m..];
    SextetsAppend(bytes[..m], bytes[m..], groups);
    CharsAppend(chars, AllSextets(bytes[..m]), AllSextets(bytes[m..]));
    PaddingOfRest(|bytes|, groups);
    if m == |bytes| {
      NoText(chars, bytes);
      assert bytes[m..] == bytes[..0];
    }
  }

  /** Whole groups do not change the padding, and alone they need none. */
  lemma PaddingOfRest(n: nat, groups: nat)
    requires 3 * groups <= n < 3 * groups + 3
    ensures Padding(n) == Padding(n - 3 * groups) && (n == 3 * groups ==> Padding(n) == "")
  {
    assert n % 3 == n - 3 * groups;
  }

  /** The one or two bytes left over, filled up with zeros, and the padding. */
  method EncodeLast(chars: string, three: array<Byte>, i: nat) returns (ret: string)
    requires |chars| == 64 && three.Length == 3 && 0 < i < 3
    modifies three
    ensures ret == Chars(chars, AllSextets(old(three[..i]))) + Padding(i)
  {
    LastBytes(three[..i]);
    hide AllSextets, Sextets;
    for j := i to 3
      invariant three[..i] == old(three[..i]) && forall k | i <= k < j :: three[k] == 0
    {
      three[j] := 0;
    }
    var four := Sextets(three[0], three[1], three[2]);
    ret := Chars(chars, four[..i + 1]);
    ghost var text := ret;
    var k := i;
    while k < 3
      invariant i <= k <= 3 && ret == text + Equals(k - i)
    {
      ret := ret + "=";
      k := k + 1;
    }
  }

  function Equals(n: nat): string {
    seq(n, _ => '=')
  }

  lemma CharsAppend(chars: string, p: seq<int>, q: seq<int>)
    requires |chars| == 64 && AreSextets(p) && AreSextets(q)
    ensures AreSextets(p + q) && Chars(chars, p + q) == Chars(chars, p) + Chars(chars, q)
  {
  }

  lemma ThreeBytes(bytes: seq<Byte>, groups: nat)
    requires 3 * groups + 3 <= |bytes|
    ensures var n := 3 * groups;
            AllSextets(bytes[..n + 3]) == AllSextets(bytes[..n]) + Sextets(bytes[n], bytes[n + 1], bytes[n + 2])
  {
    var n := 3 * groups;
    var p, q := bytes[..n], bytes[n..n + 3];
    assert bytes[..n + 3] == p + q;
    SextetsAppend(p, q, groups);
    assert q[3..] == [];
  }

  lemma LastBytes(rest: seq<Byte>)
    requires |rest| < 3
    ensures AllSextets(rest) ==
            if |rest| == 0 then []
            else Sextets(rest[0], if |rest| > 1 then rest[1] else 0, 0)[..|rest| + 1]
  {
  }

  // ----- Decoding

  // The three bytes of four table positions.
  function Byte1(a: int, b: int): Byte { U8(a * 4 + b % 64 / 16) }
  function Byte2(b: int, c: int): Byte { U8(b % 16 * 16 + c % 64 / 4) }
  function Byte3(c: int, d: int): Byte { U8(c % 4 * 64 + d) }

  function ThreeFrom(a: int, b: int, c: int, d: int): (r: seq<Byte>)
    ensures |r| == 3
  {
    [Byte1(a, b), Byte2(b, c), Byte3(c, d)]
  }

  /** Bytes from table positions; a group of less than four is filled up with position 255. */
  function FromSextets(xs: seq<int>): seq<Byte> {
    if |xs| < 2 then []
    else if |xs| == 2 then ThreeFrom(xs[0], xs[1], 255, 255)[..1]
    else if |xs| == 3 then ThreeFrom(xs[0], xs[1], xs[2], 255)[..2]
    else ThreeFrom(xs[0], xs[1], xs[2], xs[3]) + FromSextets(xs[4..])
  }

  /** How many leading characters belong to the alphabet. */
  function ValidRun(s: string): (n: nat)
    ensures n <= |s| && forall i | 0 <= i < n :: IsBase64(s[i])
    ensures n < |s| ==> !IsBase64(s[n])
  {
    if s == "" || !IsBase64(s[0]) then 0 else 1 + ValidRun(s[1..])
  }

  function Positions(s: string): seq<int> {
    seq(|s|, i requires 0 <= i < |s| => Find(PLAIN, s[i]))
  }

  function Decode(s: string): seq<Byte> {
    FromSextets(Positions(s[..ValidRun(s)]))
  }

  lemma {:induction false} FromSextetsAppend(p: seq<int>, q: seq<int>, groups: nat)
    requires |p| == 4 * groups
    ensures FromSextets(p + q) == FromSextets(p) + FromSextets(q)
    decreases groups
  {
    hide ThreeFrom;
    if p == [] {
      assert p + q == q;
    } else {
      assert (p + q)[4..] == p[4..] + q;
      FromSextetsAppend(p[4..], q, groups - 1);
    }
  }

  lemma FourPositions(xs: seq<int>, groups: nat)
    requires 4 * groups + 4 <= |xs|
    ensures var n := 4 * groups;
            FromSextets(xs[..n + 4]) == FromSextets(xs[..n]) + ThreeFrom(xs[n], xs[n + 1], xs[n + 2], xs[n + 3])
  {
    var n := 4 * groups;
    var p, q := xs[..n], xs[n..n + 4];
    assert xs[..n + 4] == p + q;
    FromSextetsAppend(p, q, groups);
    assert q[4..] == [];
  }

  lemma LastPositions(xs: seq<int>, groups: nat)
    requires 4 * groups <= |xs| < 4 * groups + 4
    ensures FromSextets(xs) == FromSextets(xs[..4 * groups]) + FromSextets(xs[4 * groups..])
  {
    assert xs == xs[..4 * groups] + xs[4 * groups..];
    FromSextetsAppend(xs[..4 * groups], xs[4 * groups..], groups);
  }

  /** Replaces characters by their table positions. */
  method Lookup(four: array<char>) returns (ps: seq<int>)
    ensures ps == Positions(four[..])
  {
    ps := [];
    for i := 0 to four.Length
      invariant ps == Positions(four[..i])
    {
      ps := ps + [Find(PLAIN, four[i])];
    }
    assert four[..four.Length] == four[..];
  }

  lemma {:induction false} AbsentFrom(chars: string, c: char, i: nat)
    requires i <= |chars| && forall k | i <= k < |chars| :: chars[k] != c
    ensures FindFrom(chars, c, i) == 255
    decreases |chars| - i
  {
    if i < |chars| {
      AbsentFrom(chars, c, i + 1);
    }
  }

  lemma NulIsAbsent()
    ensures Find(PLAIN, '\0') == 255
  {
    forall k | 0 <= k < |PLAIN| ensures PLAIN[k] != '\0' {
      Alphabets(k);
    }
    AbsentFrom(PLAIN, '\0', 0);
  }

  method Base64Decode(s: string) returns (ret: seq<Byte>)
    ensures ret == Decode(s)
  {
    hide Find, IsBase64, ThreeFrom, FromSextets, PLAIN, ValidRun;
    EqualsIsNotBase64();
    ghost var run := s[..ValidRun(s)];
    ghost var xs := Positions(run);
    ghost var groups := 0;
    ret := [];
    var i, n := 0, 0;
    var four := new char[4](_ => ' ');
    NothingDecoded(xs);
    while n < |s| && s[n] != '=' && IsBase64(s[n])
      invariant 0 <= i < 4 && groups >= 0 && n == 4 * groups + i <= |run|
      invariant forall k | 0 <= k < i :: four[k] == run[n - i + k]
      invariant ret == FromSextets(xs[..n - i])
    {
      assert n < |run| && run[n] == s[n];
      four[i] := s[n];
      n := n + 1;
      i := i + 1;
      if i == 4 {
        var ps := Lookup(four);
        assert ps == xs[n - 4..n];
        FourPositions(xs, groups);
        ret := ret + ThreeFrom(ps[0], ps[1], ps[2], ps[3]);
        i, groups := 0, groups + 1;
      }
    }
    assert n == |run|;
    LastPositions(xs, groups);
    assert xs[4 * groups..] == Positions(four[..i]);
    var last := DecodeLast(four, i);
    ret := ret + last;
  }

  lemma NothingDecoded(xs: seq<int>)
    ensures FromSextets(xs[..0]) == []
  {
  }

  lemma EqualsIsNotBase64()
    ensures !IsBase64('=')
  {
  }

  /** The characters left over at the end of the run, if any. */
  method DecodeLast(four: array<char>, i: nat) returns (ret: seq<Byte>)
    requires four.Length == 4 && i < 4
    modifies four
    ensures ret == FromSextets(Positions(old(four[..i])))
  {
    ghost var ps := Positions(four[..i]);
    if i == 0 {
      return [];
    }
    for j := i to 4
      invariant four[..i] == old(four[..i]) && forall k | i <= k < j :: four[k] == '\0'
    {
      four[j] := '\0';
    }
    var all := Lookup(four);
    NulIsAbsent();
    hide Find, PLAIN;
    assert all[..i] == ps && forall k | i <= k < 4 :: all[k] == 255;
    ret := ThreeFrom(all[0], all[1], all[2], all[3])[..i - 1];
  }

  // ----- Round trips

  lemma FirstByte(a: Byte, b: Byte)
    ensures Byte1(Sextet1(a), Sextet2(a, b)) == a
  {
    var y := Sextet2(a, b);
    QuotientIs(y, 16, a % 4, b / 16);
    assert y % 64 == y;
  }

  lemma SecondByte(a: Byte, b: Byte, c: Byte)
    ensures Byte2(Sextet2(a, b), Sextet3(b, c)) == b
  {
    QuotientIs(a % 4 * 16 + b / 16, 16, a % 4, b / 16);
    QuotientIs(b % 16 * 4 + c / 64, 4, b % 16, c / 64);
  }

  lemma ThirdByte(b: Byte, c: Byte)
    ensures Byte3(Sextet3(b, c), Sextet4(c)) == c
  {
    QuotientIs(b % 16 * 4 + c / 64, 4, b % 16, c / 64);
  }

  lemma GroupRoundTrip(a: Byte, b: Byte, c: Byte)
    ensures var q := Sextets(a, b, c);
            && ThreeFrom(q[0], q[1], q[2], q[3]) == [a, b, c]
            && ThreeFrom(q[0], q[1], q[2], 255)[..2] == [a, b]
            && ThreeFrom(q[0], q[1], 255, 255)[..1] == [a]
  {
    hide Byte1, Byte2, Byte3, Sextet1, Sextet2, Sextet3, Sextet4;
    FirstByte(a, b);
    SecondByte(a, b, c);
    ThirdByte(b, c);
  }

  lemma {:induction false} SextetsRoundTrip(bytes: seq<Byte>)
    ensures FromSextets(AllSextets(bytes)) == bytes
    decreases |bytes|
  {
    hide Sextets, ThreeFrom;
    if |bytes| == 1 {
      GroupRoundTrip(bytes[0], 0, 0);
    } else if |bytes| == 2 {
      GroupRoundTrip(bytes[0], bytes[1], 0);
    } else if |bytes| >= 3 {
      GroupRoundTrip(bytes[0], bytes[1], bytes[2]);
      SextetsRoundTrip(bytes[3..]);
      var q := Sextets(bytes[0], bytes[1], bytes[2]);
      assert (q + AllSextets(bytes[3..]))[4..] == AllSextets(bytes[3..]);
      assert bytes == [bytes[0], bytes[1], bytes[2]] + bytes[3..];
    }
  }

  lemma {:induction false} ValidRunIs(s: string, n: nat)
    requires n <= |s| && (forall i | 0 <= i < n :: IsBase64(s[i])) && (n < |s| ==> !IsBase64(s[n]))
    ensures ValidRun(s) == n
  {
    if n > 0 {
      ValidRunIs(s[1..], n - 1);
    }
  }

  /** Decoding the encoding gives the bytes back, for every length. */
  lemma Base64RoundTrip(bytes: seq<Byte>)
    ensures |PLAIN| == 64 && Decode(Encode(PLAIN, bytes)) == bytes
  {
    Alphabets(0);
    var q := AllSextets(bytes);
    var text := Encode(PLAIN, bytes);
    forall i | 0 <= i < |q| ensures text[i] == PLAIN[q[i]] && IsBase64(text[i]) && Find(PLAIN, text[i]) == q[i] {
      FindSextet(q[i]);
    }
    hide PLAIN, AllSextets, FromSextets, Find, IsBase64;
    EqualsIsNotBase64();
    ValidRunIs(text, |q|);
    assert Positions(text[..|q|]) == q;
    SextetsRoundTrip(bytes);
  }

  /** The URL-safe spelling of a character of the plain alphabet. */
  function Safe(c: char): char {
    if c == '+' then '-' else if c == '/' then '_' else c
  }

  /** The URL-safe text is the plain one with two characters exchanged. */
  lemma UrlSafeIsPlainRenamed(bytes: seq<Byte>)
    ensures |PLAIN| == 64 && |URLSAFE| == 64
    ensures |Encode(URLSAFE, bytes)| == |Encode(PLAIN, bytes)|
    ensures forall i | 0 <= i < |Encode(PLAIN, bytes)| ::
              Encode(URLSAFE, bytes)[i] == Safe(Encode(PLAIN, bytes)[i])
  {
    Alphabets(0);
    var q := AllSextets(bytes);
    forall i | 0 <= i < |q| ensures URLSAFE[q[i]] == Safe(PLAIN[q[i]]) {
      Alphabets(q[i]);
    }
    hide PLAIN, URLSAFE, AllSextets;
  }

  lemma {:induction false} DecodedCount(xs: seq<int>)
    ensures |FromSextets(xs)| == |xs| / 4 * 3 + (if |xs| % 4 < 2 then 0 else |xs| % 4 - 1)
    decreases |xs|
  {
    hide ThreeFrom;
    if |xs| >= 4 {
      DecodedCount(xs[4..]);
    }
  }

  /** Fewer characters than the encoding has give fewer bytes. */
  lemma CutIsShorter(n: nat, bytes: nat, sextets: nat)
    requires sextets == bytes / 3 * 4 + (if bytes % 3 == 0 then 0 else bytes % 3 + 1) && n < sextets
    ensures n / 4 * 3 + (if n % 4 < 2 then 0 else n % 4 - 1) < bytes
  {
    var g, r := bytes / 3, bytes % 3;
    if n / 4 == g {
      assert n % 4 < r + 1;
    } else {
      assert n / 4 <= g - 1;
    }
  }

  /**
   * The decoder knows the plain alphabet only: it inverts the URL-safe encoder exactly on the bytes
   * whose plain text has neither '+' nor '/'.
   */
  lemma UrlSafeRoundTrip(bytes: seq<Byte>)
    ensures |PLAIN| == 64 && |URLSAFE| == 64
    ensures Decode(Encode(URLSAFE, bytes)) == bytes <==>
            forall c | c in Encode(PLAIN, bytes) :: c != '+' && c != '/'
  {
    UrlSafeIsPlainRenamed(bytes);
    var plain, safe := Encode(PLAIN, bytes), Encode(URLSAFE, bytes);
    if forall c | c in plain :: c != '+' && c != '/' {
      assert forall i | 0 <= i < |plain| :: plain[i] in plain;
      assert safe == plain;
      Base64RoundTrip(bytes);
    } else {
      var i :| 0 <= i < |plain| && (plain[i] == '+' || plain[i] == '/');
      UrlSafeIsCut(bytes, i);
    }
  }

  /** Three bytes that do not come back. */
  lemma UrlSafeLoses()
    ensures |URLSAFE| == 64 && Decode(Encode(URLSAFE, [255, 255, 255])) != [255, 255, 255]
  {
    var bytes: seq<Byte> := [255, 255, 255];
    Alphabets(63);
    assert bytes[3..] == [];
    assert AllSextets(bytes) == Sextets(255, 255, 255) + AllSextets(bytes[3..]) == [63, 63, 63, 63];
    hide PLAIN, URLSAFE, AllSextets, Sextets, Decode;
    assert Encode(PLAIN, bytes)[0] == '/' && '/' in Encode(PLAIN, bytes);
    UrlSafeRoundTrip(bytes);
  }

  lemma UrlSafeIsCut(bytes: seq<Byte>, i: nat)
    requires |PLAIN| == 64 && |URLSAFE| == 64
    requires i < |Encode(PLAIN, bytes)| && Encode(PLAIN, bytes)[i] in "+/"
    ensures |Decode(Encode(URLSAFE, bytes))| < |bytes|
  {
    UrlSafeIsPlainRenamed(bytes);
    var safe := Encode(URLSAFE, bytes);
    assert safe[i] in "-_" && !IsBase64(safe[i]);
    var n := ValidRun(safe);
    assert n <= i < |AllSextets(bytes)|;
    hide AllSextets, FromSextets;
    DecodedCount(Positions(safe[..n]));
    SextetCount(bytes);
    CutIsShorter(n, |bytes|, |AllSextets(bytes)|);
  }
}
