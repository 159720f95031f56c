/** The wire format of cppBase/core/packet.h. */
module Packets {
  import opened CArith

  datatype Outcome<+T> = Ok(value: T) | Error

  // ----- Types and values that can be packed

  datatype Kind = Vec | Set | Map

  /** The element type of a map is a pair, ordered by its first part. */
  datatype Ty =
    | UInt8 | UInt16 | UInt32 | UInt64 | Bool | Str
    | Pair(first: Ty, second: Ty)
    | Coll(kind: Kind, elem: Ty)

  datatype Val =
    | Num(n: nat)
    | Flag(b: bool)
    | Text(s: seq<Byte>)
    | Two(first: Val, second: Val)
    | Many(elems: seq<Val>)

  predicate Scalar(t: Ty) {
    t.UInt8? || t.UInt16? || t.UInt32? || t.UInt64? || t.Bool?
  }

  /** Bytes of a scalar, in memory and on the wire. */
  function Width(t: Ty): nat
    requires Scalar(t)
  {
    match t
    case UInt8 => 1
    case UInt16 => 2
    case UInt32 => 4
    case UInt64 => 8
    case Bool => 1
  }

  function Pow256(k: nat): (p: nat)
    ensures p > 0
  {
    if k == 0 then 1 else 256 * Pow256(k - 1)
  }

  /** The part of an element that a set or map orders by. */
  function Key(k: Kind, v: Val): Val {
    if k.Map? && v.Two? then v.first else v
  }

  /** `operator<` of the value types. */
  predicate Less(a: Val, b: Val)
    decreases a, 1
  {
    match (a, b)
    case (Num(m), Num(n)) => m < n
    case (Flag(x), Flag(y)) => !x && y
    case (Text(s), Text(u)) => LessText(s, u)
    case (Two(p, q), Two(x, y)) => Less(p, x) || (p == x && Less(q, y))
    case (Many(xs), Many(ys)) => LessAll(xs, ys)
    case _ => false
  }

  predicate LessText(s: seq<Byte>, u: seq<Byte>) {
    if s == [] || u == [] then s == [] && u != []
    else s[0] < u[0] || (s[0] == u[0] && LessText(s[1..], u[1..]))
  }

  predicate LessAll(xs: seq<Val>, ys: seq<Val>)
    decreases xs, 0
  {
    if xs == [] || ys == [] then xs == [] && ys != []
    else Less(xs[0], ys[0]) || (xs[0] == ys[0] && LessAll(xs[1..], ys[1..]))
  }

  /** Strictly ascending keys, as a set or map iterates. */
  predicate Ascending(k: Kind, xs: seq<Val>) {
    forall i, j | 0 <= i < j < |xs| :: Less(Key(k, xs[i]), Key(k, xs[j]))
  }

  predicate Typed(t: Ty, v: Val) {
    match t
    case Str => v.Text?
    case Bool => v.Flag?
    case Pair(a, b) => v.Two? && Typed(a, v.first) && Typed(b, v.second)
    case Coll(k, e) =>
      v.Many? && (forall x | x in v.elems :: Typed(e, x)) && (k.Vec? || Ascending(k, v.elems))
    case _ => v.Num? && v.n < Pow256(Width(t))
  }

  // ----- Packing

  function LittleEndian(n: nat, k: nat): (bs: seq<Byte>)
    ensures |bs| == k
  {
    if k == 0 then [] else [n % 256] + LittleEndian(n / 256, k - 1)
  }

  function FromLittleEndian(bs: seq<Byte>): nat {
    if bs == [] then 0 else bs[0] + 256 * FromLittleEndian(bs[1..])
  }

  /** No string is too long for its 16-bit length. */
  predicate Packable(t: Ty, v: Val)
    requires Typed(t, v)
  {
    match t
    case Str => |v.s| <= 0xFFFF
    case Pair(a, b) => Packable(a, v.first) && Packable(b, v.second)
    case Coll(_, e) => forall x | x in v.elems :: Packable(e, x)
    case _ => true
  }

  function Encode(t: Ty, v: Val): seq<Byte>
    requires Typed(t, v)
    decreases t, 0
  {
    match t
    case Str => LittleEndian(|v.s|, 2) + v.s
    case Bool => [if v.b then 1 else 0]
    case Pair(a, b) => Encode(a, v.first) + Encode(b, v.second)
    case Coll(_, e) => LittleEndian(|v.elems|, 4) + EncodeAll(e, v.elems)
    case _ => LittleEndian(v.n, Width(t))
  }

  function EncodeAll(e: Ty, xs: seq<Val>): seq<Byte>
    requires forall x | x in xs :: Typed(e, x)
    decreases e, |xs| + 1
  {
    if xs == [] then [] else Encode(e, xs[0]) + EncodeAll(e, xs[1..])
  }

  // ----- Unpacking

  function RoundUp(n: nat, a: nat): nat
    requires a > 0
  {
    (n + a - 1) / a * a
  }

  function AlignOf(t: Ty): (a: nat)
    ensures a > 0
  {
    match t
    case Str => 8
    case Coll(_, _) => 8
    case Pair(a, b) => if AlignOf(a) > AlignOf(b) then AlignOf(a) else AlignOf(b)
    case _ => Width(t)
  }

  /** `sizeof` in the x86-64 GNU C++ library. */
  function SizeOf(t: Ty): nat {
    match t
    case Str => 32
    case Coll(k, _) => if k.Vec? then 24 else 48
    case Pair(a, b) => RoundUp(RoundUp(SizeOf(a), AlignOf(b)) + SizeOf(b), AlignOf(t))
    case _ => Width(t)
  }

  /** `marshal_count_check`: scalars against the remaining bytes as a uint32, others against 128 MB. */
  predicate CountOk(e: Ty, count: nat, size: nat) {
    if Scalar(e) then count * Width(e) <= size % 0x1_0000_0000
    else count * SizeOf(e) <= 128 * 1024 * 1024
  }

  function Pop(k: nat, bs: seq<Byte>): Outcome<(nat, seq<Byte>)> {
    if |bs| < k then Error else Ok((FromLittleEndian(bs[..k]), bs[k..]))
  }

  /** `push_back` for a vector, `insert` for a set or map: an equal key is ignored. */
  function Add(k: Kind, acc: seq<Val>, v: Val): seq<Val> {
    if k.Vec? then acc + [v]
    else if acc == [] then [v]
    else if Less(Key(k, acc[0]), Key(k, v)) then [acc[0]] + Add(k, acc[1..], v)
    else if Less(Key(k, v), Key(k, acc[0])) then [v] + acc
    else acc
  }

  /** Unpacking one value into an empty target: the value and the bytes left. */
  function Decode(t: Ty, bs: seq<Byte>): Outcome<(Val, seq<Byte>)>
    decreases t, 0
  {
    match t
    case Str =>
      var n := Pop(2, bs);
      if n.Error? || |n.value.1| < n.value.0 then Error
      else Ok((Text(n.value.1[..n.value.0]), n.value.1[n.value.0..]))
    case Bool =>
      var n := Pop(1, bs);
      if n.Error? then Error else Ok((Flag(n.value.0 != 0), n.value.1))
    case Pair(a, b) =>
      var x := Decode(a, bs);
      if x.Error? then Error
      else
        var y := Decode(b, x.value.1);
        if y.Error? then Error else Ok((Two(x.value.0, y.value.0), y.value.1))
    case Coll(k, e) =>
      var n := Pop(4, bs);
      if n.Error? then Error
      else if k.Vec? && n.value.0 > 0 && !CountOk(e, n.value.0, |n.value.1|) then Error
      else
        var xs := DecodeAll(k, e, n.value.0, n.value.1, []);
        if xs.Error? then Error else Ok((Many(xs.value.0), xs.value.1))
    case _ =>
      var n := Pop(Width(t), bs);
      if n.Error? then Error else Ok((Num(n.value.0), n.value.1))
  }

  function DecodeAll(k: Kind, e: Ty, count: nat, bs: seq<Byte>, acc: seq<Val>): Outcome<(seq<Val>, seq<Byte>)>
    decreases e, count + 1
  {
    if count == 0 then Ok((acc, bs))
    else
      var x := Decode(e, bs);
      if x.Error? then Error else DecodeAll(k, e, count - 1, x.value.1, Add(k, acc, x.value.0))
  }

  // ----- Round trip

  lemma {:induction false} LittleEndianInverse(n: nat, k: nat)
    requires n < Pow256(k)
    ensures FromLittleEndian(LittleEndian(n, k)) == n
  {
    if k > 0 {
      LittleEndianInverse(n / 256, k - 1);
      assert LittleEndian(n, k)[1..] == LittleEndian(n / 256, k - 1);
    }
  }

  /** Byte i of a number carries its i-th digit to base 256. */
  lemma {:induction false} LittleEndianDigit(n: nat, k: nat, i: nat)
    requires i < k
    ensures LittleEndian(n, k)[i] == n / Pow256(i) % 256
    decreases i
  {
    if i > 0 {
      LittleEndianDigit(n / 256, k - 1, i - 1);
      DivideTwice(n, Pow256(i - 1));
    }
  }

  lemma DivideTwice(n: nat, p: nat)
    requires p > 0
    ensures n / (256 * p) == n / 256 / p
  {
    var m := n / 256;
    var q, r := m / p, m % p;
    assert n == (256 * p) * q + (256 * r + n % 256) by {
      assert n == 256 * (p * q + r) + n % 256;
    }
    QuotientIs(n, 256 * p, q, 256 * r + n % 256);
  }

  // ----- The layout, byte by byte

  lemma TwoBytes(n: nat)
    ensures LittleEndian(n, 2) == [n % 256, n / 256 % 256]
  {
    assert LittleEndian(n / 256, 1) == [n / 256 % 256] + LittleEndian(n / 256 / 256, 0);
  }

  lemma FourBytes(n: nat)
    ensures LittleEndian(n, 4) == [n % 256, n / 0x100 % 256, n / 0x1_0000 % 256, n / 0x100_0000 % 256]
  {
    hide LittleEndian;
    LittleEndianParts(n, 2, 2);
    TwoBytes(n);
    TwoBytes(n / 0x1_0000);
    DivideAgain(n, 0x1_0000, 0x100);
    ShiftedIs(n);
  }

  lemma EightBytes(n: nat)
    ensures LittleEndian(n, 8) ==
            [n % 256, n / 0x100 % 256, n / 0x1_0000 % 256, n / 0x100_0000 % 256,
             n / 0x1_0000_0000 % 256, n / 0x100_0000_0000 % 256,
             n / 0x1_0000_0000_0000 % 256, n / 0x100_0000_0000_0000 % 256]
  {
    hide LittleEndian;
    LittleEndianParts(n, 4, 4);
    FourBytes(n);
    FourBytes(n / 0x1_0000_0000);
    DivideAgain(n, 0x1_0000_0000, 0x100);
    DivideAgain(n, 0x1_0000_0000, 0x1_0000);
    DivideAgain(n, 0x1_0000_0000, 0x100_0000);
    ShiftedIs(n);
  }

  lemma DivideAgain(n: nat, a: nat, b: nat)
    requires a > 0 && b > 0
    ensures n / a / b == n / (a * b)
  {
    var m := n / a;
    var q, r := m / b, m % b;
    assert n == a * (b * q + r) + n % a;
    assert n == (a * b) * q + (a * r + n % a) by {
      assert a * (b * q + r) == (a * b) * q + a * r;
    }
    assert a * r + n % a < a * b by {
      MulAtMost(a, r, b - 1);
    }
    QuotientIs(n, a * b, q, a * r + n % a);
  }

  lemma MulAtMost(a: nat, r: nat, b: nat)
    requires r <= b
    ensures a * r <= a * b && a * b + a == a * (b + 1)
  {
  }

  /** What is left of a number without its lowest j bytes. */
  function Shifted(n: nat, j: nat): nat {
    if j == 0 then n else Shifted(n / 256, j - 1)
  }

  lemma ShiftedIs(n: nat)
    ensures Shifted(n, 2) == n / 0x1_0000 && Shifted(n, 4) == n / 0x1_0000_0000
  {
    assert Shifted(n, 2) == Shifted(n / 256, 1) == Shifted(n / 256 / 256, 0);
    DivideAgain(n, 0x100, 0x100);
    var m := n / 0x1_0000;
    assert Shifted(n, 4) == Shifted(n / 256, 3) == Shifted(m, 2) == Shifted(m / 256, 1) == Shifted(m / 256 / 256, 0);
    DivideAgain(m, 0x100, 0x100);
    DivideAgain(n, 0x1_0000, 0x1_0000);
  }

  lemma {:induction false} LittleEndianParts(n: nat, j: nat, k: nat)
    ensures LittleEndian(n, j + k) == LittleEndian(n, j) + LittleEndian(Shifted(n, j), k)
    decreases j
  {
    if j > 0 {
      LittleEndianParts(n / 256, j - 1, k);
    }
  }

  /** An unsigned integer takes 1, 2, 4 or 8 bytes, lowest first, and has the range of its width. */
  lemma IntegerLayout(n: nat)
    ensures Typed(UInt8, Num(n)) <==> n < 0x100
    ensures Typed(UInt16, Num(n)) <==> n < 0x1_0000
    ensures Typed(UInt32, Num(n)) <==> n < 0x1_0000_0000
    ensures Typed(UInt64, Num(n)) <==> n < 0x1_0000_0000_0000_0000
    ensures n < 0x100 ==> Encode(UInt8, Num(n)) == [n]
    ensures n < 0x1_0000 ==> Encode(UInt16, Num(n)) == [n % 256, n / 256]
    ensures n < 0x1_0000_0000 ==>
              Encode(UInt32, Num(n)) == [n % 256, n / 0x100 % 256, n / 0x1_0000 % 256, n / 0x100_0000]
    ensures n < 0x1_0000_0000_0000_0000 ==>
              Encode(UInt64, Num(n)) ==
              [n % 256, n / 0x100 % 256, n / 0x1_0000 % 256, n / 0x100_0000 % 256,
               n / 0x1_0000_0000 % 256, n / 0x100_0000_0000 % 256,
               n / 0x1_0000_0000_0000 % 256, n / 0x100_0000_0000_0000]
  {
    Powers();
    hide LittleEndian, Pow256;
    if n < 0x100 {
      OneByte(n);
    }
    TwoBytes(n);
    FourBytes(n);
    EightBytes(n);
  }

  function Number2(a: nat, b: nat): nat {
    a + 0x100 * b
  }

  function Number4(a: nat, b: nat, c: nat, d: nat): nat {
    a + 0x100 * b + 0x1_0000 * c + 0x100_0000 * d
  }

  function Number8(low: nat, high: nat): nat {
    low + 0x1_0000_0000 * high
  }

  /** Reading one back takes exactly these bytes, whatever they are, and fails if there are fewer. */
  lemma IntegerPops(bs: seq<Byte>)
    ensures Decode(UInt8, bs) == if |bs| < 1 then Error else Ok((Num(bs[0]), bs[1..]))
    ensures Decode(UInt16, bs) == if |bs| < 2 then Error else Ok((Num(Number2(bs[0], bs[1])), bs[2..]))
    ensures Decode(UInt32, bs) ==
            if |bs| < 4 then Error else Ok((Num(Number4(bs[0], bs[1], bs[2], bs[3])), bs[4..]))
    ensures Decode(UInt64, bs) ==
            if |bs| < 8 then Error
            else
              var low, high := Number4(bs[0], bs[1], bs[2], bs[3]), Number4(bs[4], bs[5], bs[6], bs[7]);
              Ok((Num(Number8(low, high)), bs[8..]))
  {
    hide FromLittleEndian, Decode, Number2, Number4, Number8;
    NumberPops(bs);
    if |bs| >= 1 {
      FromBytes(bs[..1]);
    }
    if |bs| >= 2 {
      FromBytes(bs[..2]);
    }
    if |bs| >= 4 {
      FromBytes(bs[..4]);
    }
    if |bs| >= 8 {
      FromBytes(bs[..8]);
      FromBytes(bs[..8][4..]);
    }
  }

  lemma NumberPops(bs: seq<Byte>)
    ensures Decode(UInt8, bs) == if |bs| < 1 then Error else Ok((Num(FromLittleEndian(bs[..1])), bs[1..]))
    ensures Decode(UInt16, bs) == if |bs| < 2 then Error else Ok((Num(FromLittleEndian(bs[..2])), bs[2..]))
    ensures Decode(UInt32, bs) == if |bs| < 4 then Error else Ok((Num(FromLittleEndian(bs[..4])), bs[4..]))
    ensures Decode(UInt64, bs) == if |bs| < 8 then Error else Ok((Num(FromLittleEndian(bs[..8])), bs[8..]))
  {
    hide FromLittleEndian;
  }

  lemma FromBytes(bs: seq<Byte>)
    ensures |bs| == 1 ==> FromLittleEndian(bs) == bs[0]
    ensures |bs| == 2 ==> FromLittleEndian(bs) == Number2(bs[0], bs[1])
    ensures |bs| == 4 ==> FromLittleEndian(bs) == Number4(bs[0], bs[1], bs[2], bs[3])
    ensures |bs| == 8 ==>
              FromLittleEndian(bs) == Number8(Number4(bs[0], bs[1], bs[2], bs[3]), FromLittleEndian(bs[4..]))
  {
    if |bs| >= 4 {
      assert bs[1..][1..] == bs[2..] && bs[2..][1..] == bs[3..] && bs[3..][1..] == bs[4..];
      assert FromLittleEndian(bs[1..]) == bs[1] + 256 * FromLittleEndian(bs[2..]);
      assert FromLittleEndian(bs[2..]) == bs[2] + 256 * FromLittleEndian(bs[3..]);
      assert FromLittleEndian(bs[3..]) == bs[3] + 256 * FromLittleEndian(bs[4..]);
    } else if |bs| == 2 {
      assert FromLittleEndian(bs[1..]) == bs[1] + 256 * FromLittleEndian(bs[1..][1..]);
    }
  }

  /** A bool is one byte; a string is its length in two bytes and its characters; a pair is its two parts. */
  lemma PlainLayout(b: bool, s: seq<Byte>, t: Ty, u: Ty, x: Val, y: Val)
    requires Typed(t, x) && Typed(u, y)
    ensures Encode(Bool, Flag(b)) == [if b then 1 else 0]
    ensures Packable(Str, Text(s)) <==> |s| < 0x1_0000
    ensures Encode(Str, Text(s)) == [|s| % 256, |s| / 256 % 256] + s
    ensures Encode(Pair(t, u), Two(x, y)) == Encode(t, x) + Encode(u, y)
  {
    hide LittleEndian;
    TwoBytes(|s|);
  }

  /** How far into the elements the i-th one starts. */
  function Offset(e: Ty, xs: seq<Val>, i: nat): nat
    requires i <= |xs| && forall x | x in xs :: Typed(e, x)
  {
    if i == 0 then 0 else Offset(e, xs, i - 1) + |Encode(e, xs[i - 1])|
  }

  lemma {:induction false} ElementAt(e: Ty, xs: seq<Val>, i: nat)
    requires i <= |xs| && forall x | x in xs :: Typed(e, x)
    ensures Offset(e, xs, i) <= |EncodeAll(e, xs)|
    ensures EncodeAll(e, xs)[Offset(e, xs, i)..] == EncodeAll(e, xs[i..])
    decreases i
  {
    hide Encode, Typed;
    if i == 0 {
      assert xs[0..] == xs;
    } else {
      ElementAt(e, xs, i - 1);
      var rest, one := xs[i - 1..], Encode(e, xs[i - 1]);
      assert rest[1..] == xs[i..] && EncodeAll(e, rest) == one + EncodeAll(e, rest[1..]);
      assert EncodeAll(e, xs)[Offset(e, xs, i)..] == EncodeAll(e, rest)[|one|..];
    }
  }

  /** A vector, set or map is its count in four bytes and its elements one after the other, and nothing else. */
  lemma CollectionLayout(k: Kind, e: Ty, xs: seq<Val>, i: nat)
    requires Typed(Coll(k, e), Many(xs)) && i < |xs|
    ensures var bs, n := Encode(Coll(k, e), Many(xs)), |xs|;
            var at, size := 4 + Offset(e, xs, i), |Encode(e, xs[i])|;
            && |bs| == 4 + Offset(e, xs, n) && at + size <= |bs|
            && bs[..4] == [n % 256, n / 0x100 % 256, n / 0x1_0000 % 256, n / 0x100_0000 % 256]
            && bs[at..at + size] == Encode(e, xs[i])
  {
    hide Encode, EncodeAll, LittleEndian, Typed, Offset;
    CollUnfolds(k, e, xs);
    FourBytes(|xs|);
    OneElement(e, xs, i);
    BehindFront(LittleEndian(|xs|, 4), EncodeAll(e, xs), Offset(e, xs, i), |Encode(e, xs[i])|);
  }

  lemma OneElement(e: Ty, xs: seq<Val>, i: nat)
    requires i < |xs| && forall x | x in xs :: Typed(e, x)
    ensures var o, size := Offset(e, xs, i), |Encode(e, xs[i])|;
            && o + size <= |EncodeAll(e, xs)| == Offset(e, xs, |xs|)
            && EncodeAll(e, xs)[o..o + size] == Encode(e, xs[i])
  {
    hide Encode, EncodeAll, Typed, Offset;
    var body, tail := EncodeAll(e, xs), xs[i..];
    ElementAt(e, xs, i);
    ElementAt(e, xs, |xs|);
    assert xs[|xs|..] == [];
    AllUnfolds(e, tail);
    AllUnfolds(e, xs[|xs|..]);
    var o, size := Offset(e, xs, i), |Encode(e, xs[i])|;
    assert body[o..o + size] == body[o..][..size];
  }

  lemma AllUnfolds(e: Ty, xs: seq<Val>)
    requires forall x | x in xs :: Typed(e, x)
    ensures xs == [] ==> EncodeAll(e, xs) == []
    ensures xs != [] ==>
              (forall x | x in xs[1..] :: Typed(e, x)) && EncodeAll(e, xs) == Encode(e, xs[0]) + EncodeAll(e, xs[1..])
  {
    hide Encode, Typed;
  }

  lemma BehindFront(front: seq<Byte>, body: seq<Byte>, o: nat, size: nat)
    requires o + size <= |body|
    ensures (front + body)[..|front|] == front
    ensures (front + body)[|front| + o..|front| + o + size] == body[o..o + size]
  {
  }

  lemma CollUnfolds(k: Kind, e: Ty, xs: seq<Val>)
    requires Typed(Coll(k, e), Many(xs))
    ensures forall x | x in xs :: Typed(e, x)
    ensures Encode(Coll(k, e), Many(xs)) == LittleEndian(|xs|, 4) + EncodeAll(e, xs)
  {
  }

  lemma RoundUpIs(n: nat, a: nat, q: nat)
    requires a > 0 && a * q < n + a <= a * q + a
    ensures RoundUp(n, a) == q * a
  {
    QuotientIs(n + a - 1, a, q, n + a - 1 - a * q);
  }

  /** `sizeof` of some element types, in bytes. */
  lemma SizeExamples()
    ensures SizeOf(Str) == 32 && SizeOf(Coll(Vec, Str)) == 24
    ensures SizeOf(Coll(Set, Str)) == 48 && SizeOf(Coll(Map, Str)) == 48
    ensures SizeOf(Pair(UInt8, UInt32)) == 8 && SizeOf(Pair(UInt32, Str)) == 40 && SizeOf(Pair(Str, UInt8)) == 40
  {
    hide RoundUp;
    RoundUpIs(1, 4, 1);
    RoundUpIs(8, 4, 2);
    RoundUpIs(4, 8, 1);
    RoundUpIs(40, 8, 5);
    RoundUpIs(32, 1, 32);
    RoundUpIs(33, 8, 5);
    assert AlignOf(UInt8) == 1 && AlignOf(UInt32) == 4 && AlignOf(Str) == 8;
    assert AlignOf(Pair(UInt8, UInt32)) == 4 && AlignOf(Pair(UInt32, Str)) == 8 && AlignOf(Pair(Str, UInt8)) == 8;
    assert SizeOf(UInt8) == 1 && SizeOf(UInt32) == 4 && SizeOf(Str) == 32;
  }

  /** Any byte but zero unpacks to true. */
  lemma DecodeAnyBool(b: Byte, rest: seq<Byte>)
    ensures Decode(Bool, [b] + rest) == Ok((Flag(b != 0), rest))
  {
    assert ([b] + rest)[..1] == [b] && ([b] + rest)[1..] == rest;
    assert FromLittleEndian([b]) == b + 256 * FromLittleEndian([]);
  }

  lemma Powers()
    ensures Pow256(1) == 0x100 && Pow256(2) == 0x1_0000 && Pow256(4) == 0x1_0000_0000
    ensures Pow256(8) == 0x1_0000_0000_0000_0000
  {
    assert Pow256(3) == 0x100_0000;
    assert Pow256(5) == 0x100_0000_0000;
    assert Pow256(6) == 0x1_0000_0000_0000;
    assert Pow256(7) == 0x100_0000_0000_0000;
  }

  /** Popping what was pushed. */
  lemma PopPushed(n: nat, k: nat, rest: seq<Byte>)
    requires n < Pow256(k)
    ensures Pop(k, LittleEndian(n, k) + rest) == Ok((n, rest))
  {
    LittleEndianInverse(n, k);
    assert (LittleEndian(n, k) + rest)[..k] == LittleEndian(n, k);
  }

  /** Every vector of non-scalars inside `v` passes its count check. */
  predicate CountsOk(t: Ty, v: Val)
    requires Typed(t, v)
  {
    match t
    case Pair(a, b) => CountsOk(a, v.first) && CountsOk(b, v.second)
    case Coll(k, e) =>
      && (k.Vec? && !Scalar(e) ==> |v.elems| * SizeOf(e) <= 128 * 1024 * 1024)
      && forall x | x in v.elems :: CountsOk(e, x)
    case _ => true
  }

  lemma {:induction false} EncodeNotEmpty(t: Ty, v: Val)
    requires Typed(t, v)
    ensures |Encode(t, v)| >= 1
    ensures Scalar(t) ==> |Encode(t, v)| == Width(t)
  {
    match t
    case Pair(a, b) => EncodeNotEmpty(a, v.first);
    case _ =>
  }

  lemma {:induction false} EncodeAllLength(e: Ty, xs: seq<Val>)
    requires forall x | x in xs :: Typed(e, x)
    ensures |EncodeAll(e, xs)| >= |xs|
    ensures Scalar(e) ==> |EncodeAll(e, xs)| == |xs| * Width(e)
    decreases |xs|
  {
    if xs != [] {
      EncodeNotEmpty(e, xs[0]);
      EncodeAllLength(e, xs[1..]);
    }
  }

  lemma {:induction false} AddAtEnd(k: Kind, acc: seq<Val>, v: Val)
    requires k.Vec? || forall x | x in acc :: Less(Key(k, x), Key(k, v))
    ensures Add(k, acc, v) == acc + [v]
    decreases |acc|
  {
    if !k.Vec? && acc != [] {
      AddAtEnd(k, acc[1..], v);
    }
  }

  lemma OneByte(b: Byte)
    ensures LittleEndian(b, 1) == [b]
  {
  }

  /** The remaining bytes always justify a count of scalars; for others the limit decides. */
  lemma PackedCountPasses(e: Ty, xs: seq<Val>, after: nat)
    requires (forall x | x in xs :: Typed(e, x)) && |EncodeAll(e, xs)| + after < 0x1_0000_0000
    ensures CountOk(e, |xs|, |EncodeAll(e, xs)| + after) <==>
            (Scalar(e) || |xs| * SizeOf(e) <= 128 * 1024 * 1024)
  {
    EncodeAllLength(e, xs);
  }

  /**
   * Unpacking a packed value gives the value back and leaves the bytes after it, exactly when
   * every vector passes its count check.
   */
  lemma {:induction false} RoundTrip(t: Ty, v: Val, rest: seq<Byte>)
    requires Typed(t, v) && Packable(t, v) && |Encode(t, v)| + |rest| < 0x1_0000_0000
    ensures Decode(t, Encode(t, v) + rest) == if CountsOk(t, v) then Ok((v, rest)) else Error
    decreases t, 0
  {
    Powers();
    hide CountOk, FromLittleEndian, LittleEndian, Less, Pow256, DecodeAll, EncodeAll, Pop, SizeOf;
    match t
    case Str =>
      assert Encode(t, v) + rest == LittleEndian(|v.s|, 2) + (v.s + rest);
      PopPushed(|v.s|, 2, v.s + rest);
    case Bool =>
      var b := if v.b then 1 else 0;
      OneByte(b);
      PopPushed(b, 1, rest);
    case Pair(a, b) =>
      assert Encode(t, v) + rest == Encode(a, v.first) + (Encode(b, v.second) + rest);
      RoundTrip(a, v.first, Encode(b, v.second) + rest);
      RoundTrip(b, v.second, rest);
    case Coll(k, e) =>
      var body := EncodeAll(e, v.elems);
      EncodeAllLength(e, v.elems);
      PackedCountPasses(e, v.elems, |rest|);
      assert Encode(t, v) + rest == LittleEndian(|v.elems|, 4) + (body + rest);
      PopPushed(|v.elems|, 4, body + rest);
      RoundTripAll(k, e, [], v.elems, rest);
      assert [] + v.elems == v.elems;
    case _ =>
      PopPushed(v.n, Width(t), rest);
  }

  lemma {:induction false} EmptyStrings(n: nat)
    ensures var xs := seq(n, _ => Text([])); |EncodeAll(Str, xs)| == 2 * n
  {
    var xs := seq(n, _ => Text([]));
    if n > 0 {
      assert xs[1..] == seq(n - 1, _ => Text([]));
      EmptyStrings(n - 1);
    }
  }

  /** A packed value that cannot be unpacked: a few more than four million empty strings. */
  lemma LongVectorFails()
    ensures var t, v := Coll(Vec, Str), Many(seq(4194305, _ => Text([])));
            && Typed(t, v) && Packable(t, v) && |Encode(t, v)| == 8388614
            && Decode(t, Encode(t, v)) == Error
  {
    hide Decode, EncodeAll, LittleEndian;
    var t, v := Coll(Vec, Str), Many(seq(4194305, _ => Text([])));
    EmptyStrings(4194305);
    assert |v.elems| * SizeOf(Str) > 128 * 1024 * 1024;
    RoundTrip(t, v, []);
    assert Encode(t, v) + [] == Encode(t, v);
  }

  lemma {:induction false} RoundTripAll(k: Kind, e: Ty, acc: seq<Val>, xs: seq<Val>, rest: seq<Byte>)
    requires forall x | x in xs :: Typed(e, x) && Packable(e, x)
    requires k.Vec? || Ascending(k, acc + xs)
    requires |EncodeAll(e, xs)| + |rest| < 0x1_0000_0000
    ensures DecodeAll(k, e, |xs|, EncodeAll(e, xs) + rest, acc) ==
            if forall x | x in xs :: CountsOk(e, x) then Ok((acc + xs, rest)) else Error
    decreases e, |xs| + 1
  {
    hide Less, Key, CountsOk, Typed, Packable, Encode, Decode, Add;
    if xs == [] {
      assert acc + xs == acc && EncodeAll(e, xs) + rest == rest;
    } else {
      var x, ys := xs[0], xs[1..];
      assert EncodeAll(e, xs) + rest == Encode(e, x) + (EncodeAll(e, ys) + rest);
      RoundTrip(e, x, EncodeAll(e, ys) + rest);
      assert acc + xs == (acc + [x]) + ys;
      assert forall i | 0 <= i < |acc| :: (acc + xs)[i] == acc[i];
      assert (acc + xs)[|acc|] == x;
      AddAtEnd(k, acc, x);
      RoundTripAll(k, e, acc + [x], ys, rest);
      assert forall y :: y in xs <==> y == x || y in ys;
    }
  }

  // ----- Extension

  /** More input changes neither the value nor where it ends. */
  lemma {:induction false} Extension(t: Ty, p: seq<Byte>, q: seq<Byte>)
    requires Decode(t, p).Ok? && |p| + |q| < 0x1_0000_0000
    ensures Decode(t, p + q) == Ok((Decode(t, p).value.0, Decode(t, p).value.1 + q))
    ensures |Decode(t, p).value.1| <= |p|
    decreases t, 0
  {
    hide CountOk, FromLittleEndian, Less, DecodeAll;
    match t
    case Str =>
      ExtendPop(2, p, q);
      var n := Pop(2, p).value;
      assert (n.1 + q)[..n.0] == n.1[..n.0];
      assert (n.1 + q)[n.0..] == n.1[n.0..] + q;
    case Bool => ExtendPop(1, p, q);
    case Pair(a, b) =>
      Extension(a, p, q);
      Extension(b, Decode(a, p).value.1, q);
    case Coll(k, e) =>
      ExtendPop(4, p, q);
      var n := Pop(4, p).value;
      if k.Vec? && n.0 > 0 {
        MoreBytesPass(e, n.0, |n.1|, |n.1 + q|);
      }
      ExtendAll(k, e, n.0, n.1, q, []);
    case _ => ExtendPop(Width(t), p, q);
  }

  lemma MoreBytesPass(e: Ty, count: nat, size: nat, more: nat)
    requires CountOk(e, count, size) && size <= more < 0x1_0000_0000
    ensures CountOk(e, count, more)
  {
  }

  lemma ExtendPop(k: nat, p: seq<Byte>, q: seq<Byte>)
    requires Pop(k, p).Ok?
    ensures Pop(k, p + q) == Ok((Pop(k, p).value.0, Pop(k, p).value.1 + q))
    ensures |Pop(k, p).value.1| <= |p|
  {
    assert (p + q)[..k] == p[..k];
    assert (p + q)[k..] == p[k..] + q;
  }

  lemma {:induction false} ExtendAll(k: Kind, e: Ty, count: nat, p: seq<Byte>, q: seq<Byte>, acc: seq<Val>)
    requires DecodeAll(k, e, count, p, acc).Ok? && |p| + |q| < 0x1_0000_0000
    ensures var d := DecodeAll(k, e, count, p, acc).value;
            DecodeAll(k, e, count, p + q, acc) == Ok((d.0, d.1 + q)) && |d.1| <= |p|
    decreases e, count + 1
  {
    if count > 0 {
      Extension(e, p, q);
      var x := Decode(e, p).value;
      ExtendAll(k, e, count - 1, x.1, q, Add(k, acc, x.0));
    }
  }

  /** Values that pack, unpack, and fit the 32-bit sizes. */
  predicate Transferable(t: Ty, v: Val) {
    Typed(t, v) && Packable(t, v) && CountsOk(t, v) && |Encode(t, v)| < 0x1_0000_0000
  }

  lemma WholeRoundTrip(t: Ty, v: Val)
    requires Transferable(t, v)
    ensures Decode(t, Encode(t, v)) == Ok((v, []))
  {
    RoundTrip(t, v, []);
    assert Encode(t, v) + [] == Encode(t, v);
  }

  /** Cutting a packed value anywhere makes unpacking fail. */
  lemma StrictPrefixFails(t: Ty, v: Val, cut: nat)
    requires Transferable(t, v) && cut < |Encode(t, v)|
    ensures Decode(t, Encode(t, v)[..cut]).Error?
  {
    var p, q := Encode(t, v)[..cut], Encode(t, v)[cut..];
    WholeRoundTrip(t, v);
    assert p + q == Encode(t, v);
    if Decode(t, p).Ok? {
      Extension(t, p, q);
      assert false;
    }
  }

  /** Packing is injective, and no packed value starts another one. */
  lemma PrefixFree(t: Ty, v: Val, u: Val)
    requires Transferable(t, v) && Transferable(t, u) && Encode(t, v) <= Encode(t, u)
    ensures v == u
  {
    WholeRoundTrip(t, v);
    WholeRoundTrip(t, u);
    if |Encode(t, v)| < |Encode(t, u)| {
      assert Encode(t, v) == Encode(t, u)[..|Encode(t, v)|];
      StrictPrefixFails(t, u, |Encode(t, v)|);
      assert false;
    }
    assert Encode(t, v) == Encode(t, u);
  }

  /**
   * A vector whose count does not fit is rejected at once: scalars must fit the bytes left, counted modulo
   * 2^32, and other elements 128 MB, whatever follows.
   */
  lemma BigCountRejected(e: Ty, bs: seq<Byte>)
    requires |bs| >= 4
    ensures var n, left := Number4(bs[0], bs[1], bs[2], bs[3]), (|bs| - 4) % 0x1_0000_0000;
            && (e.UInt8? || e.Bool? ==> n > left ==> Decode(Coll(Vec, e), bs).Error?)
            && (e.UInt16? ==> 2 * n > left ==> Decode(Coll(Vec, e), bs).Error?)
            && (e.UInt32? ==> 4 * n > left ==> Decode(Coll(Vec, e), bs).Error?)
            && (e.UInt64? ==> 8 * n > left ==> Decode(Coll(Vec, e), bs).Error?)
            && (!Scalar(e) && n * SizeOf(e) > 134_217_728 ==> Decode(Coll(Vec, e), bs).Error?)
  {
    hide FromLittleEndian, DecodeAll, Number4, SizeOf;
    FromBytes(bs[..4]);
  }

  // ----- The order of sets and maps

  /** At byte k the first string ends and the second goes on, or the first has the smaller byte. */
  predicate DiffersAt(s: seq<Byte>, u: seq<Byte>, k: nat) {
    && k <= |s| && k < |u| && s[..k] == u[..k]
    && (k < |s| ==> s[k] < u[k])
  }

  lemma {:induction false} TextOrder(s: seq<Byte>, u: seq<Byte>)
    ensures LessText(s, u) <==> exists k: nat :: DiffersAt(s, u, k)
    decreases |s|
  {
    if s == [] || u == [] {
      if u != [] {
        assert DiffersAt(s, u, 0);
      }
    } else {
      TextOrder(s[1..], u[1..]);
      if LessText(s, u) {
        if s[0] < u[0] {
          assert DiffersAt(s, u, 0);
        } else {
          var k: nat :| DiffersAt(s[1..], u[1..], k);
          assert s[..k + 1] == [s[0]] + s[1..][..k] && u[..k + 1] == [u[0]] + u[1..][..k];
          assert DiffersAt(s, u, k + 1);
        }
      } else if k: nat :| DiffersAt(s, u, k) {
        if k > 0 {
          assert s[..k][0] == u[..k][0];
          assert s[1..][..k - 1] == s[..k][1..] && u[1..][..k - 1] == u[..k][1..];
          assert DiffersAt(s[1..], u[1..], k - 1);
        }
        assert false;
      }
    }
  }

  /** An unpacked set of numbers ascends as integers, and one of strings byte by byte. */
  lemma UnpackedSetAscends(e: Ty, bs: seq<Byte>, i: nat, j: nat)
    requires Decode(Coll(Set, e), bs).Ok?
    requires i < j < |Decode(Coll(Set, e), bs).value.0.elems|
    ensures var xs := Decode(Coll(Set, e), bs).value.0.elems;
            && (xs[i].Num? && xs[j].Num? ==> xs[i].n < xs[j].n)
            && (xs[i].Flag? && xs[j].Flag? ==> !xs[i].b && xs[j].b)
            && (xs[i].Text? && xs[j].Text? ==> exists k: nat :: DiffersAt(xs[i].s, xs[j].s, k))
  {
    DecodedIsTyped(Coll(Set, e), bs);
    var xs := Decode(Coll(Set, e), bs).value.0.elems;
    hide Decode;
    assert Less(Key(Set, xs[i]), Key(Set, xs[j]));
    if xs[i].Text? && xs[j].Text? {
      TextOrder(xs[i].s, xs[j].s);
    }
  }

  /** An unpacked map ascends by its keys in the same way. */
  lemma UnpackedMapAscends(a: Ty, b: Ty, bs: seq<Byte>, i: nat, j: nat)
    requires Decode(Coll(Map, Pair(a, b)), bs).Ok?
    requires i < j < |Decode(Coll(Map, Pair(a, b)), bs).value.0.elems|
    ensures var xs := Decode(Coll(Map, Pair(a, b)), bs).value.0.elems;
            && xs[i].Two? && xs[j].Two?
            && var x, y := xs[i].first, xs[j].first;
               && (x.Num? && y.Num? ==> x.n < y.n)
               && (x.Flag? && y.Flag? ==> !x.b && y.b)
               && (x.Text? && y.Text? ==> exists k: nat :: DiffersAt(x.s, y.s, k))
  {
    DecodedIsTyped(Coll(Map, Pair(a, b)), bs);
    var xs := Decode(Coll(Map, Pair(a, b)), bs).value.0.elems;
    hide Decode;
    assert xs[i] in xs && xs[j] in xs;
    assert Less(Key(Map, xs[i]), Key(Map, xs[j]));
    if xs[i].first.Text? && xs[j].first.Text? {
      TextOrder(xs[i].first.s, xs[j].first.s);
    }
  }

  // ----- Whatever is unpacked is a value of its type

  lemma {:induction false} TextTransitive(s: seq<Byte>, u: seq<Byte>, w: seq<Byte>)
    requires LessText(s, u) && LessText(u, w)
    ensures LessText(s, w)
    decreases |s|
  {
    if s != [] && s[0] == u[0] == w[0] {
      TextTransitive(s[1..], u[1..], w[1..]);
    }
  }

  lemma {:induction false} LessTransitive(a: Val, b: Val, c: Val)
    requires Less(a, b) && Less(b, c)
    ensures Less(a, c)
    decreases a, 1
  {
    match a
    case Num(_) =>
    case Flag(_) =>
    case Text(_) => TextTransitive(a.s, b.s, c.s);
    case Two(_, _) =>
      if Less(a.first, b.first) && Less(b.first, c.first) {
        LessTransitive(a.first, b.first, c.first);
      } else if a.first == b.first == c.first {
        LessTransitive(a.second, b.second, c.second);
      }
    case Many(_) => LessAllTransitive(a.elems, b.elems, c.elems);
  }

  lemma {:induction false} LessAllTransitive(xs: seq<Val>, ys: seq<Val>, zs: seq<Val>)
    requires LessAll(xs, ys) && LessAll(ys, zs)
    ensures LessAll(xs, zs)
    decreases xs, 0
  {
    if xs != [] {
      if Less(xs[0], ys[0]) && Less(ys[0], zs[0]) {
        LessTransitive(xs[0], ys[0], zs[0]);
      } else if xs[0] == ys[0] == zs[0] {
        LessAllTransitive(xs[1..], ys[1..], zs[1..]);
      }
    }
  }

  lemma {:induction false} TextTotal(s: seq<Byte>, u: seq<Byte>)
    ensures s == u || LessText(s, u) || LessText(u, s)
    decreases |s|
  {
    if s != [] && u != [] && s[0] == u[0] {
      TextTotal(s[1..], u[1..]);
      assert s == [s[0]] + s[1..] && u == [u[0]] + u[1..];
    }
  }

  lemma {:induction false} LessTotal(t: Ty, a: Val, b: Val)
    requires Typed(t, a) && Typed(t, b)
    ensures a == b || Less(a, b) || Less(b, a)
    decreases t, 0
  {
    match t
    case Str => TextTotal(a.s, b.s);
    case Pair(x, y) =>
      LessTotal(x, a.first, b.first);
      LessTotal(y, a.second, b.second);
    case Coll(_, e) => LessAllTotal(e, a.elems, b.elems);
    case _ =>
  }

  lemma {:induction false} LessAllTotal(e: Ty, xs: seq<Val>, ys: seq<Val>)
    requires (forall x | x in xs :: Typed(e, x)) && forall y | y in ys :: Typed(e, y)
    ensures xs == ys || LessAll(xs, ys) || LessAll(ys, xs)
    decreases e, |xs| + 1
  {
    if xs != [] && ys != [] {
      LessTotal(e, xs[0], ys[0]);
      LessAllTotal(e, xs[1..], ys[1..]);
      assert xs == [xs[0]] + xs[1..] && ys == [ys[0]] + ys[1..];
    }
  }

  /** Insertion keeps the keys ascending and adds at most the new element. */
  lemma {:induction false} AddKeepsAscending(k: Kind, acc: seq<Val>, v: Val)
    requires !k.Vec? && Ascending(k, acc)
    ensures Ascending(k, Add(k, acc, v))
    ensures forall x | x in Add(k, acc, v) :: x in acc || x == v
    decreases |acc|
  {
    if acc != [] {
      var rest := acc[1..];
      var r := Add(k, acc, v);
      if Less(Key(k, acc[0]), Key(k, v)) {
        AddKeepsAscending(k, rest, v);
        forall i, j | 0 <= i < j < |r| ensures Less(Key(k, r[i]), Key(k, r[j])) {
          if i == 0 {
            assert r[j] in Add(k, rest, v);
          }
        }
      } else if Less(Key(k, v), Key(k, acc[0])) {
        forall j | 0 < j < |r| ensures Less(Key(k, v), Key(k, r[j])) {
          if j > 1 {
            LessTransitive(Key(k, v), Key(k, acc[0]), Key(k, r[j]));
          }
        }
      }
    }
  }

  lemma {:induction false} FromLittleEndianBound(bs: seq<Byte>)
    ensures FromLittleEndian(bs) < Pow256(|bs|)
  {
    if bs != [] {
      FromLittleEndianBound(bs[1..]);
    }
  }

  /** Any bytes that unpack at all unpack to a well-formed value; sets and maps come out ordered. */
  lemma {:induction false} DecodedIsTyped(t: Ty, bs: seq<Byte>)
    requires Decode(t, bs).Ok?
    ensures Typed(t, Decode(t, bs).value.0)
    decreases t, 0
  {
    hide CountOk, FromLittleEndian, Less, Pow256, LittleEndian;
    match t
    case Str =>
    case Bool =>
    case Pair(a, b) =>
      DecodedIsTyped(a, bs);
      DecodedIsTyped(b, Decode(a, bs).value.1);
    case Coll(k, e) =>
      var n := Pop(4, bs).value;
      DecodedAllTyped(k, e, n.0, n.1, []);
    case _ => FromLittleEndianBound(bs[..Width(t)]);
  }

  lemma {:induction false} DecodedAllTyped(k: Kind, e: Ty, count: nat, bs: seq<Byte>, acc: seq<Val>)
    requires DecodeAll(k, e, count, bs, acc).Ok?
    requires (forall x | x in acc :: Typed(e, x)) && (k.Vec? || Ascending(k, acc))
    ensures forall x | x in DecodeAll(k, e, count, bs, acc).value.0 :: Typed(e, x)
    ensures k.Vec? || Ascending(k, DecodeAll(k, e, count, bs, acc).value.0)
    decreases e, count + 1
  {
    if count > 0 {
      DecodedIsTyped(e, bs);
      var x := Decode(e, bs).value;
      if !k.Vec? {
        AddKeepsAscending(k, acc, x.0);
      }
      DecodedAllTyped(k, e, count - 1, x.1, Add(k, acc, x.0));
    }
  }

  /** A set or map keeps every key it is given, with the first element that carried it. */
  lemma {:induction false} AddKeepsKeys(k: Kind, e: Ty, acc: seq<Val>, v: Val)
    requires !k.Vec? && Typed(e, Key(k, v)) && forall x | x in acc :: Typed(e, Key(k, x))
    ensures forall x | x in acc :: x in Add(k, acc, v)
    ensures v in Add(k, acc, v) || exists x | x in acc :: Key(k, x) == Key(k, v)
    decreases |acc|
  {
    if acc != [] {
      LessTotal(e, Key(k, acc[0]), Key(k, v));
      AddKeepsKeys(k, e, acc[1..], v);
      assert acc[0] in acc;
    }
  }
}
