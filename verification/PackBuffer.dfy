/** The growing buffer, the packer and the unpacker of cppBase/core/packet.h. */
module PackBuffers {
  import opened CArith
  import opened Packets

  const HEADER_SIZE: nat := 10

  datatype Header = Header(length: nat, uri: nat, resCode: nat)

  /** `getRawHeader`. */
  function RawHeader(h: Header): (bs: seq<Byte>)
    ensures |bs| == HEADER_SIZE
  {
    LittleEndian(h.length, 4) + LittleEndian(h.uri, 4) + LittleEndian(h.resCode, 2)
  }

  /** `parseRawHeader` on the first bytes of a packet. */
  function ParseHeader(bs: seq<Byte>): Header
    requires |bs| >= HEADER_SIZE
  {
    Header(FromLittleEndian(bs[..4]), FromLittleEndian(bs[4..8]), FromLittleEndian(bs[8..10]))
  }

  /** A whole packet: the header, then the body. */
  function Frame(uri: nat, body: seq<Byte>): seq<Byte> {
    RawHeader(Header(HEADER_SIZE + |body|, uri, 200)) + body
  }

  lemma HeaderRoundTrip(h: Header, body: seq<Byte>)
    requires h.length < 0x1_0000_0000 && h.uri < 0x1_0000_0000 && h.resCode < 0x1_0000
    ensures ParseHeader(RawHeader(h) + body) == h
  {
    Powers();
    LittleEndianInverse(h.length, 4);
    LittleEndianInverse(h.uri, 4);
    LittleEndianInverse(h.resCode, 2);
    hide LittleEndian, FromLittleEndian;
    var bs := RawHeader(h) + body;
    assert bs[..4] == LittleEndian(h.length, 4);
    assert bs[4..8] == LittleEndian(h.uri, 4);
    assert bs[8..10] == LittleEndian(h.resCode, 2);
  }

  /** A packet starts with its size in four bytes, the uri in four and the code in two, lowest byte first. */
  lemma HeaderLayout(uri: nat, body: seq<Byte>)
    ensures var n := 10 + |body|;
            Frame(uri, body) ==
            [n % 256, n / 0x100 % 256, n / 0x1_0000 % 256, n / 0x100_0000 % 256] +
            [uri % 256, uri / 0x100 % 256, uri / 0x1_0000 % 256, uri / 0x100_0000 % 256] +
            [200, 0] + body
  {
    hide LittleEndian;
    FourBytes(10 + |body|);
    FourBytes(uri);
    TwoBytes(200);
  }

  /** A packet announces its own size, its uri and code 200, and its body unpacks to the value packed. */
  lemma FrameRoundTrip(uri: nat, t: Ty, v: Val)
    requires Transferable(t, v) && uri < 0x1_0000_0000 && HEADER_SIZE + |Encode(t, v)| < 0x1_0000_0000
    ensures var packet := Frame(uri, Encode(t, v));
            && |packet| >= HEADER_SIZE && ParseHeader(packet) == Header(|packet|, uri, 200)
            && Decode(t, packet[HEADER_SIZE..]) == Ok((v, []))
  {
    hide Encode, Decode, ParseHeader, RawHeader;
    var body := Encode(t, v);
    HeaderRoundTrip(Header(HEADER_SIZE + |body|, uri, 200), body);
    WholeRoundTrip(t, v);
    assert Frame(uri, body)[HEADER_SIZE..] == body;
  }

  class PackBuffer {
    var buf: array<Byte>
    var len: nat

    ghost predicate Valid()
      reads this
    {
      len <= buf.Length
    }

    ghost function Contents(): seq<Byte>
      requires Valid()
      reads this, buf
    {
      buf[..len]
    }

    constructor (n: nat := 256)
      ensures Valid() && fresh(buf) && buf.Length == n && Contents() == []
    {
      buf := new Byte[n](_ => 0);
      len := 0;
    }

    /** Grows the capacity, keeping every byte up to the old one. */
    method Reserve(n: nat)
      requires Valid()
      modifies this
      ensures Valid() && len == old(len) && (buf == old(buf) || fresh(buf))
      ensures buf.Length == if n <= old(buf.Length) then old(buf.Length) else n
      ensures buf[..old(buf.Length)] == old(buf[..])
    {
      if n <= buf.Length {
        return;
      }
      var grown := new Byte[n](_ => 0);
      forall i | 0 <= i < buf.Length {
        grown[i] := buf[i];
      }
      buf := grown;
    }

    method Append(data: seq<Byte>)
      requires Valid()
      modifies this, buf
      ensures Valid() && (buf == old(buf) || fresh(buf)) && buf.Length >= old(buf.Length)
      ensures Contents() == old(Contents()) + data
    {
      if len + |data| > buf.Length {
        var n := if len + |data| > buf.Length * 2 then len + |data| else buf.Length * 2;
        Reserve(n);
        assert buf[..len] == old(buf[..len]);
      }
      forall i | 0 <= i < |data| {
        buf[len + i] := data[i];
      }
      len := len + |data|;
    }

    /** Moves the end; the bytes between are whatever the memory holds. */
    method Seek(pos: nat) returns (ok: bool)
      requires Valid()
      modifies this`len
      ensures Valid() && ok == (pos <= buf.Length)
      ensures len == if ok then pos else old(len)
    {
      ok := pos <= buf.Length;
      if ok {
        len := pos;
      }
    }

    /** Checks the range at `pos`, but always writes at the front. */
    method Replace(pos: nat, rep: seq<Byte>) returns (ok: bool)
      requires Valid()
      modifies buf
      ensures ok == (pos + |rep| <= len)
      ensures Contents() == if ok then rep + old(Contents())[|rep|..] else old(Contents())
    {
      ok := pos + |rep| <= len;
      if ok {
        forall i | 0 <= i < |rep| {
          buf[i] := rep[i];
        }
      }
    }
  }

  /** `operator<<` for every type: appends the encoding, or fails on a string that is too long. */
  method Push(p: PackBuffer, t: Ty, v: Val) returns (ok: bool)
    requires p.Valid() && Typed(t, v)
    modifies p, p.buf
    ensures p.Valid() && (p.buf == old(p.buf) || fresh(p.buf)) && p.buf.Length >= old(p.buf.Length)
    ensures ok <==> Packable(t, v)
    ensures ok ==> p.Contents() == old(p.Contents()) + Encode(t, v)
    ensures !ok ==> old(p.Contents()) <= p.Contents() <= old(p.Contents()) + Encode(t, v)
    decreases t, 1
  {
    match t
    case Str =>
      ok := |v.s| <= 0xFFFF;
      if ok {
        p.Append(LittleEndian(|v.s|, 2));
        p.Append(v.s);
      }
    case Bool =>
      p.Append([if v.b then 1 else 0]);
      ok := true;
    case Pair(a, b) =>
      ok := PushPair(p, a, b, v.first, v.second);
    case Coll(_, e) =>
      ok := PushAll(p, e, v.elems);
    case _ =>
      p.Append(LittleEndian(v.n, Width(t)));
      ok := true;
  }

  method PushPair(p: PackBuffer, a: Ty, b: Ty, x: Val, y: Val) returns (ok: bool)
    requires p.Valid() && Typed(a, x) && Typed(b, y)
    modifies p, p.buf
    ensures p.Valid() && (p.buf == old(p.buf) || fresh(p.buf)) && p.buf.Length >= old(p.buf.Length)
    ensures ok <==> Packable(a, x) && Packable(b, y)
    ensures ok ==> p.Contents() == old(p.Contents()) + (Encode(a, x) + Encode(b, y))
    ensures !ok ==> old(p.Contents()) <= p.Contents() <= old(p.Contents()) + (Encode(a, x) + Encode(b, y))
    decreases Pair(a, b), 0
  {
    hide Typed, Packable, Encode;
    ghost var start := p.Contents();
    ok := Push(p, a, x);
    assert start + (Encode(a, x) + Encode(b, y)) == start + Encode(a, x) + Encode(b, y);
    if ok {
      ok := Push(p, b, y);
    }
  }

  /** The count, then the elements in iteration order. */
  method PushAll(p: PackBuffer, e: Ty, xs: seq<Val>) returns (ok: bool)
    requires p.Valid() && forall x | x in xs :: Typed(e, x)
    modifies p, p.buf
    ensures p.Valid() && (p.buf == old(p.buf) || fresh(p.buf)) && p.buf.Length >= old(p.buf.Length)
    ensures ok <==> forall x | x in xs :: Packable(e, x)
    ensures ok ==> p.Contents() == old(p.Contents()) + (LittleEndian(|xs|, 4) + EncodeAll(e, xs))
    ensures !ok ==>
              old(p.Contents()) <= p.Contents() <= old(p.Contents()) + (LittleEndian(|xs|, 4) + EncodeAll(e, xs))
    decreases e, 2
  {
    hide Typed, Packable, Encode, EncodeAll, LittleEndian;
    ghost var count := LittleEndian(|xs|, 4);
    p.Append(LittleEndian(|xs|, 4));
    ghost var start := p.Contents();
    assert start + EncodeAll(e, xs) == old(p.Contents()) + (count + EncodeAll(e, xs));
    EncodeNone(e, xs);
    ok := true;
    for i := 0 to |xs|
      invariant p.Valid() && (p.buf == old(p.buf) || fresh(p.buf)) && p.buf.Length >= old(p.buf.Length)
      invariant ok && forall x | x in xs[..i] :: Packable(e, x)
      invariant p.Contents() == start + EncodeAll(e, xs[..i])
    {
      ok := Push(p, e, xs[i]);
      EncodeSnoc(e, xs, i);
      if !ok {
        EncodePrefix(e, xs, i + 1);
        PartOfWhole(start, EncodeAll(e, xs[..i]), Encode(e, xs[i]), EncodeAll(e, xs), p.Contents());
        return;
      }
      assert xs[..i + 1] == xs[..i] + [xs[i]];
    }
    assert xs[..|xs|] == xs;
  }

  lemma EncodeNone(e: Ty, xs: seq<Val>)
    requires forall x | x in xs :: Typed(e, x)
    ensures EncodeAll(e, xs[..0]) == []
  {
  }

  lemma PartOfWhole(start: seq<Byte>, done: seq<Byte>, one: seq<Byte>, whole: seq<Byte>, now: seq<Byte>)
    requires done + one <= whole && start + done <= now <= start + done + one
    ensures now <= start + whole
  {
    assert start + done + one == start + (done + one);
  }

  lemma {:induction false} EncodePrefix(e: Ty, xs: seq<Val>, i: nat)
    requires i <= |xs| && forall x | x in xs :: Typed(e, x)
    ensures EncodeAll(e, xs[..i]) <= EncodeAll(e, xs)
    decreases |xs| - i
  {
    if i < |xs| {
      EncodeSnoc(e, xs, i);
      EncodePrefix(e, xs, i + 1);
    } else {
      assert xs[..i] == xs;
    }
  }

  lemma {:induction false} EncodeSnoc(e: Ty, xs: seq<Val>, i: nat)
    requires i < |xs| && forall x | x in xs :: Typed(e, x)
    ensures EncodeAll(e, xs[..i + 1]) == EncodeAll(e, xs[..i]) + Encode(e, xs[i])
    decreases i
  {
    hide Typed, Encode;
    if i == 0 {
      assert xs[..1] == [xs[0]] && xs[..1][1..] == [] && xs[..0] == [];
    } else {
      EncodeSnoc(e, xs[1..], i - 1);
      assert xs[..i + 1][1..] == xs[1..][..i] && xs[..i][1..] == xs[1..][..i - 1];
    }
  }

  /** `Pack::marshall`: leaves room, packs the body, then fills in the header. */
  method Marshall(p: PackBuffer, uri: nat, t: Ty, v: Val) returns (ok: bool)
    requires p.Valid() && Typed(t, v)
    modifies p, p.buf
    ensures p.Valid()
    ensures ok <==> HEADER_SIZE <= old(p.buf.Length) && Packable(t, v)
    ensures ok ==> p.Contents() == Frame(uri, Encode(t, v))
  {
    hide Typed, Packable, Encode;
    ok := p.Seek(HEADER_SIZE);
    if !ok {
      return;
    }
    ghost var room := p.Contents();
    ok := Push(p, t, v);
    if !ok {
      return;
    }
    ok := p.Replace(0, RawHeader(Header(p.len, uri, 200)));
    assert (room + Encode(t, v))[HEADER_SIZE..] == Encode(t, v);
  }

  /** Whatever the outcome, unpacking only takes bytes off the front. */
  predicate IsSuffix(rest: seq<Byte>, bs: seq<Byte>) {
    |rest| <= |bs| && rest == bs[|bs| - |rest|..]
  }

  lemma DecodeColl(k: Kind, e: Ty, bs: seq<Byte>)
    ensures var n := Pop(4, bs);
            && (n.Error? ==> Decode(Coll(k, e), bs).Error?)
            && (n.Ok? && k.Vec? && n.value.0 > 0 && !CountOk(e, n.value.0, |n.value.1|) ==>
                  Decode(Coll(k, e), bs).Error?)
            && (n.Ok? && !(k.Vec? && n.value.0 > 0 && !CountOk(e, n.value.0, |n.value.1|)) ==>
                  var xs := DecodeAll(k, e, n.value.0, n.value.1, []);
                  Decode(Coll(k, e), bs) == if xs.Error? then Error else Ok((Many(xs.value.0), xs.value.1)))
  {
    hide CountOk, Pop, DecodeAll;
  }

  lemma SuffixOfSuffix(a: seq<Byte>, b: seq<Byte>, c: seq<Byte>)
    requires IsSuffix(a, b) && IsSuffix(b, c)
    ensures IsSuffix(a, c)
  {
  }

  class Unpacker {
    var data: seq<Byte>

    constructor (bytes: seq<Byte>)
      ensures data == bytes
    {
      data := bytes;
    }

    /** The fixed-width pops. */
    method PopNumber(k: nat) returns (r: Outcome<nat>)
      modifies this
      ensures r.Error? <==> Pop(k, old(data)).Error?
      ensures r.Ok? ==> Pop(k, old(data)) == Ok((r.value, data))
      ensures r.Error? ==> data == old(data)
      ensures IsSuffix(data, old(data))
    {
      if |data| < k {
        r := Error;
      } else {
        r := Ok(FromLittleEndian(data[..k]));
        data := data[k..];
      }
    }

    /** `operator>>` for every type, into an empty target. */
    method Get(t: Ty) returns (r: Outcome<Val>)
      modifies this
      ensures r.Error? <==> Decode(t, old(data)).Error?
      ensures r.Ok? ==> Decode(t, old(data)) == Ok((r.value, data))
      ensures IsSuffix(data, old(data))
      decreases t, 0
    {
      match t
      case Str =>
        var n := PopNumber(2);
        if n.Error? || |data| < n.value {
          return Error;
        }
        r := Ok(Text(data[..n.value]));
        data := data[n.value..];
      case Bool =>
        var n := PopNumber(1);
        if n.Error? {
          return Error;
        }
        r := Ok(Flag(n.value != 0));
      case Pair(a, b) =>
        var x := Get(a);
        if x.Error? {
          return Error;
        }
        var y := Get(b);
        if y.Error? {
          return Error;
        }
        r := Ok(Two(x.value, y.value));
      case Coll(k, e) =>
        var xs := GetAll(k, e);
        if xs.Error? {
          return Error;
        }
        r := Ok(Many(xs.value));
      case _ =>
        var n := PopNumber(Width(t));
        if n.Error? {
          return Error;
        }
        r := Ok(Num(n.value));
    }

    method GetAll(k: Kind, e: Ty) returns (r: Outcome<seq<Val>>)
      modifies this
      ensures r.Error? <==> Decode(Coll(k, e), old(data)).Error?
      ensures r.Ok? ==> Decode(Coll(k, e), old(data)) == Ok((Many(r.value), data))
      ensures IsSuffix(data, old(data))
      decreases e, 2
    {
      hide CountOk, Pop, Decode, DecodeAll, IsSuffix;
      DecodeColl(k, e, data);
      var n := PopNumber(4);
      if n.Error? {
        return Error;
      }
      if k.Vec? && n.value > 0 && !CountOk(e, n.value, |data|) {
        return Error;
      }
      ghost var start := data;
      r := GetElements(k, e, n.value);
      SuffixOfSuffix(data, start, old(data));
    }

    /** The loop over the elements. */
    method GetElements(k: Kind, e: Ty, n: nat) returns (r: Outcome<seq<Val>>)
      modifies this
      ensures r.Error? <==> DecodeAll(k, e, n, old(data), []).Error?
      ensures r.Ok? ==> DecodeAll(k, e, n, old(data), []) == Ok((r.value, data))
      ensures IsSuffix(data, old(data))
      decreases e, 1
    {
      hide Add, Decode;
      var count := n;
      var xs: seq<Val> := [];
      while count > 0
        invariant count >= 0 && IsSuffix(data, old(data))
        invariant DecodeAll(k, e, count, data, xs) == DecodeAll(k, e, n, old(data), [])
      {
        ghost var before := data;
        var x := Get(e);
        SuffixOfSuffix(data, before, old(data));
        hide IsSuffix;
        if x.Error? {
          return Error;
        }
        xs := Add(k, xs, x.value);
        count := count - 1;
      }
      r := Ok(xs);
    }
  }
}
