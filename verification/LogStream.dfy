/** The fixed buffer behind log lines, muduo/base/LogStream.h. */
module LogStream {
  import opened Sequences
  import opened Decimals

  /** `kMaxNumericSize`. */
  const MAX_NUMERIC_SIZE: int := 32

  /** A buffer's worth of whole messages, oldest first. */
  type Buffer = seq<string>

  function Bytes(b: Buffer): string {
    Concat(b)
  }

  /** `FixedBuffer::append` with capacity `size`: all of the message or nothing. */
  function AppendTo(size: nat, b: Buffer, message: string): Buffer {
    if size - |Bytes(b)| > |message| then b + [message] else b
  }

  class FixedBuffer {
    const size: nat
    const data: array<char>
    var cur: nat
    ghost var messages: Buffer

    ghost predicate Valid()
      reads this, data
    {
      data.Length == size && cur <= size && data[..cur] == Bytes(messages)
    }

    constructor (size: nat)
      ensures Valid() && fresh(data) && this.size == size && messages == []
    {
      this.size := size;
      data := new char[size](_ => '\0');
      cur := 0;
      messages := [];
    }

    function Length(): nat
      reads this
    {
      cur
    }

    function Avail(): int
      reads this
    {
      size - cur
    }

    method Append(message: string)
      requires Valid()
      modifies this, data
      ensures Valid()
      ensures messages == AppendTo(size, old(messages), message)
      ensures data[..cur] ==
              if size - old(cur) > |message| then old(data[..cur]) + message else old(data[..cur])
    {
      if Avail() > |message| {
        ghost var before := data[..cur];
        forall i | 0 <= i < |message| {
          data[cur + i] := message[i];
        }
        cur := cur + |message|;
        assert data[..cur] == before + message;
        ConcatSnoc(messages, message);
        messages := messages + [message];
      }
    }

    method Reset()
      requires Valid()
      modifies this
      ensures Valid() && messages == [] && Length() == 0 && Avail() == size
    {
      cur := 0;
      messages := [];
    }

    /** `LogStream::formatInteger` on its buffer: the whole text, if 32 bytes are free. */
    method FormatInteger(v: int)
      requires Valid() && -0x8000_0000_0000_0000 <= v < 0x1_0000_0000_0000_0000
      modifies this, data
      ensures Valid()
      ensures messages == if old(Avail()) >= 32 then old(messages) + [DecimalInt(v)] else old(messages)
    {
      if Avail() >= MAX_NUMERIC_SIZE {
        hide Decimal;
        ghost var before := data[..];
        var len := Convert(data, cur, v);
        assert data[..cur + len] == before[..cur] + DecimalInt(v) by {
          assert data[..cur + len] == data[..][..cur + len];
        }
        ConcatSnoc(messages, DecimalInt(v));
        cur := cur + len;
        messages := messages + [DecimalInt(v)];
      }
    }
  }
}
