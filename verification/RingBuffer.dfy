/**
 * The lock-free queue of cppBase/core/RingBuffer.h: once as an object used by one thread,
 * once as a step machine in which one producer and one consumer interleave.
 */
module RingBuffers {
  import opened CArith
  import opened Sequences

  lemma U32Is(x: int)
    requires -0x1_0000_0000 <= x < 0x2_0000_0000
    ensures U32(x) == if x < 0 then x + 0x1_0000_0000 else if x < 0x1_0000_0000 then x else x - 0x1_0000_0000
  {
  }

  /** `getWritableSlotCount`, given the outcome of its comparison and the indices read after it. */
  function WritableCount(size: nat, below: bool, w: nat, r: nat): nat {
    if below then U32(U32(r - w) - 1) else U32(U32(size - w) + r)
  }

  function ReadableCount(size: nat, below: bool, w: nat, r: nat): nat {
    U32(size - WritableCount(size, below, w, r))
  }

  /** The index after `i`, wrapping past the spare slot. */
  function Advance(size: nat, i: nat): nat {
    if i < size then i + 1 else 0
  }

  /** Sizes for which `size + 1` slots can be allocated. */
  predicate Allocatable(size: nat) {
    size < 0xFFFF_FFFF
  }

  // ----- Indices as counts modulo the number of slots

  lemma IndexGap(a: nat, b: nat, m: nat)
    requires m > 0 && a <= b < a + m
    ensures b % m == if a % m + (b - a) < m then a % m + (b - a) else a % m + (b - a) - m
  {
    var q, r := a / m, a % m + (b - a);
    if r < m {
      QuotientIs(b, m, q, r);
    } else {
      assert b == m * (q + 1) + (r - m);
      QuotientIs(b, m, q + 1, r - m);
    }
  }

  lemma AdvanceCounts(size: nat, n: nat)
    ensures (n + 1) % (size + 1) == Advance(size, n % (size + 1))
  {
    if size > 0 {
      IndexGap(n, n + 1, size + 1);
    }
  }

  /** What the wrapping arithmetic of the two counts comes to. */
  lemma CountCases(size: nat, w: nat, r: nat)
    requires Allocatable(size) && w <= size && r <= size
    ensures w < r ==> WritableCount(size, true, w, r) == r - w - 1
    ensures r <= w ==> WritableCount(size, true, w, r) > 0
    ensures r <= w ==> WritableCount(size, false, w, r) == size - w + r
    ensures w < r ==> ReadableCount(size, true, w, r) == size - (r - w - 1)
    ensures r <= w ==> ReadableCount(size, false, w, r) == w - r
    ensures w < r ==> ReadableCount(size, false, w, r) > 0
  {
    U32Is(r - w);
    U32Is(U32(r - w) - 1);
    U32Is(size - w);
    U32Is(size - w + r);
    U32Is(size - WritableCount(size, true, w, r));
    U32Is(size - WritableCount(size, false, w, r));
    hide U32;
  }

  /**
   * The producer's test. It compares with the read index at one moment (`seen` values read) and
   * computes with the index of a later moment (`taken` values read): the count is positive exactly
   * when a slot is free at the later moment.
   */
  lemma WritableIffFree(size: nat, written: nat, seen: nat, taken: nat)
    requires Allocatable(size) && seen <= taken <= written <= seen + size
    ensures var w, m := written % (size + 1), size + 1;
            WritableCount(size, w < seen % m, w, taken % m) > 0 <==> written < taken + size
  {
    hide WritableCount, ReadableCount;
    CountCases(size, written % (size + 1), taken % (size + 1));
    IndexGap(seen, written, size + 1);
    IndexGap(taken, written, size + 1);
    IndexGap(seen, taken, size + 1);
  }

  /** The consumer's test, with the write index read at two moments. */
  lemma ReadableIffFilled(size: nat, taken: nat, seen: nat, written: nat)
    requires Allocatable(size) && taken <= seen <= written <= taken + size
    ensures var r, m := taken % (size + 1), size + 1;
            ReadableCount(size, seen % m < r, written % m, r) > 0 <==> taken < written
  {
    hide WritableCount, ReadableCount;
    CountCases(size, written % (size + 1), taken % (size + 1));
    IndexGap(taken, seen, size + 1);
    IndexGap(taken, written, size + 1);
    IndexGap(seen, written, size + 1);
  }

  // ----- One thread

  class RingBuffer<T> {
    const size: nat
    var rIndex: nat
    var wIndex: nat
    const slots: array<T>

    ghost predicate Valid()
      reads this
    {
      Allocatable(size) && slots.Length == size + 1 && rIndex <= size && wIndex <= size
    }

    ghost function Filled(): nat
      requires Valid()
      reads this
    {
      if rIndex <= wIndex then wIndex - rIndex else wIndex + size + 1 - rIndex
    }

    ghost function Contents(): (s: seq<T>)
      requires Valid()
      reads this, slots
      ensures |s| == Filled()
    {
      if rIndex <= wIndex then slots[rIndex..wIndex] else slots[rIndex..] + slots[..wIndex]
    }

    /** Construction followed by `initialize`; the slots start with arbitrary values. */
    constructor (size: nat, fill: T)
      requires Allocatable(size)
      ensures Valid() && fresh(slots) && this.size == size && Contents() == []
    {
      this.size := size;
      rIndex := 0;
      wIndex := 0;
      slots := new T[size + 1](i => fill);
    }

    method Write(p: T) returns (ok: bool)
      requires Valid()
      modifies this`wIndex, slots
      ensures Valid()
      ensures ok <==> |old(Contents())| < size
      ensures Contents() == if ok then old(Contents()) + [p] else old(Contents())
    {
      hide WritableCount, ReadableCount;
      CountCases(size, wIndex, rIndex);
      var count := WritableCount(size, wIndex < rIndex, wIndex, rIndex);
      if count > 0 {
        slots[wIndex] := p;
        wIndex := Advance(size, wIndex);
        ok := true;
      } else {
        ok := false;
      }
    }

    method Peek(otherwise: T) returns (ok: bool, p: T)
      requires Valid()
      ensures ok <==> Contents() != []
      ensures p == if ok then Contents()[0] else otherwise
    {
      hide WritableCount, ReadableCount;
      CountCases(size, wIndex, rIndex);
      var count := ReadableCount(size, wIndex < rIndex, wIndex, rIndex);
      if count > 0 {
        ok, p := true, slots[rIndex];
      } else {
        ok, p := false, otherwise;
      }
    }

    method Read(otherwise: T) returns (ok: bool, p: T)
      requires Valid()
      modifies this`rIndex
      ensures Valid()
      ensures ok <==> old(Contents()) != []
      ensures ok ==> [p] + Contents() == old(Contents())
      ensures !ok ==> p == otherwise && Contents() == old(Contents())
    {
      hide WritableCount, ReadableCount;
      CountCases(size, wIndex, rIndex);
      var count := ReadableCount(size, wIndex < rIndex, wIndex, rIndex);
      if count > 0 {
        p := slots[rIndex];
        rIndex := Advance(size, rIndex);
        ok := true;
      } else {
        ok, p := false, otherwise;
      }
    }
  }

  // ----- Two threads

  /**
   * Where the producer is inside `write(p)`. `seen` records how many values had been read when
   * it compared the indices.
   */
  datatype Producer<T> =
    | Waiting
    | Compared(p: T, below: bool, seen: nat)
    | Counted(p: T, count: nat)
    | Stored(p: T)

  /** Where the consumer is inside `read` (`take`) or `peek`. */
  datatype Consumer<T> =
    | Resting
    | ComparedR(take: bool, below: bool, seen: nat)
    | CountedR(take: bool, count: nat)
    | Loaded(v: T)

  /** Shared memory, both program counters, and what was written, read and peeked so far. */
  datatype State<T> = State(
    size: nat, slots: seq<T>, r: nat, w: nat,
    producer: Producer<T>, consumer: Consumer<T>,
    written: seq<T>, taken: seq<T>, peeks: seq<(nat, T)>)

  datatype Step<T> =
    | BeginWrite(p: T) | CountWritable | Store | RefuseWrite | PublishWrite
    | BeginRead(take: bool) | CountReadable | Load | RefuseRead | PublishRead

  predicate Enabled<T>(s: State<T>, step: Step<T>) {
    match step
    case BeginWrite(_) => s.producer.Waiting?
    case CountWritable => s.producer.Compared?
    case Store => s.producer.Counted? && s.producer.count > 0
    case RefuseWrite => s.producer.Counted? && s.producer.count == 0
    case PublishWrite => s.producer.Stored?
    case BeginRead(_) => s.consumer.Resting?
    case CountReadable => s.consumer.ComparedR?
    case Load => s.consumer.CountedR? && s.consumer.count > 0
    case RefuseRead => s.consumer.CountedR? && s.consumer.count == 0
    case PublishRead => s.consumer.Loaded?
  }

  /** Each step reads the other thread's index at most once, or writes one shared variable. */
  function Do<T>(s: State<T>, step: Step<T>): State<T>
    requires Enabled(s, step) && s.w < |s.slots| && s.r < |s.slots|
  {
    match step
    case BeginWrite(p) => s.(producer := Compared(p, s.w < s.r, |s.taken|))
    case CountWritable =>
      s.(producer := Counted(s.producer.p, WritableCount(s.size, s.producer.below, s.w, s.r)))
    case Store => s.(slots := s.slots[s.w := s.producer.p], producer := Stored(s.producer.p))
    case RefuseWrite => s.(producer := Waiting)
    case PublishWrite =>
      s.(w := Advance(s.size, s.w), producer := Waiting, written := s.written + [s.producer.p])
    case BeginRead(take) => s.(consumer := ComparedR(take, s.w < s.r, |s.written|))
    case CountReadable =>
      s.(consumer := CountedR(s.consumer.take, ReadableCount(s.size, s.consumer.below, s.w, s.r)))
    case Load =>
      if s.consumer.take then s.(consumer := Loaded(s.slots[s.r]))
      else s.(consumer := Resting, peeks := s.peeks + [(|s.taken|, s.slots[s.r])])
    case RefuseRead => s.(consumer := Resting)
    case PublishRead =>
      s.(r := Advance(s.size, s.r), consumer := Resting, taken := s.taken + [s.consumer.v])
  }

  predicate Initial<T>(s: State<T>) {
    && Allocatable(s.size) && |s.slots| == s.size + 1 && s.r == 0 && s.w == 0
    && s.producer.Waiting? && s.consumer.Resting? && s.written == [] && s.taken == [] && s.peeks == []
  }

  /** The indices are counts modulo the slots, and the filled slots hold what is still unread. */
  ghost predicate Shared<T>(s: State<T>) {
    && Allocatable(s.size) && |s.slots| == s.size + 1
    && s.w == |s.written| % (s.size + 1) && s.r == |s.taken| % (s.size + 1)
    && |s.taken| <= |s.written| <= |s.taken| + s.size
    && (forall k | |s.taken| <= k < |s.written| :: s.slots[k % (s.size + 1)] == s.written[k])
  }

  ghost predicate ProducerOk<T>(s: State<T>)
    requires Shared(s)
  {
    match s.producer
    case Waiting => true
    case Compared(_, below, seen) =>
      seen <= |s.taken| && |s.written| <= seen + s.size && below == (s.w < seen % (s.size + 1))
    case Counted(_, count) => count > 0 ==> |s.written| < |s.taken| + s.size
    case Stored(p) => |s.written| < |s.taken| + s.size && s.slots[s.w] == p
  }

  ghost predicate ConsumerOk<T>(s: State<T>)
    requires Shared(s)
  {
    match s.consumer
    case Resting => true
    case ComparedR(_, below, seen) =>
      |s.taken| <= seen <= |s.written| && below == (seen % (s.size + 1) < s.r)
    case CountedR(_, count) => count > 0 ==> |s.taken| < |s.written|
    case Loaded(v) => |s.taken| < |s.written| && v == s.written[|s.taken|]
  }

  /** Values come out in the order they went in, and a peek shows the value its index names. */
  ghost predicate InOrder<T>(s: State<T>) {
    && s.taken <= s.written
    && forall k | k in s.peeks :: k.0 < |s.written| && s.written[k.0] == k.1
  }

  ghost predicate Inv<T>(s: State<T>) {
    Shared(s) && ProducerOk(s) && ConsumerOk(s) && InOrder(s)
  }

  lemma InitialInv<T>(s: State<T>)
    requires Initial(s)
    ensures Inv(s)
  {
    QuotientIs(0, s.size + 1, 0, 0);
  }

  /** A free slot is none of the filled ones. */
  lemma FreeSlot<T>(s: State<T>, k: int)
    requires Shared(s) && |s.taken| <= k < |s.written| < |s.taken| + s.size
    ensures k % (s.size + 1) != s.w
  {
    IndexGap(k, |s.written|, s.size + 1);
  }

  lemma ProducerKeepsInv<T>(s: State<T>, step: Step<T>)
    requires Inv(s) && Enabled(s, step)
    requires step.BeginWrite? || step.CountWritable? || step.Store? || step.RefuseWrite? || step.PublishWrite?
    ensures Inv(Do(s, step))
  {
    var t := Do(s, step);
    match step
    case BeginWrite(_) =>
    case CountWritable =>
      WritableIffFree(s.size, |s.written|, s.producer.seen, |s.taken|);
    case Store =>
      forall k | |s.taken| <= k < |s.written| ensures t.slots[k % (s.size + 1)] == s.written[k] {
        FreeSlot(s, k);
      }
      if s.consumer.Loaded? {
        FreeSlot(s, |s.taken|);
      }
    case RefuseWrite =>
    case PublishWrite =>
      AdvanceCounts(s.size, |s.written|);
  }

  lemma ConsumerKeepsInv<T>(s: State<T>, step: Step<T>)
    requires Inv(s) && Enabled(s, step)
    requires step.BeginRead? || step.CountReadable? || step.Load? || step.RefuseRead? || step.PublishRead?
    ensures Inv(Do(s, step))
  {
    var t := Do(s, step);
    match step
    case BeginRead(_) =>
    case CountReadable =>
      ReadableIffFilled(s.size, |s.taken|, s.consumer.seen, |s.written|);
    case Load =>
    case RefuseRead =>
    case PublishRead =>
      AdvanceCounts(s.size, |s.taken|);
  }

  lemma StepKeepsInv<T>(s: State<T>, step: Step<T>)
    requires Inv(s) && Enabled(s, step)
    ensures Inv(Do(s, step))
  {
    match step
    case BeginWrite(_) => ProducerKeepsInv(s, step);
    case CountWritable => ProducerKeepsInv(s, step);
    case Store => ProducerKeepsInv(s, step);
    case RefuseWrite => ProducerKeepsInv(s, step);
    case PublishWrite => ProducerKeepsInv(s, step);
    case BeginRead(_) => ConsumerKeepsInv(s, step);
    case CountReadable => ConsumerKeepsInv(s, step);
    case Load => ConsumerKeepsInv(s, step);
    case RefuseRead => ConsumerKeepsInv(s, step);
    case PublishRead => ConsumerKeepsInv(s, step);
  }

  /** `last` can be reached from `first` by the given steps. */
  ghost predicate Run<T>(first: State<T>, steps: seq<Step<T>>, last: State<T>)
    decreases |steps|
  {
    if steps == [] then first == last
    else
      && Enabled(first, steps[0]) && first.w < |first.slots| && first.r < |first.slots|
      && Run(Do(first, steps[0]), steps[1..], last)
  }

  lemma {:induction false} RunKeepsInv<T>(first: State<T>, steps: seq<Step<T>>, last: State<T>)
    requires Inv(first) && Run(first, steps, last)
    ensures Inv(last)
    decreases |steps|
  {
    if steps != [] {
      StepKeepsInv(first, steps[0]);
      RunKeepsInv(Do(first, steps[0]), steps[1..], last);
    }
  }

  // ----- What the calls alone say

  /** The arguments of the writes that succeed, in order; `pending` is that of a write under way. */
  function PublishedFrom<T>(steps: seq<Step<T>>, pending: Option<T>): seq<T> {
    if steps == [] then []
    else
      var rest := steps[1..];
      match steps[0]
      case BeginWrite(p) => PublishedFrom(rest, Some(p))
      case RefuseWrite => PublishedFrom(rest, None)
      case PublishWrite =>
        (if pending.Some? then [pending.value] else []) + PublishedFrom(rest, None)
      case _ => PublishedFrom(rest, pending)
  }

  function Published<T>(steps: seq<Step<T>>): seq<T> {
    PublishedFrom(steps, None)
  }

  /** How many reads succeed. */
  function Reads<T>(steps: seq<Step<T>>): nat {
    if steps == [] then 0 else (if steps[0].PublishRead? then 1 else 0) + Reads(steps[1..])
  }

  /** For each peek that succeeds, how many reads have succeeded before it. */
  function PeekedFrom<T>(steps: seq<Step<T>>, done: nat, peeking: bool): seq<nat> {
    if steps == [] then []
    else
      var rest := steps[1..];
      match steps[0]
      case BeginRead(take) => PeekedFrom(rest, done, !take)
      case Load => (if peeking then [done] else []) + PeekedFrom(rest, done, peeking)
      case PublishRead => PeekedFrom(rest, done + 1, peeking)
      case _ => PeekedFrom(rest, done, peeking)
  }

  function Peeked<T>(steps: seq<Step<T>>): seq<nat> {
    PeekedFrom(steps, 0, false)
  }

  function Argument<T>(producer: Producer<T>): Option<T> {
    match producer
    case Waiting => None
    case Compared(p, _, _) => Some(p)
    case Counted(p, _) => Some(p)
    case Stored(p) => Some(p)
  }

  lemma {:induction false} WrittenIsPublished<T>(first: State<T>, steps: seq<Step<T>>, last: State<T>)
    requires Run(first, steps, last)
    ensures last.written == first.written + PublishedFrom(steps, Argument(first.producer))
    decreases |steps|
  {
    if steps != [] {
      WrittenIsPublished(Do(first, steps[0]), steps[1..], last);
    }
  }

  lemma {:induction false} TakenAreReads<T>(first: State<T>, steps: seq<Step<T>>, last: State<T>)
    requires Run(first, steps, last)
    ensures |last.taken| == |first.taken| + Reads(steps)
    decreases |steps|
  {
    if steps != [] {
      TakenAreReads(Do(first, steps[0]), steps[1..], last);
    }
  }

  function Positions<T>(peeks: seq<(nat, T)>): seq<nat> {
    seq(|peeks|, i requires 0 <= i < |peeks| => peeks[i].0)
  }

  lemma {:induction false} PeeksAreLoads<T>(first: State<T>, steps: seq<Step<T>>, last: State<T>, peeking: bool)
    requires Run(first, steps, last)
    requires first.consumer.ComparedR? || first.consumer.CountedR? ==> first.consumer.take == !peeking
    requires first.consumer.Loaded? ==> !peeking
    ensures Positions(last.peeks) == Positions(first.peeks) + PeekedFrom(steps, |first.taken|, peeking)
    decreases |steps|
  {
    if steps != [] {
      var step, next := steps[0], Do(first, steps[0]);
      PeeksAreLoads(next, steps[1..], last, if step.BeginRead? then !step.take else peeking);
      if step.Load? && peeking {
        assert Positions(next.peeks) == Positions(first.peeks) + [|first.taken|];
      }
    }
  }

  /**
   * In every interleaving, the values read are the first of the arguments of the successful writes, one for
   * each successful read, and a peek shows the argument that the next read would return.
   */
  lemma ReadsArePrefixOfWrites<T>(first: State<T>, steps: seq<Step<T>>, last: State<T>)
    requires Initial(first) && Run(first, steps, last)
    ensures Reads(steps) <= |Published(steps)| <= Reads(steps) + first.size
    ensures last.written == Published(steps) && last.taken == Published(steps)[..Reads(steps)]
    ensures |last.peeks| == |Peeked(steps)|
    ensures forall i | 0 <= i < |last.peeks| ::
              var at := Peeked(steps)[i]; at < |Published(steps)| && last.peeks[i] == (at, Published(steps)[at])
    ensures last.w < |last.slots| && last.r < |last.slots|
  {
    InitialInv(first);
    RunKeepsInv(first, steps, last);
    SameSize(first, steps, last);
    WrittenIsPublished(first, steps, last);
    TakenAreReads(first, steps, last);
    PeeksAreLoads(first, steps, last, false);
    hide PublishedFrom, PeekedFrom, Reads;
    forall i | 0 <= i < |last.peeks|
      ensures Peeked(steps)[i] == last.peeks[i].0 < |last.written| && last.written[last.peeks[i].0] == last.peeks[i].1
    {
      assert last.peeks[i] in last.peeks;
      assert Positions(last.peeks)[i] == last.peeks[i].0;
    }
  }

  lemma {:induction false} SameSize<T>(first: State<T>, steps: seq<Step<T>>, last: State<T>)
    requires Run(first, steps, last)
    ensures last.size == first.size
    decreases |steps|
  {
    if steps != [] {
      SameSize(Do(first, steps[0]), steps[1..], last);
    }
  }

  lemma UndisturbedCounts<T>(s: State<T>)
    requires Inv(s)
    ensures WritableCount(s.size, s.w < s.r, s.w, s.r) > 0 <==> |s.written| - |s.taken| < s.size
    ensures ReadableCount(s.size, s.w < s.r, s.w, s.r) > 0 <==> |s.taken| < |s.written|
  {
    hide WritableCount, ReadableCount;
    WritableIffFree(s.size, |s.written|, |s.taken|, |s.taken|);
    ReadableIffFilled(s.size, |s.taken|, |s.written|, |s.written|);
  }

  /** A write that runs undisturbed goes through exactly if a slot is free, and is refused otherwise. */
  lemma WriteAlone<T>(first: State<T>, steps: seq<Step<T>>, last: State<T>, p: T)
    requires Initial(first) && Run(first, steps, last) && last.producer.Waiting?
    ensures last.w < |last.slots| && last.r < |last.slots|
    ensures var counted := Do(Do(last, BeginWrite(p)), CountWritable);
            var free := |Published(steps)| - Reads(steps) < first.size;
            && (Enabled(counted, Store) <==> free) && (Enabled(counted, RefuseWrite) <==> !free)
  {
    hide Inv, Initial, Run, PublishedFrom, Reads, WritableCount;
    ReadsArePrefixOfWrites(first, steps, last);
    InitialInv(first);
    RunKeepsInv(first, steps, last);
    SameSize(first, steps, last);
    UndisturbedCounts(last);
  }

  /** And a read exactly if a value is there. */
  lemma ReadAlone<T>(first: State<T>, steps: seq<Step<T>>, last: State<T>, take: bool)
    requires Initial(first) && Run(first, steps, last) && last.consumer.Resting?
    ensures last.w < |last.slots| && last.r < |last.slots|
    ensures var counted := Do(Do(last, BeginRead(take)), CountReadable);
            var filled := Reads(steps) < |Published(steps)|;
            && (Enabled(counted, Load) <==> filled) && (Enabled(counted, RefuseRead) <==> !filled)
  {
    hide Inv, Initial, Run, PublishedFrom, Reads, ReadableCount;
    ReadsArePrefixOfWrites(first, steps, last);
    InitialInv(first);
    RunKeepsInv(first, steps, last);
    UndisturbedCounts(last);
  }

  /** In every interleaving, both tests answer exactly for the moment of their last read. */
  lemma TestsAreExact<T>(first: State<T>, steps: seq<Step<T>>, last: State<T>)
    requires Initial(first) && Run(first, steps, last)
    ensures last.w < |last.slots| && last.r < |last.slots|
    ensures last.producer.Compared? ==>
              (Do(last, CountWritable).producer.count > 0 <==> |last.written| - |last.taken| < last.size)
    ensures last.consumer.ComparedR? ==>
              (Do(last, CountReadable).consumer.count > 0 <==> |last.taken| < |last.written|)
    ensures last.producer.Counted? && last.producer.count > 0 ==> |last.written| - |last.taken| < last.size
    ensures last.consumer.CountedR? && last.consumer.count > 0 ==> |last.taken| < |last.written|
  {
    InitialInv(first);
    RunKeepsInv(first, steps, last);
    if last.producer.Compared? {
      WritableIffFree(last.size, |last.written|, last.producer.seen, |last.taken|);
    }
    if last.consumer.ComparedR? {
      ReadableIffFilled(last.size, |last.taken|, last.consumer.seen, |last.written|);
    }
  }
}
