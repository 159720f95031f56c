/** The double buffering of muduo/base/AsyncLogging.cc. */
module AsyncLogging {
  import opened Sequences
  import opened LogStream

  /** `kLargeBuffer`. */
  const LARGE: nat := 4000 * 1000

  /** Batches of more buffers than this are cut to their first two. */
  const MAX_BATCH: nat := 25

  // ----- Front end and back end

  datatype Record = Notice(buffers: nat) | Chunk(bytes: string)

  /** How far the back end has got in its loop. */
  datatype Backend = AtTop | Swapped | Written

  /**
   * The buffers, the back end's locals, the log file, and what was appended and handed over so far.
   * A moved-from `unique_ptr` is `None`.
   */
  datatype State = State(
    current: Option<Buffer>, next: Option<Buffer>, buffers: seq<Buffer>,
    new1: Option<Buffer>, new2: Option<Buffer>, toWrite: seq<Buffer>, at: Backend,
    file: seq<Record>, appended: seq<string>, batches: seq<seq<Buffer>>)

  /** The critical sections and the back end's work outside them. */
  datatype Step = Append(message: string) | Swap | Write | Recycle

  const INITIAL: State :=
    State(Some([]), Some([]), [], Some([]), Some([]), [], AtTop, [], [], [])

  predicate Enabled(s: State, step: Step) {
    match step
    case Append(_) => true
    case Swap => s.at.AtTop?
    case Write => s.at.Swapped?
    case Recycle => s.at.Written?
  }

  /** The source's assertions on the way, and that no null buffer is used. */
  predicate Asserts(s: State, step: Step) {
    match step
    case Append(_) => s.current.Some?
    case Swap => s.new1 == Some([]) && s.new2 == Some([]) && s.toWrite == [] && s.current.Some?
    case Write => s.toWrite != []
    case Recycle =>
      var kept := Keep(s.toWrite);
      var left := if s.new1.None? && kept != [] then kept[..|kept| - 1] else kept;
      (s.new1.None? ==> kept != []) && (s.new2.None? ==> left != [])
  }

  /** `resize(2)` when there are more. */
  function Keep(bs: seq<Buffer>): seq<Buffer> {
    if |bs| > 2 then bs[..2] else bs
  }

  function DoAppend(s: State, message: string): State
    requires s.current.Some?
  {
    var t := s.(appended := s.appended + [message]);
    if LARGE - |Bytes(s.current.value)| > |message| then
      t.(current := Some(AppendTo(LARGE, s.current.value, message)))
    else
      var spare := if s.next.Some? then s.next.value else [];
      t.(buffers := s.buffers + [s.current.value], next := None,
         current := Some(AppendTo(LARGE, spare, message)))
  }

  function DoSwap(s: State): State
    requires s.current.Some?
  {
    var all := s.buffers + [s.current.value];
    var t := s.(buffers := [], current := s.new1, new1 := None, toWrite := all, at := Swapped,
                batches := s.batches + [all]);
    if s.next.None? then t.(next := s.new2, new2 := None) else t
  }

  function Chunks(bs: seq<Buffer>): seq<Record> {
    seq(|bs|, i requires 0 <= i < |bs| => Chunk(Bytes(bs[i])))
  }

  /** What a batch leaves in the file. */
  function Render(batch: seq<Buffer>): seq<Record> {
    if |batch| > MAX_BATCH then [Notice(|batch| - 2)] + Chunks(batch[..2]) else Chunks(batch)
  }

  function DoWrite(s: State): State {
    s.(file := s.file + Render(s.toWrite), at := Written,
       toWrite := if |s.toWrite| > MAX_BATCH then s.toWrite[..2] else s.toWrite)
  }

  /** A null spare is refilled with the last kept buffer, emptied. */
  function DoRecycle(s: State): State {
    s.(new1 := if s.new1.None? then Some([]) else s.new1,
       new2 := if s.new2.None? then Some([]) else s.new2,
       toWrite := [], at := AtTop)
  }

  function Do(s: State, step: Step): State
    requires Asserts(s, step)
  {
    match step
    case Append(message) => DoAppend(s, message)
    case Swap => DoSwap(s)
    case Write => DoWrite(s)
    case Recycle => DoRecycle(s)
  }

  /** The logger as an object; each method is one critical section or one stretch of back-end work. */
  class Logger {
    var currentBuffer: Option<Buffer>
    var nextBuffer: Option<Buffer>
    var buffers: seq<Buffer>
    var newBuffer1: Option<Buffer>
    var newBuffer2: Option<Buffer>
    var buffersToWrite: seq<Buffer>
    var output: seq<Record>
    ghost var at: Backend
    ghost var appended: seq<string>
    ghost var batches: seq<seq<Buffer>>

    ghost function View(): State
      reads this
    {
      State(currentBuffer, nextBuffer, buffers, newBuffer1, newBuffer2, buffersToWrite, at,
            output, appended, batches)
    }

    ghost predicate Valid()
      reads this
    {
      Inv(View())
    }

    constructor ()
      ensures Valid() && View() == INITIAL
    {
      InitialInv();
      currentBuffer, nextBuffer, buffers := Some([]), Some([]), [];
      newBuffer1, newBuffer2, buffersToWrite := Some([]), Some([]), [];
      output, at, appended, batches := [], AtTop, [], [];
    }

    /** Adds the message to what the front end holds, unless it is as long as a buffer. */
    method Append(logline: string)
      requires Valid()
      modifies this
      ensures Valid() && View() == DoAppend(old(View()), logline)
      ensures Held(View()) == old(Held(View())) + (if |logline| < 4_000_000 then [logline] else [])
    {
      hide Inv, Bytes, AppendTo, Held;
      AppendOutcome(View(), logline);
      if LARGE - |Bytes(currentBuffer.value)| > |logline| {
        currentBuffer := Some(AppendTo(LARGE, currentBuffer.value, logline));
      } else {
        buffers := buffers + [currentBuffer.value];
        currentBuffer := None;
        if nextBuffer.Some? {
          currentBuffer := nextBuffer;
          nextBuffer := None;
        } else {
          currentBuffer := Some([]);
        }
        currentBuffer := Some(AppendTo(LARGE, currentBuffer.value, logline));
      }
      appended := appended + [logline];
    }

    /** Hands over everything the front end holds. */
    method SwapBuffers()
      requires Valid() && Enabled(View(), Swap)
      modifies this
      ensures Valid() && View() == DoSwap(old(View()))
      ensures Held(View()) == [] && HandedOver(View()) == old(HandedOver(View())) + old(Held(View()))
    {
      hide Inv, Held, HandedOver;
      StepKeepsInv(View(), Swap);
      SwapHandsOver(View());
      buffers := buffers + [currentBuffer.value];
      currentBuffer := newBuffer1;
      newBuffer1 := None;
      buffersToWrite, buffers := buffers, buffersToWrite;
      if nextBuffer.None? {
        nextBuffer := newBuffer2;
        newBuffer2 := None;
      }
      at, batches := Swapped, batches + [buffersToWrite];
    }

    /** The file now holds every batch handed over. */
    method WriteBuffers()
      requires Valid() && Enabled(View(), Write)
      modifies this
      ensures Valid() && View() == DoWrite(old(View()))
      ensures output == RenderAll(batches)
    {
      hide Inv, RenderAll, Bytes;
      StepKeepsInv(View(), Write);
      AllWritten(DoWrite(View()));
      if |buffersToWrite| > MAX_BATCH {
        output := output + [Notice(|buffersToWrite| - 2)];
        buffersToWrite := buffersToWrite[..2];
      }
      ghost var before := output;
      for i := 0 to |buffersToWrite|
        invariant View() == old(View()).(toWrite := buffersToWrite, file := output)
        invariant buffersToWrite ==
                  if |old(buffersToWrite)| > MAX_BATCH then old(buffersToWrite)[..2] else old(buffersToWrite)
        invariant output == before + Chunks(buffersToWrite[..i])
      {
        output := output + [Chunk(Bytes(buffersToWrite[i]))];
        assert Chunks(buffersToWrite[..i + 1]) == Chunks(buffersToWrite[..i]) + [Chunk(Bytes(buffersToWrite[i]))];
      }
      assert buffersToWrite[..|buffersToWrite|] == buffersToWrite;
      at := Written;
      assert View() == DoWrite(old(View()));
    }

    /** Gives the back end two empty spares again. */
    method RefillSpares()
      requires Valid() && Enabled(View(), Recycle)
      modifies this
      ensures Valid() && View() == DoRecycle(old(View()))
      ensures newBuffer1 == Some([]) && newBuffer2 == Some([]) && Enabled(View(), Swap)
    {
      hide Inv;
      StepKeepsInv(View(), Recycle);
      SparesRefilled(DoRecycle(View()));
      if |buffersToWrite| > 2 {
        buffersToWrite := buffersToWrite[..2];
      }
      if newBuffer1.None? {
        assert buffersToWrite != [];
        buffersToWrite := buffersToWrite[..|buffersToWrite| - 1];
        newBuffer1 := Some([]);
      }
      if newBuffer2.None? {
        assert buffersToWrite != [];
        buffersToWrite := buffersToWrite[..|buffersToWrite| - 1];
        newBuffer2 := Some([]);
      }
      buffersToWrite := [];
      at := AtTop;
    }
  }

  // ----- What every run keeps

  /** The messages that fit a buffer; longer ones are dropped. */
  function Accepted(messages: seq<string>): seq<string> {
    if messages == [] then []
    else
      var last := messages[|messages| - 1];
      Accepted(messages[..|messages| - 1]) + (if |last| < LARGE then [last] else [])
  }

  /** The messages handed over to the back end, in order. */
  function HandedOver(s: State): seq<string> {
    Concat(Concat(s.batches))
  }

  /** The messages still with the front end, in order. */
  function Held(s: State): seq<string>
    requires s.current.Some?
  {
    Concat(s.buffers) + s.current.value
  }

  /** The batches already in the file. */
  function WrittenBatches(s: State): seq<seq<Buffer>> {
    if s.at.Swapped? && s.batches != [] then s.batches[..|s.batches| - 1] else s.batches
  }

  function RenderAll(batches: seq<seq<Buffer>>): seq<Record> {
    if batches == [] then []
    else RenderAll(batches[..|batches| - 1]) + Render(batches[|batches| - 1])
  }

  predicate FrontOk(s: State) {
    && s.current.Some? && |Bytes(s.current.value)| < LARGE
    && (s.next.None? ==> s.buffers != []) && (s.next.Some? ==> s.next.value == [])
    && forall b | b in s.buffers :: |Bytes(b)| < LARGE
  }

  /** A missing second spare means that the batch has two buffers to refill both from. */
  predicate BackOk(s: State) {
    match s.at
    case AtTop => s.new1 == Some([]) && s.new2 == Some([]) && s.toWrite == []
    case Swapped =>
      && s.new1.None? && s.new2 in {None, Some([])}
      && |s.toWrite| >= (if s.new2.None? then 2 else 1)
      && s.batches != [] && s.toWrite == s.batches[|s.batches| - 1]
    case Written =>
      && s.new1.None? && s.new2 in {None, Some([])}
      && |s.toWrite| >= (if s.new2.None? then 2 else 1)
  }

  predicate Conserved(s: State)
    requires s.current.Some?
  {
    Accepted(s.appended) == HandedOver(s) + Held(s)
  }

  predicate Inv(s: State) {
    FrontOk(s) && BackOk(s) && Conserved(s) && s.file == RenderAll(WrittenBatches(s))
  }

  lemma InitialInv()
    ensures Inv(INITIAL)
  {
  }

  /** In every state the invariant allows, no assertion of the source fails. */
  lemma AssertsHold(s: State, step: Step)
    requires Inv(s) && Enabled(s, step)
    ensures Asserts(s, step)
  {
  }

  lemma AppendConserves(s: State, message: string)
    requires FrontOk(s) && Conserved(s)
    ensures Conserved(DoAppend(s, message))
  {
    var t := DoAppend(s, message);
    var b := s.current.value;
    assert t.appended[..|t.appended| - 1] == s.appended;
    if LARGE - |Bytes(b)| > |message| {
      assert Held(t) == Held(s) + [message];
    } else {
      ConcatSnoc(s.buffers, b);
      assert Held(t) == Held(s) + (if |message| < LARGE then [message] else []);
    }
  }

  lemma AppendKeepsFrontOk(s: State, message: string)
    requires FrontOk(s)
    ensures FrontOk(DoAppend(s, message))
  {
    ConcatSnoc(s.current.value, message);
    ConcatOne(message);
    assert [] + [message] == [message];
  }

  lemma AppendKeepsInv(s: State, message: string)
    requires Inv(s)
    ensures Inv(DoAppend(s, message))
  {
    hide FrontOk, Conserved, RenderAll, Bytes, AppendTo;
    assert s.current.Some? by {
      CurrentIsThere(s);
    }
    AppendKeepsFrontOk(s, message);
    AppendConserves(s, message);
  }

  lemma CurrentIsThere(s: State)
    requires FrontOk(s)
    ensures s.current.Some?
  {
  }

  lemma SwapKeepsInv(s: State)
    requires Inv(s) && s.at.AtTop?
    ensures Inv(DoSwap(s))
  {
    var t := DoSwap(s);
    var all := s.buffers + [s.current.value];
    ConcatSnoc(s.batches, all);
    ConcatAppend(Concat(s.batches), all);
    ConcatSnoc(s.buffers, s.current.value);
    assert WrittenBatches(t) == s.batches;
  }

  lemma WriteKeepsInv(s: State)
    requires Inv(s) && s.at.Swapped?
    ensures Inv(DoWrite(s))
  {
    assert WrittenBatches(DoWrite(s)) == s.batches;
  }

  lemma StepKeepsInv(s: State, step: Step)
    requires Inv(s) && Enabled(s, step)
    ensures Asserts(s, step) && Inv(Do(s, step))
  {
    AssertsHold(s, step);
    match step
    case Append(message) => AppendKeepsInv(s, message);
    case Swap => SwapKeepsInv(s);
    case Write => WriteKeepsInv(s);
    case Recycle =>
  }

  ghost predicate Run(first: State, steps: seq<Step>, last: State)
    decreases |steps|
  {
    if steps == [] then first == last
    else Enabled(first, steps[0]) && Asserts(first, steps[0]) && Run(Do(first, steps[0]), steps[1..], last)
  }

  lemma {:induction false} RunKeepsInv(first: State, steps: seq<Step>, last: State)
    requires Inv(first) && Run(first, steps, last)
    ensures Inv(last)
    decreases |steps|
  {
    if steps != [] {
      StepKeepsInv(first, steps[0]);
      RunKeepsInv(Do(first, steps[0]), steps[1..], last);
    }
  }

  lemma AppendOutcome(s: State, message: string)
    requires Inv(s)
    ensures s.current.Some?
    ensures var t := DoAppend(s, message);
            Inv(t) && t.current.Some? && Held(t) == Held(s) + (if |message| < LARGE then [message] else [])
  {
    hide DoAppend, Held;
    StepKeepsInv(s, Append(message));
    KeptIff(s, message);
  }

  lemma SwapHandsOver(s: State)
    requires Inv(s) && s.at.AtTop?
    ensures var t := DoSwap(s);
            t.current.Some? && Held(t) == [] && HandedOver(t) == HandedOver(s) + Held(s)
  {
    var all := s.buffers + [s.current.value];
    ConcatSnoc(s.batches, all);
    ConcatAppend(Concat(s.batches), all);
    ConcatSnoc(s.buffers, s.current.value);
  }

  lemma AllWritten(s: State)
    requires Inv(s) && s.at.Written?
    ensures s.file == RenderAll(s.batches)
  {
  }

  lemma SparesRefilled(s: State)
    requires Inv(s) && s.at.AtTop?
    ensures s.new1 == Some([]) && s.new2 == Some([])
  {
  }

  // ----- Main results

  /** No assertion fails and no null buffer is used, whatever the interleaving. */
  lemma NoAssertFails(steps: seq<Step>, last: State, step: Step)
    requires Run(INITIAL, steps, last) && Enabled(last, step)
    ensures Asserts(last, step)
  {
    InitialInv();
    RunKeepsInv(INITIAL, steps, last);
    AssertsHold(last, step);
  }

  /**
   * The accepted messages are the handed-over batches followed by what the front end holds: nothing
   * is lost, split, duplicated or reordered. Each batch is in the file whole, or, above the limit,
   * as a notice and its first two buffers.
   */
  lemma NothingLost(steps: seq<Step>, last: State)
    requires Run(INITIAL, steps, last)
    ensures last.current.Some? && Accepted(Messages(steps)) == HandedOver(last) + Held(last)
    ensures last.file == RenderAll(WrittenBatches(last))
    ensures |last.batches| - |WrittenBatches(last)| == if last.at.Swapped? then 1 else 0
    ensures forall b | b in last.buffers + [last.current.value] :: |Bytes(b)| < LARGE
  {
    InitialInv();
    RunKeepsInv(INITIAL, steps, last);
    AppendedAreMessages(INITIAL, steps, last);
    assert last.appended == Messages(steps);
  }

  /** The arguments of the appends, in order. */
  function Messages(steps: seq<Step>): seq<string> {
    if steps == [] then []
    else (if steps[0].Append? then [steps[0].message] else []) + Messages(steps[1..])
  }

  lemma {:induction false} AppendedAreMessages(first: State, steps: seq<Step>, last: State)
    requires Run(first, steps, last)
    ensures last.appended == first.appended + Messages(steps)
    decreases |steps|
  {
    hide Asserts, DoAppend;
    if steps != [] {
      StepAppends(first, steps[0]);
      AppendedAreMessages(Do(first, steps[0]), steps[1..], last);
    }
  }

  lemma StepAppends(s: State, step: Step)
    requires Asserts(s, step)
    ensures Do(s, step).appended == s.appended + (if step.Append? then [step.message] else [])
  {
  }

  /** The buffers a notice reports as dropped. */
  function Reported(records: seq<Record>): nat {
    if records == [] then 0
    else
      var last := records[|records| - 1];
      Reported(records[..|records| - 1]) + (if last.Notice? then last.buffers else 0)
  }

  lemma {:induction false} ChunksReportNothing(bs: seq<Buffer>)
    ensures Reported(Chunks(bs)) == 0
    decreases |bs|
  {
    if bs != [] {
      assert Chunks(bs)[..|bs| - 1] == Chunks(bs[..|bs| - 1]);
      ChunksReportNothing(bs[..|bs| - 1]);
    }
  }

  lemma {:induction false} ReportedAppend(a: seq<Record>, b: seq<Record>)
    ensures Reported(a + b) == Reported(a) + Reported(b)
    decreases |b|
  {
    if b == [] {
      assert a + b == a;
    } else {
      assert (a + b)[..|a + b| - 1] == a + b[..|b| - 1];
      ReportedAppend(a, b[..|b| - 1]);
    }
  }

  /** A message is kept exactly if it is shorter than a buffer; nothing held before is ever touched. */
  lemma KeptIff(s: State, message: string)
    requires Inv(s)
    ensures var t := DoAppend(s, message);
            Held(t) == Held(s) + (if |message| < 4_000_000 then [message] else [])
  {
    var t, b := DoAppend(s, message), s.current.value;
    if LARGE - |Bytes(b)| <= |message| {
      ConcatSnoc(s.buffers, b);
      assert Bytes([]) == "";
    }
  }

  /** A message as long as a buffer is lost, and its append still gives the current buffer away. */
  lemma LongMessageLost(message: string)
    requires |message| >= 4_000_000
    ensures var t := DoAppend(INITIAL, message); Held(t) == [] && t.appended == [message] && t.buffers == [[]]
  {
    InitialInv();
    KeptIff(INITIAL, message);
  }

  /**
   * Up to 25 buffers are written one after the other; of more, the notice comes first and then the first two.
   */
  lemma NoticeComesFirst(batch: seq<Buffer>)
    ensures |batch| > 25 ==>
              Render(batch) == [Notice(|batch| - 2), Chunk(Bytes(batch[0])), Chunk(Bytes(batch[1]))]
    ensures |batch| <= 25 ==>
              |Render(batch)| == |batch| && forall i | 0 <= i < |batch| :: Render(batch)[i] == Chunk(Bytes(batch[i]))
  {
    hide Bytes;
  }

  /** Every buffer of a batch is written or reported: what is written is a prefix, the rest is counted. */
  lemma BatchAccounted(batch: seq<Buffer>)
    ensures var kept := |batch| - Reported(Render(batch));
            && kept == (if |batch| > MAX_BATCH then 2 else |batch|)
            && FileBytes(Render(batch)) == Concat(Concat(batch[..kept]))
  {
    if |batch| > MAX_BATCH {
      var notice := [Notice(|batch| - 2)];
      ChunksReportNothing(batch[..2]);
      ReportedAppend(notice, Chunks(batch[..2]));
      FileBytesAppend(notice, Chunks(batch[..2]));
      ChunkBytes(batch[..2]);
      assert notice[..0] == [];
    } else {
      ChunksReportNothing(batch);
      ChunkBytes(batch);
      assert batch[..|batch|] == batch;
    }
  }

  /** The bytes of a file without notices. */
  function FileBytes(file: seq<Record>): string {
    if file == [] then ""
    else
      var last := file[|file| - 1];
      FileBytes(file[..|file| - 1]) + (if last.Chunk? then last.bytes else "")
  }

  lemma {:induction false} FileBytesAppend(a: seq<Record>, b: seq<Record>)
    ensures FileBytes(a + b) == FileBytes(a) + FileBytes(b)
    decreases |b|
  {
    if b == [] {
      assert a + b == a;
    } else {
      var last := b[|b| - 1];
      assert (a + b)[..|a + b| - 1] == a + b[..|b| - 1];
      FileBytesAppend(a, b[..|b| - 1]);
    }
  }

  lemma {:induction false} ChunkBytes(bs: seq<Buffer>)
    ensures FileBytes(Chunks(bs)) == Concat(Concat(bs))
    decreases |bs|
  {
    if bs != [] {
      var n := |bs| - 1;
      assert bs == bs[..n] + [bs[n]];
      assert Chunks(bs)[..n] == Chunks(bs[..n]);
      ChunkBytes(bs[..n]);
      ConcatSnoc(bs[..n], bs[n]);
      ConcatAppend(Concat(bs[..n]), bs[n]);
    }
  }

  lemma {:induction false} RenderedBytes(batches: seq<seq<Buffer>>)
    requires forall batch | batch in batches :: |batch| <= MAX_BATCH
    ensures FileBytes(RenderAll(batches)) == Concat(Concat(Concat(batches)))
    decreases |batches|
  {
    if batches != [] {
      var n := |batches| - 1;
      assert batches == batches[..n] + [batches[n]];
      RenderedBytes(batches[..n]);
      FileBytesAppend(RenderAll(batches[..n]), Render(batches[n]));
      ChunkBytes(batches[n]);
      ConcatSnoc(batches[..n], batches[n]);
      ConcatAppend(Concat(batches[..n]), batches[n]);
      ConcatAppend(Concat(Concat(batches[..n])), Concat(batches[n]));
    }
  }

  /** While no batch exceeds the limit, the file is a byte-for-byte prefix of the accepted log. */
  lemma FileIsPrefix(steps: seq<Step>, last: State)
    requires Run(INITIAL, steps, last)
    requires forall batch | batch in last.batches :: |batch| <= MAX_BATCH
    ensures FileBytes(last.file) <= Concat(Accepted(Messages(steps)))
  {
    NothingLost(steps, last);
    var done := WrittenBatches(last);
    var rest := last.batches[|done|..];
    assert last.batches == done + rest;
    RenderedBytes(done);
    ConcatAppend(done, rest);
    ConcatAppend(Concat(done), Concat(rest));
    ConcatAppend(HandedOver(last), Held(last));
    ConcatAppend(Concat(Concat(done)), Concat(Concat(rest)));
  }
}
