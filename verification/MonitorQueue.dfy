/**
 * The monitor shared by muduo/base/BoundedBlockingQueue.h and the queue of
 * muduo/base/ThreadPool.cc: a mutex, a queue and the conditions notEmpty and notFull.
 * Each step is one stretch of code run with the mutex held.
 */
module MonitorQueue {
  import opened Sequences

  /** A thread inside `put` (`ThreadPool::run`) with its element. */
  datatype Putter<T> = Putter(thread: nat, x: T)

  /**
   * Waiting threads have not been signalled; woken ones have, or woke spuriously, and will check
   * their condition again. `bound` is the capacity, or none for a pool without a limit. `running`
   * stays true for the blocking queue. `put` and `taken` record the elements that went through.
   */
  datatype State<T(==)> = State(
    bound: Option<nat>, queue: seq<T>, running: bool,
    waitTake: set<nat>, wokeTake: set<nat>,
    waitPut: set<Putter<T>>, wokePut: set<Putter<T>>,
    put: seq<T>, taken: seq<T>)

  /** The step's `signalled` is the waiter that `notify` picks, if there is any to pick. */
  datatype Step<T> =
    | EnterPut(p: Putter<T>, signalTake: nat)
    | ResumePut(p: Putter<T>, signalTake: nat)
    | EnterTake(thread: nat, signalPut: Putter<T>)
    | ResumeTake(thread: nat, signalPut: Putter<T>)
    | SpuriousPut(p: Putter<T>)
    | SpuriousTake(thread: nat)
    | Stop

  predicate Full<T>(s: State<T>) {
    s.bound.Some? && |s.queue| >= s.bound.value
  }

  predicate Enabled<T>(s: State<T>, step: Step<T>) {
    match step
    case EnterPut(p, t) => p !in s.waitPut + s.wokePut && (s.waitTake != {} ==> t in s.waitTake)
    case ResumePut(p, t) => p in s.wokePut && (s.waitTake != {} ==> t in s.waitTake)
    case EnterTake(t, p) => t !in s.waitTake + s.wokeTake && (s.waitPut != {} ==> p in s.waitPut)
    case ResumeTake(t, p) => t in s.wokeTake && (s.waitPut != {} ==> p in s.waitPut)
    case SpuriousPut(p) => p in s.waitPut
    case SpuriousTake(t) => t in s.waitTake
    case Stop => true
  }

  function NotifyTake<T>(s: State<T>, t: nat): State<T> {
    if t in s.waitTake then s.(waitTake := s.waitTake - {t}, wokeTake := s.wokeTake + {t}) else s
  }

  function NotifyPut<T>(s: State<T>, p: Putter<T>): State<T> {
    if p in s.waitPut then s.(waitPut := s.waitPut - {p}, wokePut := s.wokePut + {p}) else s
  }

  /** `put` from its loop test on. */
  function TryPut<T>(s: State<T>, p: Putter<T>, signalled: nat): State<T> {
    if Full(s) then s.(waitPut := s.waitPut + {p})
    else NotifyTake(s.(queue := s.queue + [p.x], put := s.put + [p.x]), signalled)
  }

  /** `take` from its loop test on; a stopped pool with an empty queue hands out nothing. */
  function TryTake<T>(s: State<T>, t: nat, signalled: Putter<T>): State<T> {
    if s.queue == [] && s.running then s.(waitTake := s.waitTake + {t})
    else if s.queue == [] then s
    else NotifyPut(s.(queue := s.queue[1..], taken := s.taken + [s.queue[0]]), signalled)
  }

  function Do<T>(s: State<T>, step: Step<T>): State<T>
    requires Enabled(s, step)
  {
    match step
    case EnterPut(p, t) => TryPut(s, p, t)
    case ResumePut(p, t) => TryPut(s.(wokePut := s.wokePut - {p}), p, t)
    case EnterTake(t, p) => TryTake(s, t, p)
    case ResumeTake(t, p) => TryTake(s.(wokeTake := s.wokeTake - {t}), t, p)
    case SpuriousPut(p) => s.(waitPut := s.waitPut - {p}, wokePut := s.wokePut + {p})
    case SpuriousTake(t) => s.(waitTake := s.waitTake - {t}, wokeTake := s.wokeTake + {t})
    case Stop => s.(running := false, waitTake := {}, wokeTake := s.wokeTake + s.waitTake)
  }

  predicate Initial<T>(s: State<T>) {
    && s.queue == [] && s.put == [] && s.taken == []
    && s.waitTake == {} && s.wokeTake == {} && s.waitPut == {} && s.wokePut == {}
  }

  /**
   * While takers wait, every queued element has its woken taker, and while putters wait, every free
   * place has its woken putter; `t` and `p` count threads that were woken and are running now.
   */
  predicate Signalled<T>(s: State<T>, t: nat, p: nat) {
    && (s.waitTake != {} ==> |s.queue| <= |s.wokeTake| + t)
    && (s.waitPut != {} ==> s.bound.Some? && s.bound.value - |s.queue| <= |s.wokePut| + p)
  }

  predicate Shape<T>(s: State<T>) {
    && s.waitTake !! s.wokeTake && s.waitPut !! s.wokePut
    && (s.bound.Some? ==> |s.queue| <= s.bound.value)
    && s.put == s.taken + s.queue
    && (!s.running ==> s.waitTake == {})
  }

  predicate Inv<T>(s: State<T>) {
    Shape(s) && Signalled(s, 0, 0)
  }

  lemma TryPutKeepsInv<T>(s: State<T>, p: Putter<T>, t: nat)
    requires p !in s.waitPut + s.wokePut && (s.waitTake != {} ==> t in s.waitTake)
    requires Shape(s) && Signalled(s, 0, 1)
    ensures Inv(TryPut(s, p, t))
  {
  }

  lemma TryTakeKeepsInv<T>(s: State<T>, t: nat, p: Putter<T>)
    requires t !in s.waitTake + s.wokeTake && (s.waitPut != {} ==> p in s.waitPut)
    requires Shape(s) && Signalled(s, 1, 0)
    ensures Inv(TryTake(s, t, p))
  {
    if s.queue != [] {
      assert s.taken + s.queue == s.taken + [s.queue[0]] + s.queue[1..];
    }
  }

  lemma PutterLeaves<T>(s: State<T>, p: Putter<T>)
    requires Inv(s) && p in s.wokePut
    ensures Shape(s.(wokePut := s.wokePut - {p})) && Signalled(s.(wokePut := s.wokePut - {p}), 0, 1)
  {
  }

  lemma TakerLeaves<T>(s: State<T>, t: nat)
    requires Inv(s) && t in s.wokeTake
    ensures Shape(s.(wokeTake := s.wokeTake - {t})) && Signalled(s.(wokeTake := s.wokeTake - {t}), 1, 0)
  {
  }

  lemma SpuriousPutKeepsInv<T>(s: State<T>, p: Putter<T>)
    requires Inv(s) && p in s.waitPut
    ensures Inv(s.(waitPut := s.waitPut - {p}, wokePut := s.wokePut + {p}))
  {
  }

  lemma SpuriousTakeKeepsInv<T>(s: State<T>, t: nat)
    requires Inv(s) && t in s.waitTake
    ensures Inv(s.(waitTake := s.waitTake - {t}, wokeTake := s.wokeTake + {t}))
  {
  }

  lemma StepKeepsInv<T>(s: State<T>, step: Step<T>)
    requires Inv(s) && Enabled(s, step)
    ensures Inv(Do(s, step))
  {
    hide TryPut, TryTake, Shape, Signalled;
    match step
    case EnterPut(p, t) => Slack(s); TryPutKeepsInv(s, p, t);
    case ResumePut(p, t) =>
      PutterLeaves(s, p);
      Apart(s);
      TryPutKeepsInv(s.(wokePut := s.wokePut - {p}), p, t);
    case EnterTake(t, p) => Slack(s); TryTakeKeepsInv(s, t, p);
    case ResumeTake(t, p) =>
      TakerLeaves(s, t);
      Apart(s);
      TryTakeKeepsInv(s.(wokeTake := s.wokeTake - {t}), t, p);
    case SpuriousPut(p) => SpuriousPutKeepsInv(s, p);
    case SpuriousTake(t) => SpuriousTakeKeepsInv(s, t);
    case Stop => StopKeepsInv(s);
  }

  lemma Slack<T>(s: State<T>)
    requires Signalled(s, 0, 0)
    ensures Signalled(s, 0, 1) && Signalled(s, 1, 0)
  {
  }

  lemma Apart<T>(s: State<T>)
    requires Shape(s)
    ensures s.waitTake !! s.wokeTake && s.waitPut !! s.wokePut
  {
  }

  lemma StopKeepsInv<T>(s: State<T>)
    requires Inv(s)
    ensures Inv(s.(running := false, waitTake := {}, wokeTake := s.wokeTake + s.waitTake))
  {
  }

  ghost predicate Run<T>(first: State<T>, steps: seq<Step<T>>, last: State<T>)
    decreases |steps|
  {
    if steps == [] then first == last
    else Enabled(first, steps[0]) && Run(Do(first, steps[0]), steps[1..], last)
  }

  lemma {:induction false} RunKeepsInv<T>(first: State<T>, steps: seq<Step<T>>, last: State<T>)
    requires Inv(first) && Run(first, steps, last)
    ensures Inv(last) && last.bound == first.bound
    ensures !first.running ==> !last.running
    decreases |steps|
  {
    if steps != [] {
      StepKeepsInv(first, steps[0]);
      RunKeepsInv(Do(first, steps[0]), steps[1..], last);
    }
  }

  // ----- What the calls alone say

  /** The elements of the putters that find room, in the order of their steps. */
  ghost function Inserted<T>(s: State<T>, steps: seq<Step<T>>): seq<T>
    decreases |steps|
  {
    if steps == [] || !Enabled(s, steps[0]) then []
    else
      var step := steps[0];
      var room := s.bound.None? || |s.queue| < s.bound.value;
      (if (step.EnterPut? || step.ResumePut?) && room then [step.p.x] else []) + Inserted(Do(s, step), steps[1..])
  }

  /** The number of takers that find an element, before or after a stop. */
  ghost function Takes<T>(s: State<T>, steps: seq<Step<T>>): nat
    decreases |steps|
  {
    if steps == [] || !Enabled(s, steps[0]) then 0
    else
      var step := steps[0];
      (if (step.EnterTake? || step.ResumeTake?) && s.queue != [] then 1 else 0) + Takes(Do(s, step), steps[1..])
  }

  lemma {:induction false} LogsAreCalls<T>(first: State<T>, steps: seq<Step<T>>, last: State<T>)
    requires Run(first, steps, last)
    ensures last.put == first.put + Inserted(first, steps)
    ensures |last.taken| == |first.taken| + Takes(first, steps)
    decreases |steps|
  {
    if steps != [] {
      LogsAreCalls(Do(first, steps[0]), steps[1..], last);
    }
  }

  // ----- Main results

  /**
   * The elements of the putters that found room are those taken, one for each taker that found one, followed
   * by the queue; the bound is kept.
   */
  lemma FirstInFirstOut<T>(first: State<T>, steps: seq<Step<T>>, last: State<T>)
    requires Initial(first) && Run(first, steps, last)
    ensures Inserted(first, steps) == last.taken + last.queue && |last.taken| == Takes(first, steps)
    ensures first.bound.Some? ==> |last.queue| <= first.bound.value
  {
    RunKeepsInv(first, steps, last);
    LogsAreCalls(first, steps, last);
  }

  /**
   * In every reachable state the woken threads suffice for the elements and places that waiting
   * threads could use.
   */
  lemma NoLostWakeup<T>(first: State<T>, steps: seq<Step<T>>, last: State<T>)
    requires Initial(first) && Run(first, steps, last)
    ensures last.waitTake != {} ==> |last.queue| <= |last.wokeTake|
    ensures last.waitPut != {} ==> last.bound.Some? && last.bound.value - |last.queue| <= |last.wokePut|
  {
    RunKeepsInv(first, steps, last);
  }

  /**
   * With room for at least one element, threads that wait while none is awake are either all takers
   * of an empty queue or all putters to a full one.
   */
  lemma NoDeadlock<T>(first: State<T>, steps: seq<Step<T>>, last: State<T>)
    requires Initial(first) && Run(first, steps, last)
    requires first.bound.Some? ==> first.bound.value >= 1
    requires last.wokeTake == {} && last.wokePut == {}
    ensures last.waitTake == {} || last.waitPut == {}
    ensures last.waitTake != {} ==> last.queue == []
    ensures last.waitPut != {} ==> last.bound == Some(|last.queue|)
  {
    RunKeepsInv(first, steps, last);
  }

  /** After a stop a taker never waits: it gets the front of the queue, or nothing if there is none. */
  lemma TakeAfterStop<T>(first: State<T>, steps: seq<Step<T>>, s: State<T>, step: Step<T>)
    requires Initial(first) && Run(first, steps, s) && !s.running && Enabled(s, step)
    requires step.EnterTake? || step.ResumeTake?
    ensures var t := Do(s, step);
            && step.thread !in t.waitTake + t.wokeTake
            && (s.queue == [] ==> t.taken == s.taken && t.queue == [])
            && (s.queue != [] ==> t.taken == s.taken + [s.queue[0]] && [s.queue[0]] + t.queue == s.queue)
  {
    RunKeepsInv(first, steps, s);
  }

  /** Once stopped, no worker is ever left waiting without a signal. */
  lemma StopWakesAll<T>(first: State<T>, before: seq<Step<T>>, stopped: State<T>, after: seq<Step<T>>, last: State<T>)
    requires Initial(first) && Run(first, before, stopped) && Run(Do(stopped, Stop), after, last)
    ensures last.waitTake == {} && !last.running
  {
    RunKeepsInv(first, before, stopped);
    StepKeepsInv(stopped, Stop);
    RunKeepsInv(Do(stopped, Stop), after, last);
  }
}
