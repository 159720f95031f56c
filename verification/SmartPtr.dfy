/** The reference-counted pointer of cpp-examples/3-cpp11/example_shared_ptr_impl.cpp. */
module SmartPtr {
  import opened Sequences

  /** A `smart_ptr`: the object it points to, and its `shared_count`, meaningless when the pointer is null. */
  datatype Handle = Handle(ptr: Option<nat>, block: nat)

  /**
   * The live handles, the counts of the live control blocks, the object each block was made for,
   * and the blocks and objects deleted so far, in order.
   */
  datatype World = World(
    handles: map<nat, Handle>, counts: map<nat, int>, made: map<nat, nat>,
    deletedBlocks: seq<nat>, deletedObjects: seq<nat>)

  const EMPTY: World := World(map[], map[], map[], [], [])

  /**
   * Constructors name the new handle `h`. `Construct` is given a new object or null; `kept` says whether
   * a cast of a non-null pointer yields one. Assignment is a copy, a swap and the copy's destruction.
   */
  datatype Step =
    | Construct(h: nat, target: Option<nat>, block: nat)
    | Copy(h: nat, other: nat)
    | Move(h: nat, other: nat)
    | Cast(h: nat, other: nat, kept: bool)
    | Swap(a: nat, b: nat)
    | Destroy(h: nat)

  /** What the language and the caller guarantee: handles are alive or new, raw pointers are not yet owned. */
  predicate Enabled(w: World, step: Step) {
    match step
    case Construct(h, target, block) =>
      h !in w.handles && (target.Some? ==> block !in w.made && target.value !in w.made.Values)
    case Copy(h, other) => h !in w.handles && other in w.handles
    case Move(h, other) => h !in w.handles && other in w.handles
    case Cast(h, other, _) => h !in w.handles && other in w.handles
    case Swap(a, b) => a in w.handles && b in w.handles
    case Destroy(h) => h in w.handles
  }

  /** The control block a step is about to use is alive. */
  predicate Safe(w: World, step: Step)
    requires Enabled(w, step)
  {
    match step
    case Copy(_, other) => Live(w, other)
    case Cast(_, other, _) => Live(w, other)
    case Destroy(h) => Live(w, h)
    case _ => true
  }

  predicate Live(w: World, h: nat)
    requires h in w.handles
  {
    w.handles[h].ptr.Some? ==> w.handles[h].block in w.counts
  }

  function DoCast(w: World, h: nat, other: nat, ptr: Option<nat>): World
    requires other in w.handles && (ptr.Some? ==> w.handles[other].block in w.counts)
  {
    var b := w.handles[other].block;
    if ptr.None? then w.(handles := w.handles[h := Handle(None, b)])
    else w.(handles := w.handles[h := Handle(ptr, b)], counts := w.counts[b := w.counts[b] + 1])
  }

  function DoDestroy(w: World, h: nat): World
    requires h in w.handles && Live(w, h)
  {
    var p := w.handles[h];
    var v := w.(handles := w.handles - {h});
    if p.ptr.None? then v
    else if w.counts[p.block] - 1 != 0 then v.(counts := w.counts[p.block := w.counts[p.block] - 1])
    else
      v.(counts := w.counts - {p.block}, deletedBlocks := w.deletedBlocks + [p.block],
         deletedObjects := w.deletedObjects + [p.ptr.value])
  }

  function Do(w: World, step: Step): World
    requires Enabled(w, step) && Safe(w, step)
  {
    match step
    case Construct(h, target, block) =>
      if target.None? then w.(handles := w.handles[h := Handle(None, block)])
      else
        w.(handles := w.handles[h := Handle(target, block)], counts := w.counts[block := 1],
           made := w.made[block := target.value])
    case Copy(h, other) => DoCast(w, h, other, w.handles[other].ptr)
    case Move(h, other) =>
      var p := w.handles[other];
      w.(handles := w.handles[h := p][other := p.(ptr := None)])
    case Cast(h, other, kept) => DoCast(w, h, other, if kept then w.handles[other].ptr else None)
    case Swap(a, b) => w.(handles := w.handles[a := w.handles[b]][b := w.handles[a]])
    case Destroy(h) => DoDestroy(w, h)
  }

  // ----- Invariant

  /** The live non-null handles on a block. */
  function Holders(handles: map<nat, Handle>, b: nat): set<nat> {
    set h | h in handles && handles[h].ptr.Some? && handles[h].block == b
  }

  ghost predicate HandlesOk(w: World) {
    forall h | h in w.handles && w.handles[h].ptr.Some? ::
      && w.handles[h].block in w.counts && w.handles[h].block in w.made
      && w.made[w.handles[h].block] == w.handles[h].ptr.value
  }

  /** Each count is the number of holders, and never zero. */
  ghost predicate CountsOk(w: World) {
    forall b | b in w.counts :: w.counts[b] == |Holders(w.handles, b)| > 0
  }

  ghost predicate BlocksOk(w: World) {
    && (forall b :: b in w.made <==> b in w.counts || b in w.deletedBlocks)
    && (forall b | b in w.deletedBlocks :: b !in w.counts)
    && (forall a, b | a in w.made && b in w.made && a != b :: w.made[a] != w.made[b])
  }

  ghost predicate DeletedOk(w: World) {
    && |w.deletedBlocks| == |w.deletedObjects|
    && (forall i | 0 <= i < |w.deletedBlocks| ::
          w.deletedBlocks[i] in w.made && w.deletedObjects[i] == w.made[w.deletedBlocks[i]])
    && (forall i, j | 0 <= i < j < |w.deletedBlocks| :: w.deletedBlocks[i] != w.deletedBlocks[j])
  }

  ghost predicate Inv(w: World) {
    HandlesOk(w) && CountsOk(w) && BlocksOk(w) && DeletedOk(w)
  }

  /** Changing one handle changes the holders of its old and its new block only. */
  lemma HoldersUpdate(handles: map<nat, Handle>, h: nat, p: Handle, b: nat)
    ensures Holders(handles[h := p], b) ==
            if p.ptr.Some? && p.block == b then Holders(handles, b) + {h} else Holders(handles, b) - {h}
  {
  }

  lemma HoldersRemove(handles: map<nat, Handle>, h: nat, b: nat)
    ensures Holders(handles - {h}, b) == Holders(handles, b) - {h}
  {
  }

  lemma ConstructCounts(w: World, h: nat, target: nat, block: nat)
    requires HandlesOk(w) && CountsOk(w) && BlocksOk(w) && Enabled(w, Construct(h, Some(target), block))
    ensures CountsOk(Do(w, Construct(h, Some(target), block)))
  {
    var v := Do(w, Construct(h, Some(target), block));
    forall b | b in v.counts ensures v.counts[b] == |Holders(v.handles, b)| > 0 {
      HoldersUpdate(w.handles, h, Handle(Some(target), block), b);
      if b == block {
        assert Holders(w.handles, b) == {};
      }
    }
  }

  lemma ConstructKeepsInv(w: World, h: nat, target: nat, block: nat)
    requires Inv(w) && Enabled(w, Construct(h, Some(target), block))
    ensures Inv(Do(w, Construct(h, Some(target), block)))
  {
    ConstructCounts(w, h, target, block);
    hide CountsOk, Holders;
  }

  lemma NullKeepsInv(w: World, h: nat, block: nat)
    requires Inv(w) && h !in w.handles
    ensures Inv(w.(handles := w.handles[h := Handle(None, block)]))
  {
    var v := w.(handles := w.handles[h := Handle(None, block)]);
    forall b | b in v.counts ensures v.counts[b] == |Holders(v.handles, b)| > 0 {
      HoldersUpdate(w.handles, h, Handle(None, block), b);
    }
  }

  lemma CastKeepsInv(w: World, h: nat, other: nat)
    requires Inv(w) && h !in w.handles && other in w.handles && w.handles[other].ptr.Some? && Live(w, other)
    ensures Inv(DoCast(w, h, other, w.handles[other].ptr))
  {
    var v := DoCast(w, h, other, w.handles[other].ptr);
    forall b | b in v.counts ensures v.counts[b] == |Holders(v.handles, b)| > 0 {
      HoldersUpdate(w.handles, h, w.handles[other], b);
    }
  }

  lemma NotHolder(handles: map<nat, Handle>, h: nat, b: nat)
    ensures h in Holders(handles, b) <==> h in handles && handles[h].ptr.Some? && handles[h].block == b
  {
  }

  /** The new handle takes the old one's place. */
  lemma MoveHolders(handles: map<nat, Handle>, h: nat, other: nat, b: nat)
    requires h !in handles && other in handles
    ensures |Holders(handles[h := handles[other]][other := handles[other].(ptr := None)], b)| == |Holders(handles, b)|
  {
    hide Holders;
    var p, s := handles[other], Holders(handles, b);
    NotHolder(handles, h, b);
    NotHolder(handles, other, b);
    HoldersUpdate(handles, h, p, b);
    HoldersUpdate(handles[h := p], other, p.(ptr := None), b);
    MoveSize(s, h, other);
  }

  lemma MoveSize(s: set<nat>, h: nat, other: nat)
    requires h !in s && h != other
    ensures |if other in s then s + {h} - {other} else s - {h} - {other}| == |s|
  {
    if other in s {
      assert s + {h} - {other} == s - {other} + {h};
    } else {
      assert s - {h} - {other} == s;
    }
  }

  lemma MoveKeepsInv(w: World, h: nat, other: nat)
    requires Inv(w) && Enabled(w, Move(h, other))
    ensures Inv(Do(w, Move(h, other)))
  {
    var v := Do(w, Move(h, other));
    forall b | b in v.counts ensures v.counts[b] == |Holders(v.handles, b)| > 0 {
      MoveHolders(w.handles, h, other, b);
    }
    hide Holders;
  }

  lemma SwapKeepsInv(w: World, x: nat, y: nat)
    requires Inv(w) && Enabled(w, Swap(x, y))
    ensures Inv(Do(w, Swap(x, y)))
  {
    var v := Do(w, Swap(x, y));
    forall b | b in v.counts ensures v.counts[b] == |Holders(v.handles, b)| > 0 {
      ExchangeHolders(w.handles, x, y, b);
    }
    hide Holders;
  }

  /** Trading places keeps the number of holders of every block. */
  lemma ExchangeHolders(handles: map<nat, Handle>, x: nat, y: nat, b: nat)
    requires x in handles && y in handles
    ensures |Holders(handles[x := handles[y]][y := handles[x]], b)| == |Holders(handles, b)|
  {
    hide Holders;
    var p, q := handles[x], handles[y];
    NotHolder(handles, x, b);
    NotHolder(handles, y, b);
    HoldersUpdate(handles, x, q, b);
    HoldersUpdate(handles[x := q], y, p, b);
    SwapSize(Holders(handles, b), x, y, p.ptr.Some? && p.block == b, q.ptr.Some? && q.block == b);
  }

  lemma SwapSize(s: set<nat>, x: nat, y: nat, xIn: bool, yIn: bool)
    requires (x in s <==> xIn) && (y in s <==> yIn)
    ensures var t := if yIn then s + {x} else s - {x};
            |if xIn then t + {y} else t - {y}| == |s|
  {
    var t := if yIn then s + {x} else s - {x};
    if xIn && !yIn {
      assert t + {y} == s - {x} + {y};
    } else if !xIn && yIn {
      assert t - {y} == s - {y} + {x};
    } else {
      assert (if xIn then t + {y} else t - {y}) == s;
    }
  }

  lemma DestroyCounts(w: World, h: nat)
    requires HandlesOk(w) && CountsOk(w) && h in w.handles && Live(w, h)
    ensures CountsOk(DoDestroy(w, h))
  {
    var v, p := DoDestroy(w, h), w.handles[h];
    assert p.ptr.Some? ==> h in Holders(w.handles, p.block);
    forall b | b in v.counts ensures v.counts[b] == |Holders(v.handles, b)| > 0 {
      HoldersRemove(w.handles, h, b);
      assert h in Holders(w.handles, b) <==> p.ptr.Some? && p.block == b;
    }
  }

  lemma DestroyHandles(w: World, h: nat)
    requires HandlesOk(w) && CountsOk(w) && h in w.handles && Live(w, h)
    ensures HandlesOk(DoDestroy(w, h))
  {
    var p := w.handles[h];
    if p.ptr.Some? && w.counts[p.block] == 1 {
      var s := Holders(w.handles, p.block);
      assert h in s && |s - {h}| == 0;
      LastHolderGone(w, h);
    }
    hide Holders, CountsOk;
  }

  lemma DestroyKeepsInv(w: World, h: nat)
    requires Inv(w) && h in w.handles && Live(w, h)
    ensures Inv(DoDestroy(w, h))
  {
    DestroyCounts(w, h);
    DestroyHandles(w, h);
    DestroyBlocks(w, h);
    hide HandlesOk, CountsOk, BlocksOk, DeletedOk;
  }

  lemma DestroyBlocks(w: World, h: nat)
    requires HandlesOk(w) && BlocksOk(w) && DeletedOk(w) && h in w.handles && Live(w, h)
    ensures BlocksOk(DoDestroy(w, h)) && DeletedOk(DoDestroy(w, h))
  {
  }

  lemma LastHolderGone(w: World, h: nat)
    requires h in w.handles && Holders(w.handles, w.handles[h].block) == {h}
    ensures forall g | g in w.handles && g != h && w.handles[g].ptr.Some? :: w.handles[g].block != w.handles[h].block
  {
    forall g | g in w.handles && g != h && w.handles[g].ptr.Some? ensures w.handles[g].block != w.handles[h].block {
      assert g !in Holders(w.handles, w.handles[h].block);
    }
  }

  lemma IsSafe(w: World, step: Step)
    requires Inv(w) && Enabled(w, step)
    ensures Safe(w, step)
  {
  }

  lemma StepKeepsInv(w: World, step: Step)
    requires Inv(w) && Enabled(w, step)
    ensures Safe(w, step) && Inv(Do(w, step))
  {
    IsSafe(w, step);
    hide Inv, Holders;
    match step
    case Construct(h, target, block) =>
      if target.Some? {
        ConstructKeepsInv(w, h, target.value, block);
      } else {
        NullKeepsInv(w, h, block);
      }
    case Copy(h, other) =>
      if w.handles[other].ptr.Some? {
        CastKeepsInv(w, h, other);
      } else {
        NullKeepsInv(w, h, w.handles[other].block);
      }
    case Move(h, other) => MoveKeepsInv(w, h, other);
    case Cast(h, other, kept) =>
      if kept && w.handles[other].ptr.Some? {
        CastKeepsInv(w, h, other);
      } else {
        NullKeepsInv(w, h, w.handles[other].block);
      }
    case Swap(x, y) => SwapKeepsInv(w, x, y);
    case Destroy(h) => DestroyKeepsInv(w, h);
  }

  ghost predicate Run(first: World, steps: seq<Step>, last: World)
    decreases |steps|
  {
    if steps == [] then first == last
    else Enabled(first, steps[0]) && Safe(first, steps[0]) && Run(Do(first, steps[0]), steps[1..], last)
  }

  lemma {:induction false} RunKeepsInv(first: World, steps: seq<Step>, last: World)
    requires Inv(first) && Run(first, steps, last)
    ensures Inv(last)
    decreases |steps|
  {
    hide Inv;
    if steps != [] {
      StepKeepsInv(first, steps[0]);
      RunKeepsInv(Do(first, steps[0]), steps[1..], last);
    }
  }

  // ----- Main results

  /** No step ever uses a deleted control block. */
  lemma NoUseAfterFree(steps: seq<Step>, last: World, step: Step)
    requires Run(EMPTY, steps, last) && Enabled(last, step)
    ensures Safe(last, step)
  {
    RunKeepsInv(EMPTY, steps, last);
    IsSafe(last, step);
  }

  /** In every run each live block's count is its number of live non-null handles. */
  lemma CountIsHolders(steps: seq<Step>, last: World)
    requires Run(EMPTY, steps, last)
    ensures forall b | b in last.counts :: last.counts[b] == |Holders(last.handles, b)| > 0
    ensures forall h | h in last.handles && last.handles[h].ptr.Some? :: last.handles[h].block in last.counts
  {
    RunKeepsInv(EMPTY, steps, last);
  }

  /** A block is deleted exactly when its last handle is gone, once, and its object with it. */
  lemma DeletedOnceWhenUnused(steps: seq<Step>, last: World)
    requires Run(EMPTY, steps, last)
    ensures forall b | b in last.made :: b in last.deletedBlocks <==> Holders(last.handles, b) == {}
    ensures forall i, j | 0 <= i < j < |last.deletedBlocks| :: last.deletedBlocks[i] != last.deletedBlocks[j]
    ensures |last.deletedObjects| == |last.deletedBlocks|
    ensures forall i | 0 <= i < |last.deletedBlocks| ::
              last.deletedBlocks[i] in last.made && last.deletedObjects[i] == last.made[last.deletedBlocks[i]]
    ensures forall i, j | 0 <= i < j < |last.deletedObjects| :: last.deletedObjects[i] != last.deletedObjects[j]
  {
    RunKeepsInv(EMPTY, steps, last);
    forall b | b in last.deletedBlocks ensures Holders(last.handles, b) == {} {
      assert b !in last.counts;
    }
  }

  /** Assignment: copy into the parameter, swap with it, destroy it. */
  function AssignSteps(target: nat, other: nat, temp: nat): seq<Step> {
    [Copy(temp, other), Swap(temp, target), Destroy(temp)]
  }

  lemma CopyHandles(w: World, temp: nat, other: nat)
    requires Enabled(w, Copy(temp, other)) && Safe(w, Copy(temp, other))
    ensures Do(w, Copy(temp, other)).handles == w.handles[temp := w.handles[other]]
    ensures w.handles[other].ptr.Some? ==>
              var b := w.handles[other].block; Do(w, Copy(temp, other)).counts == w.counts[b := w.counts[b] + 1]
    ensures w.handles[other].ptr.None? ==> Do(w, Copy(temp, other)).counts == w.counts
  {
  }

  lemma SwapHandles(w: World, a: nat, b: nat)
    requires Enabled(w, Swap(a, b))
    ensures Do(w, Swap(a, b)).handles == w.handles[a := w.handles[b]][b := w.handles[a]]
    ensures Do(w, Swap(a, b)).counts == w.counts
  {
  }

  lemma DestroyedHandles(w: World, temp: nat)
    requires Enabled(w, Destroy(temp)) && Safe(w, Destroy(temp))
    ensures Do(w, Destroy(temp)).handles == w.handles - {temp}
    ensures w.handles[temp].ptr.None? ==> Do(w, Destroy(temp)).counts == w.counts
    ensures w.handles[temp].ptr.Some? && w.counts[w.handles[temp].block] > 1 ==>
              var b := w.handles[temp].block; Do(w, Destroy(temp)).counts == w.counts[b := w.counts[b] - 1]
  {
  }

  lemma ThroughTemporary(handles: map<nat, Handle>, target: nat, temp: nat, p: Handle)
    requires target in handles && temp !in handles
    ensures handles[temp := p][temp := handles[target]][target := p] - {temp} == handles[target := p]
  {
  }

  lemma AssignStages(w: World, target: nat, other: nat, temp: nat) returns (w1: World, w2: World, v: World)
    requires Inv(w) && target in w.handles && other in w.handles && temp !in w.handles
    ensures Run(w, AssignSteps(target, other, temp), v) && Inv(v)
    ensures w1.handles == w.handles[temp := w.handles[other]]
    ensures w2.handles == w1.handles[temp := w1.handles[target]][target := w1.handles[temp]] && w2.counts == w1.counts
    ensures v.handles == w2.handles - {temp}
    ensures w.handles[other].ptr.Some? ==> w.handles[other].block in w.counts
    ensures w1.counts == if w.handles[other].ptr.None? then w.counts
                         else w.counts[w.handles[other].block := w.counts[w.handles[other].block] + 1]
    ensures var p := w2.handles[temp];
            && (p.ptr.None? ==> v.counts == w2.counts)
            && (p.ptr.Some? && p.block in w2.counts && w2.counts[p.block] > 1 ==>
                  v.counts == w2.counts[p.block := w2.counts[p.block] - 1])
  {
    var copy, swap, destroy := Copy(temp, other), Swap(temp, target), Destroy(temp);
    hide Inv, Do, Run;
    StepKeepsInv(w, copy);
    CopyHandles(w, temp, other);
    w1 := Do(w, copy);
    StepKeepsInv(w1, swap);
    SwapHandles(w1, temp, target);
    w2 := Do(w1, swap);
    StepKeepsInv(w2, destroy);
    DestroyedHandles(w2, temp);
    v := Do(w2, destroy);
    ThreeSteps(w, copy, swap, destroy);
  }

  /**
   * Assignment redirects the target and nothing else, and it is safe to assign a handle to itself:
   * then even the counts stay.
   */
  lemma AssignRedirects(w: World, target: nat, other: nat, temp: nat) returns (v: World)
    requires Inv(w) && target in w.handles && other in w.handles && temp !in w.handles
    ensures Run(w, AssignSteps(target, other, temp), v) && Inv(v)
    ensures v.handles == w.handles[target := w.handles[other]]
    ensures target == other ==> v.counts == w.counts
  {
    CountPositive(w, other);
    hide Inv, Run;
    var w1, w2, r := AssignStages(w, target, other, temp);
    v := r;
    ThroughTemporary(w.handles, target, temp, w.handles[other]);
    if target == other && w.handles[other].ptr.Some? {
      var b := w.handles[other].block;
      assert w2.handles[temp] == w.handles[other];
      assert w.counts[b := w.counts[b] + 1][b := w.counts[b] + 1 - 1] == w.counts;
    }
  }

  lemma CountPositive(w: World, h: nat)
    requires Inv(w) && h in w.handles
    ensures w.handles[h].ptr.Some? ==> w.handles[h].block in w.counts && w.counts[w.handles[h].block] > 0
  {
  }

  lemma ThreeSteps(w: World, a: Step, b: Step, c: Step)
    requires Enabled(w, a) && Safe(w, a) && Enabled(Do(w, a), b) && Safe(Do(w, a), b)
    requires Enabled(Do(Do(w, a), b), c) && Safe(Do(Do(w, a), b), c)
    ensures Run(w, [a, b, c], Do(Do(Do(w, a), b), c))
  {
    hide Enabled, Safe, Do;
    assert [a, b, c][1..] == [b, c] && [b, c][1..] == [c] && [c][1..] == [];
    var v := Do(Do(Do(w, a), b), c);
    assert Run(v, [], v);
    assert Run(Do(Do(w, a), b), [c], v);
    assert Run(Do(w, a), [b, c], v);
  }

  // ----- The operations on a heap of handles

  lemma AddedHolder(handles: map<nat, Handle>, h: nat, p: Handle, b: nat)
    requires h !in handles
    ensures Holders(handles[h := p], b) == Holders(handles, b) + (if p.ptr.Some? && p.block == b then {h} else {})
  {
    HoldersUpdate(handles, h, p, b);
  }

  /** A new object's block has no holder yet. */
  lemma FreshBlock(w: World, block: nat)
    requires Inv(w) && block !in w.made
    ensures Holders(w.handles, block) == {}
  {
  }

  /** The count says when a handle is the last. */
  lemma LastHolder(w: World, h: nat)
    requires Inv(w) && h in w.handles && w.handles[h].ptr.Some?
    ensures var b := w.handles[h].block;
            b in w.counts && (w.counts[b] == 1 <==> Holders(w.handles, b) == {h})
  {
    var s := Holders(w.handles, w.handles[h].block);
    assert h in s;
    if |s| == 1 {
      assert |s - {h}| == 0;
    }
  }

  class PointerHeap {
    var handles: map<nat, Handle>
    var counts: map<nat, int>
    ghost var made: map<nat, nat>
    ghost var deletedBlocks: seq<nat>
    ghost var deletedObjects: seq<nat>

    ghost function View(): World
      reads this
    {
      World(handles, counts, made, deletedBlocks, deletedObjects)
    }

    ghost predicate Valid()
      reads this
    {
      Inv(View())
    }

    constructor ()
      ensures Valid() && View() == EMPTY
    {
      handles, counts := map[], map[];
      made, deletedBlocks, deletedObjects := map[], [], [];
    }

    /** `smart_ptr(T*)`: the new handle is the only one on its object. */
    method New(h: nat, target: Option<nat>, block: nat)
      requires Valid() && Enabled(View(), Construct(h, target, block))
      modifies this
      ensures Valid() && View() == Do(old(View()), Construct(h, target, block))
      ensures handles[h].ptr == target && deletedObjects == old(deletedObjects)
      ensures target.Some? ==> Holders(handles, block) == {h} && made[block] == target.value
      ensures forall b | target.Some? ==> b != block :: Holders(handles, b) == Holders(old(handles), b)
    {
      hide Inv, Holders;
      ghost var w := View();
      StepKeepsInv(w, Construct(h, target, block));
      forall b {
        AddedHolder(handles, h, Handle(target, block), b);
      }
      if target.Some? {
        FreshBlock(w, block);
      }
      handles := handles[h := Handle(target, block)];
      if target.Some? {
        counts := counts[block := 1];
        made := made[block := target.value];
      }
    }

    /** The copy constructors: one more handle on the other's object, if there is one. */
    method CopyFrom(h: nat, other: nat)
      requires Valid() && h !in handles && other in handles
      modifies this
      ensures Valid() && View() == Do(old(View()), Copy(h, other))
      ensures handles == old(handles)[h := old(handles)[other]]
      ensures forall b :: Holders(handles, b) ==
                          Holders(old(handles), b) + (if other in Holders(old(handles), b) then {h} else {})
      ensures deletedObjects == old(deletedObjects)
    {
      hide Inv, Holders;
      StepKeepsInv(View(), Copy(h, other));
      forall b
        ensures Holders(handles[h := handles[other]], b) ==
                Holders(handles, b) + (if other in Holders(handles, b) then {h} else {})
      {
        AddedHolder(handles, h, handles[other], b);
        NotHolder(handles, other, b);
      }
      Share(h, other, handles[other].ptr);
    }

    /** The casting constructor, given what the cast yields: the other's object seen as another type, or null. */
    method CastFrom(h: nat, other: nat, kept: bool)
      requires Valid() && h !in handles && other in handles
      modifies this
      ensures Valid() && View() == Do(old(View()), Cast(h, other, kept))
      ensures handles[h].ptr == if kept then old(handles)[other].ptr else None
      ensures forall b :: Holders(handles, b) ==
                          Holders(old(handles), b) + (if kept && other in Holders(old(handles), b) then {h} else {})
      ensures deletedObjects == old(deletedObjects)
    {
      hide Inv, Holders;
      StepKeepsInv(View(), Cast(h, other, kept));
      var ptr := if kept then handles[other].ptr else None;
      forall b
        ensures Holders(handles[h := Handle(ptr, handles[other].block)], b) ==
                Holders(handles, b) + (if kept && other in Holders(handles, b) then {h} else {})
      {
        AddedHolder(handles, h, Handle(ptr, handles[other].block), b);
        NotHolder(handles, other, b);
      }
      Share(h, other, ptr);
    }

    /** What these constructors have in common; `ptr` is what the new handle points to. */
    method Share(h: nat, other: nat, ptr: Option<nat>)
      requires other in handles && (ptr.Some? ==> handles[other].block in counts)
      modifies this
      ensures View() == DoCast(old(View()), h, other, ptr)
    {
      var b := handles[other].block;
      if ptr.Some? {
        counts := counts[b := counts[b] + 1];
      }
      handles := handles[h := Handle(ptr, b)];
    }

    /** The converting move. */
    method Take(h: nat, other: nat)
      requires Valid() && Enabled(View(), Move(h, other))
      modifies this
      ensures Valid() && View() == Do(old(View()), Move(h, other))
      ensures handles[h] == old(handles)[other] && handles[other].ptr.None? && counts == old(counts)
    {
      hide Inv;
      StepKeepsInv(View(), Move(h, other));
      var p := handles[other];
      handles := handles[h := p];
      if p.ptr.Some? {
        handles := handles[other := p.(ptr := None)];
      }
      assert handles == old(handles)[h := p][other := p.(ptr := None)];
    }

    /** `swap`: each takes the other's place and nobody else notices. */
    method Exchange(a: nat, b: nat)
      requires Valid() && Enabled(View(), Swap(a, b))
      modifies this`handles
      ensures Valid() && View() == Do(old(View()), Swap(a, b))
      ensures handles.Keys == old(handles).Keys
      ensures forall g | g in handles ::
                handles[g] == old(handles)[if g == a then b else if g == b then a else g]
      ensures forall c :: |Holders(handles, c)| == |Holders(old(handles), c)|
    {
      hide Inv, Holders;
      StepKeepsInv(View(), Swap(a, b));
      forall c {
        ExchangeHolders(handles, a, b, c);
      }
      var p := handles[a];
      handles := handles[a := handles[b]];
      handles := handles[b := p];
    }

    /** The destructor: the object and its block are deleted exactly if this was the last handle on them. */
    method Release(h: nat)
      requires Valid() && h in handles
      modifies this
      ensures Valid() && View() == Do(old(View()), Destroy(h))
      ensures handles == old(handles) - {h}
      ensures var p := old(handles)[h];
              if p.ptr.Some? && Holders(old(handles), p.block) == {h}
              then deletedObjects == old(deletedObjects) + [p.ptr.value] && p.block !in counts
              else deletedObjects == old(deletedObjects)
    {
      hide Inv, Holders;
      StepKeepsInv(View(), Destroy(h));
      var p := handles[h];
      if p.ptr.Some? {
        LastHolder(View(), h);
      }
      handles := handles - {h};
      if p.ptr.Some? {
        counts := counts[p.block := counts[p.block] - 1];
        if counts[p.block] == 0 {
          counts := counts - {p.block};
          deletedBlocks := deletedBlocks + [p.block];
          deletedObjects := deletedObjects + [p.ptr.value];
          assert counts == old(counts) - {p.block};
        }
      }
    }

    /** `use_count`. */
    method UseCount(h: nat) returns (n: int)
      requires Valid() && h in handles
      ensures n == if handles[h].ptr.Some? then |Holders(handles, handles[h].block)| else 0
    {
      n := if handles[h].ptr.Some? then counts[handles[h].block] else 0;
    }
  }
}
