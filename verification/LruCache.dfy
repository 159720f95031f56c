/** The least-recently-used cache of cppBase/utility/lrucache.h. */
module LruCaches {
  import opened Sequences

  // ----- The cache as a list of entries, most recently touched first

  type Entries<K, V> = seq<(K, V)>

  /** All entries but those of key `k`. */
  function Without<K(==), V>(l: Entries<K, V>, k: K): Entries<K, V> {
    if l == [] then [] else if l[0].0 == k then Without(l[1..], k) else [l[0]] + Without(l[1..], k)
  }

  function Lookup<K(==), V>(l: Entries<K, V>, k: K): Option<V> {
    if l == [] then None else if l[0].0 == k then Some(l[0].1) else Lookup(l[1..], k)
  }

  function Take<T>(n: nat, l: seq<T>): seq<T> {
    if |l| <= n then l else l[..n]
  }

  function Putting<K(==), V>(capacity: nat, l: Entries<K, V>, k: K, v: V): Entries<K, V> {
    Take(capacity, [(k, v)] + Without(l, k))
  }

  /** A hit moves the entry to the front. */
  function Touching<K(==), V>(l: Entries<K, V>, k: K): Entries<K, V> {
    match Lookup(l, k)
    case None => l
    case Some(v) => [(k, v)] + Without(l, k)
  }

  // ----- The cache as an object

  /** A list node; the id stands for its address. */
  datatype Node<K, V> = Node(id: nat, key: K, value: V)

  function Entry<K, V>(n: Node<K, V>): (K, V) {
    (n.key, n.value)
  }

  function EntriesOf<K, V>(list: seq<Node<K, V>>): (l: Entries<K, V>)
    ensures |l| == |list|
  {
    seq(|list|, i requires 0 <= i < |list| => Entry(list[i]))
  }

  /** Position of the node with the given id, or the length. */
  function Position<K, V>(list: seq<Node<K, V>>, id: nat): (i: nat)
    ensures i <= |list| && (i < |list| ==> list[i].id == id)
    ensures forall j | 0 <= j < i :: list[j].id != id
  {
    if list == [] || list[0].id == id then 0 else 1 + Position(list[1..], id)
  }

  /** `s` without its i-th element. */
  function Cut<T>(s: seq<T>, i: nat): (r: seq<T>)
    requires i < |s|
    ensures |r| == |s| - 1 && forall j | 0 <= j < |r| :: r[j] == if j < i then s[j] else s[j + 1]
  {
    s[..i] + s[i + 1..]
  }

  /** `list::erase` of the node with the given id. */
  function RemoveNode<K, V>(list: seq<Node<K, V>>, id: nat): seq<Node<K, V>> {
    var i := Position(list, id);
    if i < |list| then Cut(list, i) else list
  }

  ghost predicate DistinctNodes<K, V>(list: seq<Node<K, V>>) {
    forall i, j | 0 <= i < j < |list| :: list[i].id != list[j].id && list[i].key != list[j].key
  }

  ghost predicate NodesIndexed<K, V>(list: seq<Node<K, V>>, index: map<K, nat>) {
    forall i | 0 <= i < |list| :: list[i].key in index && index[list[i].key] == list[i].id
  }

  ghost predicate KeysListed<K, V>(list: seq<Node<K, V>>, index: map<K, nat>) {
    forall k | k in index :: exists i :: 0 <= i < |list| && list[i].key == k
  }

  /** Ids and keys are distinct, and the index leads from each key to its node. */
  ghost predicate Linked<K, V>(list: seq<Node<K, V>>, index: map<K, nat>) {
    DistinctNodes(list) && NodesIndexed(list, index) && KeysListed(list, index)
  }

  predicate DistinctKeys<K(==), V>(l: Entries<K, V>) {
    forall i, j | 0 <= i < j < |l| :: l[i].0 != l[j].0
  }

  lemma {:induction false} WithoutAbsent<K, V>(l: Entries<K, V>, k: K)
    requires forall i | 0 <= i < |l| :: l[i].0 != k
    ensures Without(l, k) == l && Lookup(l, k).None?
  {
    if l != [] {
      WithoutAbsent(l[1..], k);
    }
  }

  lemma {:induction false} WithoutAt<K, V>(l: Entries<K, V>, i: nat)
    requires i < |l| && DistinctKeys(l)
    ensures Without(l, l[i].0) == Cut(l, i) && Lookup(l, l[i].0) == Some(l[i].1)
    decreases i
  {
    if i == 0 {
      WithoutAbsent(l[1..], l[0].0);
    } else {
      WithoutAt(l[1..], i - 1);
      assert Cut(l, i) == [l[0]] + Cut(l[1..], i - 1);
    }
  }

  lemma PositionIs<K, V>(list: seq<Node<K, V>>, i: nat)
    requires DistinctNodes(list) && i < |list|
    ensures Position(list, list[i].id) == i
  {
    hide Position;
    assert Position(list, list[i].id) <= i;
  }

  lemma EntriesCut<K, V>(list: seq<Node<K, V>>, i: nat)
    requires i < |list|
    ensures EntriesOf(Cut(list, i)) == Cut(EntriesOf(list), i)
  {
    var a, b := EntriesOf(Cut(list, i)), Cut(EntriesOf(list), i);
    assert forall j | 0 <= j < |a| :: a[j] == b[j];
  }

  /** Following the index to a node agrees with searching the entries for the key. */
  lemma FoundNode<K, V>(list: seq<Node<K, V>>, index: map<K, nat>, k: K)
    requires Linked(list, index) && k in index
    ensures var i := Position(list, index[k]);
            && i < |list| && list[i].key == k
            && Lookup(EntriesOf(list), k) == Some(list[i].value)
            && RemoveNode(list, index[k]) == Cut(list, i)
            && EntriesOf(RemoveNode(list, index[k])) == Without(EntriesOf(list), k)
  {
    hide Cut, Position, Without, Lookup;
    var i :| 0 <= i < |list| && list[i].key == k;
    PositionIs(list, i);
    WithoutAt(EntriesOf(list), i);
    EntriesCut(list, i);
  }

  lemma MissingNode<K, V>(list: seq<Node<K, V>>, index: map<K, nat>, k: K)
    requires Linked(list, index) && k !in index
    ensures Lookup(EntriesOf(list), k).None? && Without(EntriesOf(list), k) == EntriesOf(list)
  {
    WithoutAbsent(EntriesOf(list), k);
  }

  lemma RemovalKeepsDistinct<K, V>(list: seq<Node<K, V>>, index: map<K, nat>, i: nat)
    requires Linked(list, index) && i < |list|
    ensures DistinctNodes(Cut(list, i)) && NodesIndexed(Cut(list, i), index - {list[i].key})
  {
    var rest := Cut(list, i);
    hide Cut;
    forall a, b | 0 <= a < b < |rest| ensures rest[a].id != rest[b].id && rest[a].key != rest[b].key {
      var x, y := if a < i then a else a + 1, if b < i then b else b + 1;
      assert rest[a] == list[x] && rest[b] == list[y];
    }
    forall a | 0 <= a < |rest| ensures rest[a].key in index - {list[i].key} && index[rest[a].key] == rest[a].id {
      var x := if a < i then a else a + 1;
      assert rest[a] == list[x];
    }
  }

  lemma RemovalKeepsLinks<K, V>(list: seq<Node<K, V>>, index: map<K, nat>, i: nat)
    requires Linked(list, index) && i < |list|
    ensures Linked(Cut(list, i), index - {list[i].key})
  {
    RemovalKeepsDistinct(list, index, i);
    hide Cut, DistinctNodes, NodesIndexed;
    var rest, less := Cut(list, i), index - {list[i].key};
    forall k | k in less ensures exists j :: 0 <= j < |rest| && rest[j].key == k {
      var j :| 0 <= j < |list| && list[j].key == k;
      assert rest[if j < i then j else j - 1].key == k;
    }
  }

  lemma InsertionKeepsLinks<K, V>(list: seq<Node<K, V>>, index: map<K, nat>, n: Node<K, V>)
    requires Linked(list, index) && n.key !in index && forall i | 0 <= i < |list| :: list[i].id != n.id
    ensures Linked([n] + list, index[n.key := n.id])
  {
    var l, m := [n] + list, index[n.key := n.id];
    forall k | k in m ensures exists j :: 0 <= j < |l| && l[j].key == k {
      if k == n.key {
        assert l[0].key == k;
      } else {
        var j :| 0 <= j < |list| && list[j].key == k;
        assert l[j + 1].key == k;
      }
    }
  }

  /** The map and the list have the same size. */
  lemma {:induction false} SameSize<K, V>(list: seq<Node<K, V>>, index: map<K, nat>)
    requires Linked(list, index)
    ensures |index| == |list|
    decreases |list|
  {
    if list == [] {
      assert index.Keys == {};
    } else {
      var n := |list| - 1;
      RemovalKeepsLinks(list, index, n);
      assert Cut(list, n) == list[..n];
      SameSize(list[..n], index - {list[n].key});
      assert (index - {list[n].key}).Keys == index.Keys - {list[n].key};
    }
  }

  class LruCache<K(==), V> {
    const capacity: nat
    var list: seq<Node<K, V>>
    var index: map<K, nat>
    var nextId: nat

    ghost predicate Valid()
      reads this
    {
      Linked(list, index) && |list| <= capacity && forall i | 0 <= i < |list| :: list[i].id < nextId
    }

    ghost function Contents(): Entries<K, V>
      reads this
    {
      EntriesOf(list)
    }

    constructor (capacity: nat)
      ensures Valid() && this.capacity == capacity && Contents() == []
    {
      this.capacity := capacity;
      list, index, nextId := [], map[], 0;
    }

    /** Room for one entry more than the capacity, between the two halves of `put`. */
    ghost predicate Loose()
      reads this
    {
      Linked(list, index) && |list| <= capacity + 1 && forall i | 0 <= i < |list| :: list[i].id < nextId
    }

    method Put(key: K, value: V)
      requires Valid()
      modifies this
      ensures Valid() && Contents() == Putting(capacity, old(Contents()), key, value)
    {
      Insert(key, value);
      hide Linked, Without;
      SameSize(list, index);
      if |index| > capacity {
        EvictLast();
      }
    }

    /** The new node goes to the front; an old node of the key is erased. */
    method Insert(key: K, value: V)
      requires Valid()
      modifies this
      ensures Loose() && Contents() == [(key, value)] + Without(old(Contents()), key)
    {
      hide Linked, Without, Position, RemoveNode;
      var n := Node(nextId, key, value);
      ghost var rest := list;
      if key in index {
        FoundNode(list, index, key);
        ghost var i := Position(list, index[key]);
        RemovalKeepsLinks(list, index, i);
        rest := RemoveNode(list, index[key]);
        FrontFirst(n, list, index[key]);
        list := [n] + list;
        list := RemoveNode(list, index[key]);
        index := index - {key};
      } else {
        MissingNode(list, index, key);
        list := [n] + list;
      }
      InsertionKeepsLinks(rest, index, n);
      index := index[key := n.id];
      nextId := nextId + 1;
      assert EntriesOf([n] + rest) == [(key, value)] + EntriesOf(rest);
    }

    method EvictLast()
      requires Loose() && |list| == capacity + 1
      modifies this
      ensures Valid() && Contents() == old(Contents())[..capacity]
    {
      hide Linked;
      var last := |list| - 1;
      RemovalKeepsLinks(list, index, last);
      assert Cut(list, last) == list[..last];
      index := index - {list[last].key};
      list := list[..last];
    }

    /** `get`: the value of a present key, which becomes the most recently used. */
    method Get(key: K) returns (r: Option<V>)
      requires Valid()
      modifies this
      ensures Valid() && Contents() == Touching(old(Contents()), key)
      ensures r == Lookup(old(Contents()), key)
    {
      var id := Splice(key);
      if id.None? {
        return None;
      }
      r := Some(list[0].value);
    }

    /** `get_iter`: the node itself, or none for the end of the list. */
    method GetIter(key: K) returns (r: Option<nat>)
      requires Valid()
      modifies this
      ensures Valid() && Contents() == Touching(old(Contents()), key)
      ensures r.Some? <==> Lookup(old(Contents()), key).Some?
      ensures r.Some? ==> list != [] && list[0].id == r.value && list[0].key == key
    {
      r := Splice(key);
    }

    /** Moves the key's node to the front of the list. */
    method Splice(key: K) returns (r: Option<nat>)
      requires Valid()
      modifies this
      ensures Valid() && Contents() == Touching(old(Contents()), key) && index == old(index)
      ensures r.Some? <==> Lookup(old(Contents()), key).Some?
      ensures r.Some? ==> list != [] && list[0].id == r.value && list[0].key == key
      ensures r.Some? ==> Lookup(old(Contents()), key) == Some(list[0].value)
    {
      hide Linked, Without, Lookup;
      if key !in index {
        MissingNode(list, index, key);
        return None;
      }
      FoundNode(list, index, key);
      var i := Position(list, index[key]);
      var n := list[i];
      ghost var rest := RemoveNode(list, index[key]);
      MovingKeepsLinks(list, index, i);
      list := [n] + RemoveNode(list, index[key]);
      assert EntriesOf(list) == [(key, n.value)] + EntriesOf(rest);
      r := Some(index[key]);
    }

    /** `find`: looks without touching. */
    method Find(key: K) returns (r: Option<nat>)
      requires Valid()
      ensures r.Some? <==> Lookup(Contents(), key).Some?
      ensures r.Some? ==> exists i :: 0 <= i < |list| && list[i].id == r.value && list[i].key == key
    {
      if key !in index {
        MissingNode(list, index, key);
        return None;
      }
      FoundNode(list, index, key);
      r := Some(index[key]);
    }

    method Erase(key: K) returns (n: nat)
      requires Valid()
      modifies this
      ensures Valid() && Contents() == Without(old(Contents()), key)
      ensures n == if Lookup(old(Contents()), key).Some? then 1 else 0
    {
      hide Linked, Without, Lookup;
      if key !in index {
        MissingNode(list, index, key);
        return 0;
      }
      FoundNode(list, index, key);
      var id := index[key];
      RemovalKeepsLinks(list, index, Position(list, id));
      list := RemoveNode(list, id);
      index := index - {key};
      n := 1;
    }
  }

  lemma FrontPosition<K, V>(n: Node<K, V>, list: seq<Node<K, V>>, id: nat)
    requires n.id != id
    ensures Position([n] + list, id) == 1 + Position(list, id)
  {
    assert ([n] + list)[1..] == list;
  }

  lemma FrontFirst<K, V>(n: Node<K, V>, list: seq<Node<K, V>>, id: nat)
    requires n.id != id
    ensures RemoveNode([n] + list, id) == [n] + RemoveNode(list, id)
  {
    hide Position;
    FrontPosition(n, list, id);
    var l, i := [n] + list, Position(list, id);
    if i < |list| {
      assert Cut(l, 1 + i) == [n] + Cut(list, i);
    }
  }

  lemma MovingKeepsLinks<K, V>(list: seq<Node<K, V>>, index: map<K, nat>, i: nat)
    requires Linked(list, index) && i < |list|
    ensures Linked([list[i]] + Cut(list, i), index)
  {
    hide Cut;
    var n, rest := list[i], Cut(list, i);
    assert n.key in index && index[n.key] == n.id;
    RemovalKeepsLinks(list, index, i);
    InsertionKeepsLinks(rest, index - {n.key}, n);
    assert (index - {n.key})[n.key := n.id] == index;
  }

  // ----- Whole runs

  /** `get` and `get_iter` are the same to the cache; `find` and `exists` change nothing. */
  datatype Op<K, V> = Put(k: K, v: V) | Get(k: K) | Find(k: K) | Erase(k: K) | Clear

  function Apply<K(==), V>(capacity: nat, l: Entries<K, V>, op: Op<K, V>): Entries<K, V> {
    match op
    case Put(k, v) => Putting(capacity, l, k, v)
    case Get(k) => Touching(l, k)
    case Find(_) => l
    case Erase(k) => Without(l, k)
    case Clear => []
  }

  /** The cache after a run of operations on an empty one. */
  function After<K(==), V>(capacity: nat, ops: seq<Op<K, V>>): Entries<K, V> {
    if ops == [] then []
    else Apply(capacity, After(capacity, ops[..|ops| - 1]), ops[|ops| - 1])
  }

  predicate Touches<K(==), V>(l: Entries<K, V>, op: Op<K, V>, k: K) {
    (op.Put? && op.k == k) || (op.Get? && op.k == k && Lookup(l, k).Some?)
  }

  /** Index of the last operation that touched `k`: a `put`, or a `get` that found it. */
  function TouchTime<K(==), V>(capacity: nat, ops: seq<Op<K, V>>, k: K): (t: int)
    ensures t < |ops|
  {
    if ops == [] then -1
    else
      var n := |ops| - 1;
      if Touches(After(capacity, ops[..n]), ops[n], k) then n else TouchTime(capacity, ops[..n], k)
  }

  /** The value last put under `k` and not erased since. */
  function LastPut<K(==), V>(ops: seq<Op<K, V>>, k: K): Option<V> {
    if ops == [] then None
    else
      var n := |ops| - 1;
      match ops[n]
      case Put(k', v) => if k' == k then Some(v) else LastPut(ops[..n], k)
      case Erase(k') => if k' == k then None else LastPut(ops[..n], k)
      case Clear => None
      case _ => LastPut(ops[..n], k)
  }

  ghost predicate Recent<K, V>(capacity: nat, ops: seq<Op<K, V>>, l: Entries<K, V>) {
    forall i, j | 0 <= i < j < |l| :: TouchTime(capacity, ops, l[i].0) > TouchTime(capacity, ops, l[j].0)
  }

  /** Every entry's value is the one last put. */
  ghost predicate Current<K, V>(ops: seq<Op<K, V>>, l: Entries<K, V>) {
    forall i | 0 <= i < |l| :: LastPut(ops, l[i].0) == Some(l[i].1)
  }

  /** Distinct keys, within capacity, most recently touched first, with current values. */
  ghost predicate Good<K, V>(capacity: nat, ops: seq<Op<K, V>>, l: Entries<K, V>) {
    DistinctKeys(l) && |l| <= capacity && Recent(capacity, ops, l) && Current(ops, l)
  }

  /** Where a key is among distinct ones, if it is there at all. */
  lemma {:induction false} Locate<K, V>(l: Entries<K, V>, k: K) returns (i: nat)
    requires DistinctKeys(l)
    ensures i <= |l| && (Lookup(l, k).Some? <==> i < |l|)
    ensures i < |l| ==> l[i].0 == k && Lookup(l, k) == Some(l[i].1) && Without(l, k) == Cut(l, i)
    ensures i == |l| ==> Without(l, k) == l && forall j | 0 <= j < |l| :: l[j].0 != k
  {
    i := 0;
    while i < |l| && l[i].0 != k
      invariant 0 <= i <= |l| && forall j | 0 <= j < i :: l[j].0 != k
    {
      i := i + 1;
    }
    if i < |l| {
      WithoutAt(l, i);
    } else {
      WithoutAbsent(l, k);
    }
  }

  lemma WithoutKeeps<K, V>(capacity: nat, ops: seq<Op<K, V>>, l: Entries<K, V>, k: K)
    requires DistinctKeys(l) && Recent(capacity, ops, l) && Current(ops, l)
    ensures DistinctKeys(Without(l, k)) && Recent(capacity, ops, Without(l, k)) && Current(ops, Without(l, k))
    ensures forall j | 0 <= j < |Without(l, k)| :: Without(l, k)[j].0 != k
    ensures |Without(l, k)| == if Lookup(l, k).Some? then |l| - 1 else |l|
  {
    var i := Locate(l, k);
    hide Without, Lookup, TouchTime, LastPut;
    if i < |l| {
      CutKeeps(capacity, ops, l, i);
    }
  }

  lemma CutKeeps<K, V>(capacity: nat, ops: seq<Op<K, V>>, l: Entries<K, V>, i: nat)
    requires DistinctKeys(l) && Recent(capacity, ops, l) && Current(ops, l) && i < |l|
    ensures DistinctKeys(Cut(l, i)) && Recent(capacity, ops, Cut(l, i)) && Current(ops, Cut(l, i))
    ensures forall j | 0 <= j < |Cut(l, i)| :: Cut(l, i)[j].0 != l[i].0
  {
    hide TouchTime, LastPut;
    var r := Cut(l, i);
    hide Cut;
    forall a, b | 0 <= a < b < |r|
      ensures r[a].0 != r[b].0 && TouchTime(capacity, ops, r[a].0) > TouchTime(capacity, ops, r[b].0)
    {
      var x, y := if a < i then a else a + 1, if b < i then b else b + 1;
      assert r[a] == l[x] && r[b] == l[y];
    }
    forall a | 0 <= a < |r| ensures LastPut(ops, r[a].0) == Some(r[a].1) && r[a].0 != l[i].0 {
      var x := if a < i then a else a + 1;
      assert r[a] == l[x];
    }
  }

  /** An operation does not change the times and values of the other keys. */
  lemma OthersUnchanged<K, V>(capacity: nat, ops: seq<Op<K, V>>, op: Op<K, V>, k: K)
    requires op.Find? || (!op.Clear? && op.k != k)
    ensures TouchTime(capacity, ops + [op], k) == TouchTime(capacity, ops, k)
    ensures LastPut(ops + [op], k) == LastPut(ops, k)
  {
    assert (ops + [op])[..|ops|] == ops;
  }

  lemma OthersKeep<K, V>(capacity: nat, ops: seq<Op<K, V>>, op: Op<K, V>, l: Entries<K, V>)
    requires Recent(capacity, ops, l) && Current(ops, l)
    requires op.Find? || (!op.Clear? && forall i | 0 <= i < |l| :: l[i].0 != op.k)
    ensures Recent(capacity, ops + [op], l) && Current(ops + [op], l)
    ensures forall i | 0 <= i < |l| :: TouchTime(capacity, ops + [op], l[i].0) < |ops|
  {
    hide TouchTime, LastPut;
    forall i | 0 <= i < |l|
      ensures TouchTime(capacity, ops + [op], l[i].0) == TouchTime(capacity, ops, l[i].0)
      ensures LastPut(ops + [op], l[i].0) == LastPut(ops, l[i].0)
    {
      OthersUnchanged(capacity, ops, op, l[i].0);
    }
  }

  lemma FrontKeeps<K, V>(capacity: nat, ops: seq<Op<K, V>>, l: Entries<K, V>, e: (K, V))
    requires DistinctKeys(l) && Recent(capacity, ops, l) && Current(ops, l)
    requires forall i | 0 <= i < |l| ::
               l[i].0 != e.0 && TouchTime(capacity, ops, l[i].0) < TouchTime(capacity, ops, e.0)
    requires LastPut(ops, e.0) == Some(e.1)
    ensures DistinctKeys([e] + l) && Recent(capacity, ops, [e] + l) && Current(ops, [e] + l)
  {
    hide TouchTime, LastPut;
  }

  lemma PutKeepsGood<K, V>(capacity: nat, ops: seq<Op<K, V>>, k: K, v: V)
    requires Good(capacity, ops, After(capacity, ops))
    ensures Good(capacity, ops + [Put(k, v)], After(capacity, ops + [Put(k, v)]))
  {
    var l, op := After(capacity, ops), Put(k, v);
    var rest := Without(l, k);
    assert (ops + [op])[..|ops|] == ops;
    WithoutKeeps(capacity, ops, l, k);
    OthersKeep(capacity, ops, op, rest);
    FrontKeeps(capacity, ops + [op], rest, (k, v));
  }

  lemma GetKeepsGood<K, V>(capacity: nat, ops: seq<Op<K, V>>, k: K)
    requires Good(capacity, ops, After(capacity, ops))
    ensures Good(capacity, ops + [Get(k)], After(capacity, ops + [Get(k)]))
  {
    var l, op: Op<K, V> := After(capacity, ops), Get(k);
    assert (ops + [op])[..|ops|] == ops;
    var i := Locate(l, k);
    if i < |l| {
      WithoutKeeps(capacity, ops, l, k);
      OthersKeep(capacity, ops, op, Without(l, k));
      FrontKeeps(capacity, ops + [op], Without(l, k), l[i]);
    } else {
      OthersKeep(capacity, ops, op, l);
    }
  }

  lemma {:induction false} RunIsGood<K, V>(capacity: nat, ops: seq<Op<K, V>>)
    ensures Good(capacity, ops, After(capacity, ops))
    decreases |ops|
  {
    if ops != [] {
      var n := |ops| - 1;
      var pre, op := ops[..n], ops[n];
      assert ops == pre + [op];
      RunIsGood(capacity, pre);
      match op
      case Put(k, v) => PutKeepsGood(capacity, pre, k, v);
      case Get(k) => GetKeepsGood(capacity, pre, k);
      case Find(_) => OthersKeep(capacity, pre, op, After(capacity, pre));
      case Erase(k) =>
        WithoutKeeps(capacity, pre, After(capacity, pre), k);
        OthersKeep(capacity, pre, op, Without(After(capacity, pre), k));
      case Clear =>
    }
  }

  // ----- Main results

  /** After any run the keys are distinct, within capacity, and ordered by last touch; values are current. */
  lemma RunIsLeastRecentlyUsed<K, V>(capacity: nat, ops: seq<Op<K, V>>)
    ensures var l := After(capacity, ops);
            && |l| <= capacity
            && (forall i, j | 0 <= i < j < |l| ::
                  l[i].0 != l[j].0 && TouchTime(capacity, ops, l[i].0) > TouchTime(capacity, ops, l[j].0))
            && forall i | 0 <= i < |l| :: LastPut(ops, l[i].0) == Some(l[i].1)
  {
    RunIsGood(capacity, ops);
    hide TouchTime, LastPut, After;
  }

  /**
   * A `put` of `k` loses another key `e` exactly when the cache is full, `k` is new and `e` is the
   * key touched longest ago.
   */
  lemma EvictsLeastRecent<K, V>(capacity: nat, ops: seq<Op<K, V>>, k: K, v: V, e: K)
    requires e != k && Lookup(After(capacity, ops), e).Some?
    ensures var l := After(capacity, ops);
            Lookup(Putting(capacity, l, k, v), e).None? <==>
            && |l| == capacity && Lookup(l, k).None?
            && forall i | 0 <= i < |l| && l[i].0 != e :: TouchTime(capacity, ops, l[i].0) > TouchTime(capacity, ops, e)
  {
    var l := After(capacity, ops);
    RunIsGood(capacity, ops);
    var i := Locate(l, e);
    var j := Locate(l, k);
    LastIsLeast(capacity, ops, l, i);
    WithoutKeeps(capacity, ops, l, k);
    hide TouchTime, LastPut, After;
    KeptByPut(capacity, l, k, v, i, j);
  }

  lemma LastIsLeast<K, V>(capacity: nat, ops: seq<Op<K, V>>, l: Entries<K, V>, i: nat)
    requires DistinctKeys(l) && Recent(capacity, ops, l) && i < |l|
    ensures i == |l| - 1 <==>
            forall j | 0 <= j < |l| && l[j].0 != l[i].0 ::
              TouchTime(capacity, ops, l[j].0) > TouchTime(capacity, ops, l[i].0)
  {
    hide TouchTime;
    if i < |l| - 1 {
      assert l[i + 1].0 != l[i].0 && TouchTime(capacity, ops, l[i].0) > TouchTime(capacity, ops, l[i + 1].0);
    }
  }

  /** Which entries a `put` keeps, by position. */
  lemma KeptByPut<K, V>(capacity: nat, l: Entries<K, V>, k: K, v: V, i: nat, j: nat)
    requires DistinctKeys(l) && |l| <= capacity && i < |l| && l[i].0 != k
    requires j <= |l| && (if j < |l| then l[j].0 == k else forall x | 0 <= x < |l| :: l[x].0 != k)
    ensures Lookup(Putting(capacity, l, k, v), l[i].0).None? <==> |l| == capacity && j == |l| && i == |l| - 1
  {
    var j' := Locate(l, k);
    var r := Putting(capacity, l, k, v);
    var at := if i < j then i + 1 else i;
    if j < |l| {
      PresentAt(r, at, l[i]);
    } else if at < |r| {
      PresentAt(r, at, l[i]);
    } else {
      WithoutAbsent(r, l[i].0);
    }
  }

  // ----- Which keys are in the cache

  /** The keys touched after the operation at `t`. */
  function TouchedSince<K(==), V>(capacity: nat, ops: seq<Op<K, V>>, t: int): set<K> {
    if |ops| - 1 <= t || ops == [] then {}
    else
      var n := |ops| - 1;
      var since := TouchedSince(capacity, ops[..n], t);
      if (ops[n].Put? || ops[n].Get?) && Touches(After(capacity, ops[..n]), ops[n], ops[n].k)
      then since + {ops[n].k} else since
  }

  /** The keys of `since` come first and `k` right after them, or there is no room left for `k`. */
  ghost predicate Behind<K, V>(capacity: nat, l: Entries<K, V>, since: set<K>, k: K) {
    if |since| < capacity then
      |since| < |l| && l[|since|].0 == k && forall i | 0 <= i < |since| :: l[i].0 in since
    else forall i | 0 <= i < |l| :: l[i].0 != k
  }

  /** Distinct keys of a set, as many as it has, are all of it. */
  lemma {:induction false} Enumerated<K, V>(l: Entries<K, V>, s: set<K>, x: K)
    requires DistinctKeys(l) && |s| <= |l| && x in s
    requires forall i | 0 <= i < |s| :: l[i].0 in s
    ensures exists i :: 0 <= i < |s| && l[i].0 == x
    decreases |s|
  {
    if l[0].0 != x {
      Enumerated(l[1..], s - {l[0].0}, x);
      var i :| 0 <= i < |s| - 1 && l[1..][i].0 == x;
      assert l[i + 1].0 == x;
    }
  }

  /** The list with `e` moved or added to the front, before anything is cut off. */
  lemma FrontShifts<K, V>(l: Entries<K, V>, e: (K, V), j: nat)
    requires j <= |l| && Without(l, e.0) == if j < |l| then Cut(l, j) else l
    ensures var r := [e] + Without(l, e.0);
            && |r| == (if j < |l| then |l| else |l| + 1) && r[0] == e
            && (forall i | 0 <= i < |l| && i < j :: r[i + 1] == l[i])
            && (forall i | j < i < |l| :: r[i] == l[i])
            && (forall i | 0 < i < |r| :: r[i] in l)
  {
    hide Without;
  }

  /** Touching a key that was touched since already. */
  lemma AgainToFront<K, V>(capacity: nat, l: Entries<K, V>, r: Entries<K, V>, since: set<K>, k: K, j: nat)
    requires |since| < capacity && Behind(capacity, l, since, k)
    requires j < |since| && |r| == |l| && r[0].0 in since
    requires (forall i | 0 <= i < j :: r[i + 1] == l[i]) && (forall i | j < i < |l| :: r[i] == l[i])
    ensures Behind(capacity, r, since, k)
  {
    forall i | 0 <= i < |since| ensures r[i].0 in since {
      assert i == 0 || i > j || r[(i - 1) + 1] == l[i - 1];
    }
  }

  /** Touching another one moves `k` back, or out. */
  lemma NewToFront<K, V>(capacity: nat, l: Entries<K, V>, r: Entries<K, V>, since: set<K>, k: K, x: K)
    requires DistinctKeys(l) && |since| < capacity && Behind(capacity, l, since, k)
    requires x !in since && x != k && |r| >= |since| + 2 && r[0].0 == x
    requires forall i | 0 <= i <= |since| :: r[i + 1] == l[i]
    ensures Behind(capacity, Take(capacity, r), since + {x}, k)
  {
    var n, q, s := |since|, Take(capacity, r), since + {x};
    assert |s| == n + 1;
    forall i | 0 <= i <= n ensures q[i].0 in s && q[i].0 != k {
      if i > 0 {
        assert q[i] == r[(i - 1) + 1] == l[i - 1];
        assert l[i - 1].0 in since && l[n].0 == k;
      }
    }
  }

  lemma FrontWithRoom<K, V>(capacity: nat, l: Entries<K, V>, since: set<K>, k: K, e: (K, V), j: nat)
    requires DistinctKeys(l) && |l| <= capacity && |since| < capacity && Behind(capacity, l, since, k) && e.0 != k
    requires j <= |l| && (if j < |l| then l[j].0 == e.0 else forall i | 0 <= i < |l| :: l[i].0 != e.0)
    requires Without(l, e.0) == if j < |l| then Cut(l, j) else l
    ensures Behind(capacity, Take(capacity, [e] + Without(l, e.0)), since + {e.0}, k)
  {
    hide Behind, DistinctKeys, Without, Cut, Take;
    FrontShifts(l, e, j);
    WhereAmong(capacity, l, since, k, e.0, j);
    var r := [e] + Without(l, e.0);
    if e.0 in since {
      assert since + {e.0} == since;
      TakeAll(capacity, r);
      AgainToFront(capacity, l, r, since, k, j);
    } else {
      NewToFront(capacity, l, r, since, k, e.0);
    }
  }

  lemma TakeAll<T>(n: nat, l: seq<T>)
    requires |l| <= n
    ensures Take(n, l) == l
  {
  }

  /** A key touched since stands before `k`, any other one behind it or nowhere. */
  lemma WhereAmong<K, V>(capacity: nat, l: Entries<K, V>, since: set<K>, k: K, x: K, j: nat)
    requires DistinctKeys(l) && |since| < capacity && Behind(capacity, l, since, k) && x != k
    requires j <= |l| && (if j < |l| then l[j].0 == x else forall i | 0 <= i < |l| :: l[i].0 != x)
    ensures |since| < |l| && if x in since then j < |since| else j > |since|
  {
    if x in since {
      Enumerated(l, since, x);
    }
  }

  lemma FrontMoves<K, V>(capacity: nat, l: Entries<K, V>, since: set<K>, k: K, e: (K, V))
    requires DistinctKeys(l) && |l| <= capacity && Behind(capacity, l, since, k) && e.0 != k
    ensures Behind(capacity, Take(capacity, [e] + Without(l, e.0)), since + {e.0}, k)
  {
    hide Without, Lookup, Cut;
    var j := Locate(l, e.0);
    if |since| < capacity {
      FrontWithRoom(capacity, l, since, k, e, j);
    } else {
      FrontWithoutRoom(capacity, l, k, e, j);
      if e.0 in since {
        assert since + {e.0} == since;
      } else {
        assert |since + {e.0}| == |since| + 1;
      }
    }
  }

  lemma FrontWithoutRoom<K, V>(capacity: nat, l: Entries<K, V>, k: K, e: (K, V), j: nat)
    requires e.0 != k && forall i | 0 <= i < |l| :: l[i].0 != k
    requires j <= |l| && Without(l, e.0) == if j < |l| then Cut(l, j) else l
    ensures var r := Take(capacity, [e] + Without(l, e.0)); forall i | 0 <= i < |r| :: r[i].0 != k
  {
    hide Without, Cut;
    FrontShifts(l, e, j);
    assert forall x | x in l :: x.0 != k;
  }

  lemma {:induction false} StaysBehind<K, V>(capacity: nat, ops: seq<Op<K, V>>, k: K)
    requires TouchTime(capacity, ops, k) >= 0
    requires forall i | TouchTime(capacity, ops, k) < i < |ops| :: !ops[i].Erase? && !ops[i].Clear?
    ensures Behind(capacity, After(capacity, ops), TouchedSince(capacity, ops, TouchTime(capacity, ops, k)), k)
    decreases |ops|
  {
    var t, n := TouchTime(capacity, ops, k), |ops| - 1;
    var pre, op := ops[..n], ops[n];
    var l := After(capacity, pre);
    RunIsGood(capacity, pre);
    if t < n {
      StaysBehind(capacity, pre, k);
      BehindNext(capacity, l, TouchedSince(capacity, pre, t), k, op);
    } else {
      BehindFirst(capacity, l, k, op);
    }
  }

  lemma BehindFirst<K, V>(capacity: nat, l: Entries<K, V>, k: K, op: Op<K, V>)
    requires Touches(l, op, k) && |l| <= capacity
    ensures Behind(capacity, Apply(capacity, l, op), {}, k)
  {
  }

  lemma BehindNext<K, V>(capacity: nat, l: Entries<K, V>, since: set<K>, k: K, op: Op<K, V>)
    requires DistinctKeys(l) && |l| <= capacity && Behind(capacity, l, since, k)
    requires !Touches(l, op, k) && !op.Erase? && !op.Clear?
    ensures var now := if (op.Put? || op.Get?) && Touches(l, op, op.k) then since + {op.k} else since;
            Behind(capacity, Apply(capacity, l, op), now, k)
  {
    match op
    case Put(x, v) => FrontMoves(capacity, l, since, k, (x, v));
    case Get(x) =>
      var j := Locate(l, x);
      if j < |l| {
        FrontMoves(capacity, l, since, k, l[j]);
      }
    case Find(_) =>
  }

  /**
   * While nothing is erased after its last touch, a key is in the cache exactly if fewer than `capacity`
   * distinct keys were touched since.
   */
  lemma PresentIff<K, V>(capacity: nat, ops: seq<Op<K, V>>, k: K)
    requires TouchTime(capacity, ops, k) >= 0
    requires forall i | TouchTime(capacity, ops, k) < i < |ops| :: !ops[i].Erase? && !ops[i].Clear?
    ensures Lookup(After(capacity, ops), k).Some? <==>
            |TouchedSince(capacity, ops, TouchTime(capacity, ops, k))| < capacity
  {
    var l, since := After(capacity, ops), TouchedSince(capacity, ops, TouchTime(capacity, ops, k));
    StaysBehind(capacity, ops, k);
    hide After, TouchedSince, TouchTime;
    if |since| < capacity {
      PresentAt(l, |since|, l[|since|]);
    } else {
      WithoutAbsent(l, k);
    }
  }

  lemma {:induction false} PresentAt<K, V>(l: Entries<K, V>, i: nat, e: (K, V))
    requires i < |l| && l[i] == e
    ensures Lookup(l, e.0).Some?
  {
    if l[0].0 != e.0 {
      PresentAt(l[1..], i - 1, e);
    }
  }
}
