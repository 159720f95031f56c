/** The timer queue of cppBase/utility/AsyncTimer.cpp. */
module AsyncTimers {
  import opened Sequences

  /** A registration; the id stands for its callback and tells registrations of one name apart. */
  datatype Event = Event(id: nat, isTimer: bool, interval: int)

  /** An entry of the multimap of pending times. */
  datatype Entry = Entry(time: int, name: string)

  /** The pending times in ascending order, and the registered names. */
  datatype State = State(timers: seq<Entry>, events: map<string, Event>)

  /** `multimap::insert`: after the entries that are not later. */
  function Insert(timers: seq<Entry>, e: Entry): seq<Entry> {
    if timers == [] || e.time < timers[0].time then [e] + timers
    else [timers[0]] + Insert(timers[1..], e)
  }

  /** `addTimer`. */
  function WithTimer(s: State, now: int, name: string, interval: int, id: nat): State {
    State(Insert(s.timers, Entry(now + interval, name)), s.events[name := Event(id, true, interval)])
  }

  /** `addAfter`. */
  function WithAfter(s: State, now: int, name: string, wait: int, id: nat): State {
    State(Insert(s.timers, Entry(now + wait, name)), s.events[name := Event(id, false, 0)])
  }

  /** `delTimer` and `delAfter`: the pending times of the name stay. */
  function WithoutName(s: State, name: string): State {
    s.(events := s.events - {name})
  }

  /** The loop of `check` has something to do. */
  predicate Due(s: State, now: int) {
    s.timers != [] && s.timers[0].time <= now
  }

  /** What one iteration selects: the registration of the popped name, if there is one. */
  function Picked(s: State, now: int): Option<Event>
    requires Due(s, now)
  {
    var name := s.timers[0].name;
    if name in s.events then Some(s.events[name]) else None
  }

  /** One iteration of the loop of `check`. */
  function CheckOne(s: State, now: int): State
    requires Due(s, now)
  {
    var name := s.timers[0].name;
    var rest := s.timers[1..];
    match Picked(s, now)
    case None => State(rest, s.events)
    case Some(ev) =>
      if ev.isTimer then State(Insert(rest, Entry(now + ev.interval, name)), s.events)
      else State(rest, s.events - {name})
  }

  // ----- When the loop ends

  predicate Sorted(timers: seq<Entry>) {
    forall i, j | 0 <= i < j < |timers| :: timers[i].time <= timers[j].time
  }

  /** The number of pending entries that are due. */
  function DueCount(timers: seq<Entry>, now: int): nat {
    if timers == [] then 0 else (if timers[0].time <= now then 1 else 0) + DueCount(timers[1..], now)
  }

  /** The number of them that belong to one name. */
  function DueOf(timers: seq<Entry>, now: int, name: string): nat {
    if timers == [] then 0
    else (if timers[0].time <= now && timers[0].name == name then 1 else 0) + DueOf(timers[1..], now, name)
  }

  /** No due name repeats at an interval that is due again at once. */
  ghost predicate Settles(s: State, now: int) {
    forall e | e in s.timers && e.time <= now && e.name in s.events ::
      s.events[e.name].isTimer ==> s.events[e.name].interval > 0
  }

  lemma {:induction false} InsertCounts(timers: seq<Entry>, e: Entry, now: int, name: string)
    ensures DueCount(Insert(timers, e), now) == DueCount(timers, now) + (if e.time <= now then 1 else 0)
    ensures DueOf(Insert(timers, e), now, name) ==
            DueOf(timers, now, name) + (if e.time <= now && e.name == name then 1 else 0)
    decreases |timers|
  {
    if timers == [] || e.time < timers[0].time {
      assert ([e] + timers)[1..] == timers;
    } else {
      InsertCounts(timers[1..], e, now, name);
      assert ([timers[0]] + Insert(timers[1..], e))[1..] == Insert(timers[1..], e);
    }
  }

  /** A new entry goes behind all entries that are not later, those of the same time included. */
  lemma {:induction false} InsertsBehindEqual(timers: seq<Entry>, e: Entry) returns (i: nat)
    requires Sorted(timers)
    ensures i <= |timers| && Insert(timers, e) == timers[..i] + [e] + timers[i..]
    ensures forall j | 0 <= j < |timers| :: j < i <==> timers[j].time <= e.time
    decreases |timers|
  {
    if timers == [] || e.time < timers[0].time {
      i := 0;
    } else {
      assert Sorted(timers[1..]);
      var k := InsertsBehindEqual(timers[1..], e);
      i := k + 1;
      forall j | 0 <= j < |timers| ensures j < i <==> timers[j].time <= e.time {
        assert j == 0 || timers[j] == timers[1..][j - 1];
      }
      assert timers[..i] == [timers[0]] + timers[1..][..k] && timers[i..] == timers[1..][k..];
    }
  }

  lemma {:induction false} InsertMembers(timers: seq<Entry>, e: Entry)
    ensures forall x :: x in Insert(timers, e) <==> x in timers || x == e
    ensures Sorted(timers) ==> Sorted(Insert(timers, e))
    ensures |Insert(timers, e)| == |timers| + 1
    decreases |timers|
  {
    if timers == [] || e.time < timers[0].time {
    } else {
      InsertMembers(timers[1..], e);
      var r := Insert(timers[1..], e);
      assert forall x :: x in timers <==> x == timers[0] || x in timers[1..];
      if Sorted(timers) {
        forall i, j | 0 <= i < j < |[timers[0]] + r|
          ensures ([timers[0]] + r)[i].time <= ([timers[0]] + r)[j].time
        {
          assert r[j - 1] in r;
        }
      }
    }
  }

  lemma {:induction false} NothingDue(timers: seq<Entry>, now: int)
    requires Sorted(timers)
    ensures DueCount(timers, now) == 0 <==> timers == [] || timers[0].time > now
    ensures DueCount(timers, now) == 0 ==> forall e | e in timers :: e.time > now
  {
    if timers != [] && timers[0].time > now {
      assert Sorted(timers[1..]);
      NothingDue(timers[1..], now);
    }
  }

  lemma IterationCounts(s: State, now: int, name: string)
    requires Due(s, now)
    requires var n := s.timers[0].name; n in s.events && s.events[n].isTimer ==> s.events[n].interval > 0
    ensures var t := CheckOne(s, now);
            && DueCount(t.timers, now) == DueCount(s.timers, now) - 1
            && DueOf(t.timers, now, name) == DueOf(s.timers, now, name) - (if s.timers[0].name == name then 1 else 0)
  {
    var first, rest := s.timers[0], s.timers[1..];
    if first.name in s.events && s.events[first.name].isTimer {
      InsertCounts(rest, Entry(now + s.events[first.name].interval, first.name), now, name);
    }
  }

  /** What an iteration leaves pending. */
  lemma IterationMembers(s: State, now: int)
    requires Sorted(s.timers) && Due(s, now)
    ensures var t := CheckOne(s, now);
            && Sorted(t.timers)
            && forall e | e in t.timers ::
                 e in s.timers ||
                 (e.name == s.timers[0].name && e.name in s.events && s.events[e.name].isTimer &&
                  e.time == now + s.events[e.name].interval)
    ensures forall e | e in s.timers :: e in CheckOne(s, now).timers || e == s.timers[0]
    ensures forall n | n in CheckOne(s, now).events :: n in s.events && CheckOne(s, now).events[n] == s.events[n]
  {
    var first, rest := s.timers[0], s.timers[1..];
    assert forall e | e in s.timers :: e == first || e in rest;
    assert Sorted(rest);
    if first.name in s.events && s.events[first.name].isTimer {
      InsertMembers(rest, Entry(now + s.events[first.name].interval, first.name));
    }
    hide Insert, Sorted;
  }

  /** An iteration keeps the order, and reinserted entries are not due when intervals are positive. */
  lemma OneIteration(s: State, now: int, name: string)
    requires Sorted(s.timers) && Due(s, now) && Settles(s, now)
    ensures var t := CheckOne(s, now);
            && Sorted(t.timers) && Settles(t, now)
            && DueCount(t.timers, now) == DueCount(s.timers, now) - 1
            && DueOf(t.timers, now, name) == DueOf(s.timers, now, name) - (if s.timers[0].name == name then 1 else 0)
  {
    hide CheckOne, DueCount, DueOf, Sorted;
    assert s.timers[0] in s.timers;
    IterationCounts(s, now, name);
    IterationMembers(s, now);
  }

  function Iterate(s: State, now: int, n: nat): State
    decreases n
  {
    if n == 0 || !Due(s, now) then s else Iterate(CheckOne(s, now), now, n - 1)
  }

  /** After some number of iterations nothing is due. */
  ghost predicate Halts(s: State, now: int) {
    exists n: nat :: !Due(Iterate(s, now, n), now)
  }

  lemma {:induction false} SettlesHalts(s: State, now: int)
    requires Sorted(s.timers) && Settles(s, now)
    ensures !Due(Iterate(s, now, DueCount(s.timers, now)), now)
    decreases DueCount(s.timers, now)
  {
    NothingDue(s.timers, now);
    if Due(s, now) {
      OneIteration(s, now, "");
      SettlesHalts(CheckOne(s, now), now);
    }
  }

  lemma UnsettledStays(s: State, now: int)
    requires Sorted(s.timers) && !Settles(s, now)
    ensures Due(s, now) && Sorted(CheckOne(s, now).timers) && !Settles(CheckOne(s, now), now)
  {
    var e :| e in s.timers && e.time <= now && e.name in s.events &&
             s.events[e.name].isTimer && s.events[e.name].interval <= 0;
    var i :| 0 <= i < |s.timers| && s.timers[i] == e;
    assert s.timers[0].time <= s.timers[i].time;
    var t := CheckOne(s, now);
    var first, rest := s.timers[0], s.timers[1..];
    if first.name in s.events && s.events[first.name].isTimer {
      var again := Entry(now + s.events[first.name].interval, first.name);
      InsertMembers(rest, again);
      assert again in t.timers;
    }
    var bad := if i == 0 then Entry(now + s.events[e.name].interval, e.name) else e;
    if i > 0 {
      assert rest[i - 1] == e;
    }
    assert bad in t.timers && bad.time <= now && bad.name in t.events;
  }

  lemma {:induction false} UnsettledNeverEnds(s: State, now: int, n: nat)
    requires Sorted(s.timers) && !Settles(s, now)
    ensures Due(Iterate(s, now, n), now)
    decreases n
  {
    UnsettledStays(s, now);
    if n > 0 {
      UnsettledNeverEnds(CheckOne(s, now), now, n - 1);
    }
  }

  /** `check` ends exactly when no due name repeats at a non-positive interval. */
  lemma CheckEndsIff(s: State, now: int)
    requires Sorted(s.timers)
    ensures Halts(s, now) <==> Settles(s, now)
  {
    if Settles(s, now) {
      SettlesHalts(s, now);
    } else {
      forall n: nat ensures Due(Iterate(s, now, n), now) {
        UnsettledNeverEnds(s, now, n);
      }
    }
  }

  // ----- What a whole check does

  /** The state after the loop and the registrations it selected, each under its name. */
  ghost function CheckAll(s: State, now: int): (State, seq<(string, Event)>)
    requires Sorted(s.timers) && Settles(s, now)
    decreases DueCount(s.timers, now)
  {
    if !Due(s, now) then (s, [])
    else
      OneIteration(s, now, "");
      var name := s.timers[0].name;
      var r := CheckAll(CheckOne(s, now), now);
      (r.0, (if name in s.events then [(name, s.events[name])] else []) + r.1)
  }

  lemma CheckUnfolds(s: State, now: int)
    requires Sorted(s.timers) && Settles(s, now)
    ensures !Due(s, now) ==> CheckAll(s, now) == (s, [])
    ensures Due(s, now) ==>
              var t, name := CheckOne(s, now), s.timers[0].name;
              && Sorted(t.timers) && Settles(t, now)
              && CheckAll(s, now).0 == CheckAll(t, now).0
              && CheckAll(s, now).1 == (if name in s.events then [(name, s.events[name])] else []) + CheckAll(t, now).1
  {
    if Due(s, now) {
      OneIteration(s, now, "");
    }
  }

  function CountOf(selected: seq<(string, Event)>, name: string): nat {
    if selected == [] then 0 else (if selected[0].0 == name then 1 else 0) + CountOf(selected[1..], name)
  }

  /** How often a name is due to be selected: once for each due entry, but a one-shot only once. */
  function Expected(s: State, now: int, name: string): nat {
    if name !in s.events then 0
    else if s.events[name].isTimer then DueOf(s.timers, now, name)
    else if DueOf(s.timers, now, name) > 0 then 1 else 0
  }

  lemma {:induction false} CheckSelects(s: State, now: int, name: string)
    requires Sorted(s.timers) && Settles(s, now)
    ensures CountOf(CheckAll(s, now).1, name) == Expected(s, now, name)
    ensures forall p | p in CheckAll(s, now).1 :: p.0 in s.events && p.1 == s.events[p.0]
    decreases DueCount(s.timers, now)
  {
    hide DueOf, Insert, Sorted, Settles, DueCount;
    if Due(s, now) {
      OneIteration(s, now, name);
      assert DueOf(s.timers, now, s.timers[0].name) > 0 by {
        FirstIsDue(s.timers, now);
      }
      var t, first := CheckOne(s, now), s.timers[0].name;
      CheckSelects(t, now, name);
      var sel := CheckAll(t, now).1;
      if first in s.events {
        assert ([(first, s.events[first])] + sel)[1..] == sel;
      } else {
        assert [] + sel == sel;
      }
    } else {
      NotDueOf(s.timers, now, name);
    }
  }

  /** The due entries in queue order, without unregistered names, and with a one-shot only the first time. */
  function InOrder(timers: seq<Entry>, events: map<string, Event>, now: int): seq<(string, Event)> {
    if timers == [] || timers[0].time > now then []
    else
      var name, rest := timers[0].name, timers[1..];
      if name !in events then InOrder(rest, events, now)
      else
        var ev := events[name];
        [(name, ev)] + InOrder(rest, if ev.isTimer then events else events - {name}, now)
  }

  lemma {:induction false} LaterIsIgnored(timers: seq<Entry>, e: Entry, events: map<string, Event>, now: int)
    requires e.time > now
    ensures InOrder(Insert(timers, e), events, now) == InOrder(timers, events, now)
    decreases |timers|
  {
    if timers != [] && timers[0].time <= now {
      var name, rest := timers[0].name, timers[1..];
      var after := if name in events && !events[name].isTimer then events - {name} else events;
      assert ([timers[0]] + Insert(rest, e))[1..] == Insert(rest, e);
      LaterIsIgnored(rest, e, after, now);
    }
  }

  /** A check selects the registrations in the order of their due entries. */
  lemma {:induction false} CheckRunsInOrder(s: State, now: int)
    requires Sorted(s.timers) && Settles(s, now)
    ensures CheckAll(s, now).1 == InOrder(s.timers, s.events, now)
    decreases DueCount(s.timers, now)
  {
    hide Insert, Sorted, DueCount;
    if Due(s, now) {
      OneIteration(s, now, "");
      CheckRunsInOrder(CheckOne(s, now), now);
      var first := s.timers[0];
      assert first in s.timers;
      if first.name in s.events && s.events[first.name].isTimer {
        LaterIsIgnored(s.timers[1..], Entry(now + s.events[first.name].interval, first.name), s.events, now);
      }
    }
  }

  lemma FirstIsDue(timers: seq<Entry>, now: int)
    requires timers != [] && timers[0].time <= now
    ensures DueOf(timers, now, timers[0].name) > 0
  {
  }

  lemma {:induction false} NotDueOf(timers: seq<Entry>, now: int, name: string)
    requires Sorted(timers) && (timers == [] || timers[0].time > now)
    ensures DueOf(timers, now, name) == 0
  {
    if timers != [] {
      assert timers[1..] == [] || timers[1..][0] == timers[1];
      NotDueOf(timers[1..], now, name);
    }
  }

  /** After the loop only later entries are left, and the one-shots it selected are gone. */
  lemma {:induction false} CheckLeaves(s: State, now: int)
    requires Sorted(s.timers) && Settles(s, now)
    ensures var t := CheckAll(s, now).0;
            && Sorted(t.timers) && (forall e | e in t.timers :: e.time > now)
            && forall name :: name in t.events <==>
                              name in s.events && (s.events[name].isTimer || DueOf(s.timers, now, name) == 0)
    ensures forall name | name in CheckAll(s, now).0.events :: CheckAll(s, now).0.events[name] == s.events[name]
    decreases DueCount(s.timers, now)
  {
    if Due(s, now) {
      OneIteration(s, now, "");
      CheckLeaves(CheckOne(s, now), now);
      forall name ensures DueOf(CheckOne(s, now).timers, now, name) ==
                          DueOf(s.timers, now, name) - (if s.timers[0].name == name then 1 else 0) {
        OneIteration(s, now, name);
      }
      hide DueOf, Sorted, Insert;
    } else {
      NothingDue(s.timers, now);
      forall name ensures DueOf(s.timers, now, name) == 0 {
        NotDueOf(s.timers, now, name);
      }
    }
  }

  // ----- What a check leaves pending

  predicate Repeats(s: State, name: string) {
    name in s.events && s.events[name].isTimer
  }

  /** The number of pending entries of a name. */
  function PendingOf(timers: seq<Entry>, name: string): nat {
    if timers == [] then 0 else (if timers[0].name == name then 1 else 0) + PendingOf(timers[1..], name)
  }

  lemma {:induction false} InsertAdds(timers: seq<Entry>, e: Entry, name: string)
    ensures multiset(Insert(timers, e)) == multiset(timers) + multiset{e}
    ensures PendingOf(Insert(timers, e), name) == PendingOf(timers, name) + (if e.name == name then 1 else 0)
    decreases |timers|
  {
    if timers == [] || e.time < timers[0].time {
      assert ([e] + timers)[1..] == timers;
    } else {
      InsertAdds(timers[1..], e, name);
      assert timers == [timers[0]] + timers[1..];
      assert ([timers[0]] + Insert(timers[1..], e))[1..] == Insert(timers[1..], e);
    }
  }

  /** An iteration takes the first entry, and puts a later one in its place if the name repeats. */
  lemma IterationShape(s: State, now: int)
    requires Due(s, now)
    ensures var first, rest := s.timers[0], s.timers[1..];
            CheckOne(s, now) ==
            if Repeats(s, first.name)
            then State(Insert(rest, Entry(now + s.events[first.name].interval, first.name)), s.events)
            else State(rest, s.events - {first.name})
  {
    hide Insert;
    var name := s.timers[0].name;
    if name !in s.events {
      assert s.events - {name} == s.events;
    }
  }

  lemma FirstAndRest(timers: seq<Entry>, name: string)
    requires timers != []
    ensures multiset(timers) == multiset{timers[0]} + multiset(timers[1..])
    ensures PendingOf(timers, name) == (if timers[0].name == name then 1 else 0) + PendingOf(timers[1..], name)
  {
    assert timers == [timers[0]] + timers[1..];
  }

  /** What it does to the multiplicity of an entry and to the number of entries of a name. */
  lemma IterationReplaces(s: State, now: int, e: Entry, name: string)
    requires Due(s, now)
    ensures var first, t := s.timers[0], CheckOne(s, now);
            var back := Repeats(s, first.name);
            && multiset(t.timers)[e] == multiset(s.timers)[e] - (if e == first then 1 else 0) +
               (if back && e == Entry(now + s.events[first.name].interval, first.name) then 1 else 0)
            && PendingOf(t.timers, name) == PendingOf(s.timers, name) - (if !back && first.name == name then 1 else 0)
            && t.events == if back then s.events else s.events - {first.name}
  {
    hide Insert, CheckOne, PendingOf;
    var first, rest := s.timers[0], s.timers[1..];
    IterationShape(s, now);
    FirstAndRest(s.timers, name);
    if Repeats(s, first.name) {
      InsertAdds(rest, Entry(now + s.events[first.name].interval, first.name), name);
    }
  }

  /**
   * Every entry pending after a check was pending and not due, or replaces a due one of its name: each due
   * entry of a name that repeats comes back one interval after the check, with its multiplicity.
   */
  lemma {:induction false} CheckPending(s: State, now: int, e: Entry)
    requires Sorted(s.timers) && Settles(s, now) && e.time > now
    ensures multiset(CheckAll(s, now).0.timers)[e] ==
            multiset(s.timers)[e] +
            (if Repeats(s, e.name) && e.time == now + s.events[e.name].interval
             then DueOf(s.timers, now, e.name) else 0)
    decreases DueCount(s.timers, now)
  {
    hide DueOf, Insert, Sorted, Settles, DueCount, CheckOne;
    CheckUnfolds(s, now);
    if Due(s, now) {
      OneIteration(s, now, e.name);
      IterationReplaces(s, now, e, e.name);
      CheckPending(CheckOne(s, now), now, e);
    } else {
      NotDueOf(s.timers, now, e.name);
    }
  }

  /**
   * A check keeps the number of pending entries of a name that repeats, so a name registered twice goes on
   * firing twice an interval. It takes the due entries of every other name.
   */
  lemma {:induction false} CheckKeepsCount(s: State, now: int, name: string)
    requires Sorted(s.timers) && Settles(s, now)
    ensures PendingOf(CheckAll(s, now).0.timers, name) ==
            PendingOf(s.timers, name) - (if Repeats(s, name) then 0 else DueOf(s.timers, now, name))
    decreases DueCount(s.timers, now)
  {
    hide DueOf, Insert, Sorted, Settles, DueCount, CheckOne, PendingOf;
    CheckUnfolds(s, now);
    if Due(s, now) {
      OneIteration(s, now, name);
      IterationReplaces(s, now, s.timers[0], name);
      CheckKeepsCount(CheckOne(s, now), now, name);
    } else {
      NotDueOf(s.timers, now, name);
    }
  }

  // ----- What a registration changes

  /** How often a check would select a name. */
  ghost function Selections(s: State, at: int, name: string): nat
    requires Sorted(s.timers) && Settles(s, at)
  {
    CountOf(CheckAll(s, at).1, name)
  }

  /** A new repeating registration adds one selection to a check that its first time is not after. */
  lemma TimerFires(s: State, now: int, name: string, interval: int, id: nat, at: int)
    requires Sorted(s.timers) && Settles(WithTimer(s, now, name, interval, id), at)
    ensures Sorted(WithTimer(s, now, name, interval, id).timers)
    ensures CountOf(CheckAll(WithTimer(s, now, name, interval, id), at).1, name) ==
            DueOf(s.timers, at, name) + (if now + interval <= at then 1 else 0)
  {
    InsertMembers(s.timers, Entry(now + interval, name));
    InsertCounts(s.timers, Entry(now + interval, name), at, name);
    CheckSelects(WithTimer(s, now, name, interval, id), at, name);
  }

  /**
   * A new one-shot registration is selected once by a check at `at` exactly when its time has come or
   * when its name still had an entry due by then: a pending entry of a deleted or replaced
   * registration fires the new one early.
   */
  lemma OneShotFires(s: State, now: int, name: string, wait: int, id: nat, at: int)
    requires Sorted(s.timers) && Settles(WithAfter(s, now, name, wait, id), at)
    ensures Sorted(WithAfter(s, now, name, wait, id).timers)
    ensures CountOf(CheckAll(WithAfter(s, now, name, wait, id), at).1, name) ==
            if now + wait <= at || DueOf(s.timers, at, name) > 0 then 1 else 0
  {
    InsertMembers(s.timers, Entry(now + wait, name));
    InsertCounts(s.timers, Entry(now + wait, name), at, name);
    CheckSelects(WithAfter(s, now, name, wait, id), at, name);
  }

  lemma {:induction false} DueArePending(timers: seq<Entry>, at: int, name: string)
    ensures DueOf(timers, at, name) <= PendingOf(timers, name)
  {
    if timers != [] {
      DueArePending(timers[1..], at, name);
    }
  }

  /** A name with a single pending entry is due from its time on. */
  lemma {:induction false} OnlyEntry(timers: seq<Entry>, e: Entry, at: int)
    requires e in timers && PendingOf(timers, e.name) == 1
    ensures DueOf(timers, at, e.name) == if e.time <= at then 1 else 0
    decreases |timers|
  {
    if timers[0].name == e.name {
      DueArePending(timers[1..], at, e.name);
      NotPending(timers[1..], e);
    } else {
      OnlyEntry(timers[1..], e, at);
    }
  }

  lemma {:induction false} NotPending(timers: seq<Entry>, e: Entry)
    requires PendingOf(timers, e.name) == 0
    ensures e !in timers
  {
    if timers != [] {
      NotPending(timers[1..], e);
    }
  }

  /** What the first check of a new repeating name leaves of it: one entry, an interval after the check. */
  lemma AfterFirstCheck(s: State, now: int, name: string, d: int, id: nat, t: int)
    requires Sorted(s.timers) && PendingOf(s.timers, name) == 0 && d > 0 && t >= now + d
    requires Settles(WithTimer(s, now, name, d, id), t)
    ensures Sorted(WithTimer(s, now, name, d, id).timers)
    ensures var after := CheckAll(WithTimer(s, now, name, d, id), t).0;
            && Sorted(after.timers) && Repeats(after, name)
            && Entry(t + d, name) in after.timers && PendingOf(after.timers, name) == 1
  {
    var w := WithTimer(s, now, name, d, id);
    InsertMembers(s.timers, Entry(now + d, name));
    InsertAdds(s.timers, Entry(now + d, name), name);
    InsertCounts(s.timers, Entry(now + d, name), t, name);
    hide Insert, Sorted, Settles, CheckAll, PendingOf, DueOf;
    CheckLeaves(w, t);
    CheckKeepsCount(w, t, name);
    CheckPending(w, t, Entry(t + d, name));
  }

  /**
   * The period of a timer. Registered at `now` with interval d, a name with nothing pending is selected
   * once by a first check at t, not before now + d, and by the next check at u once if u is at least t + d
   * and not at all otherwise.
   */
  lemma TimerPeriod(s: State, now: int, name: string, d: int, id: nat, t: int, u: int)
    requires Sorted(s.timers) && PendingOf(s.timers, name) == 0 && d > 0 && t >= now + d
    requires Settles(WithTimer(s, now, name, d, id), t)
    ensures Sorted(WithTimer(s, now, name, d, id).timers)
    ensures Selections(WithTimer(s, now, name, d, id), t, name) == 1
    ensures var after := CheckAll(WithTimer(s, now, name, d, id), t).0;
            Sorted(after.timers) &&
            (Settles(after, u) ==> Selections(after, u, name) == if u >= t + d then 1 else 0)
  {
    DueArePending(s.timers, t, name);
    TimerFires(s, now, name, d, id, t);
    AfterFirstCheck(s, now, name, d, id, t);
    hide Insert, Sorted, Settles, CheckAll, PendingOf, DueOf, WithTimer;
    var after := CheckAll(WithTimer(s, now, name, d, id), t).0;
    OnlyEntry(after.timers, Entry(t + d, name), u);
    if Settles(after, u) {
      CheckSelects(after, u, name);
    }
  }

  /** An entry left by a deleted registration fires a longer one of its name early. */
  lemma EarlyOneShot()
    ensures var s := WithAfter(WithoutName(WithAfter(State([], map[]), 0, "a", 1, 0), "a"), 0, "a", 10, 1);
            Sorted(s.timers) && Settles(s, 1) && Selections(s, 1, "a") == 1 && s.events["a"].id == 1
  {
    var s := WithoutName(WithAfter(State([], map[]), 0, "a", 1, 0), "a");
    assert s.timers == [Entry(1, "a")];
    assert DueOf(s.timers, 1, "a") == 1 + DueOf(s.timers[1..], 1, "a");
    OneShotFires(s, 0, "a", 10, 1, 1);
  }

  /** A name that repeats at interval zero keeps its first check busy for ever. */
  lemma ZeroIntervalNeverEnds(now: int)
    ensures var s := WithTimer(State([], map[]), now, "a", 0, 0); Sorted(s.timers) && !Halts(s, now)
  {
    var s := WithTimer(State([], map[]), now, "a", 0, 0);
    assert s.timers == [Entry(now, "a")];
    assert s.timers[0] in s.timers;
    CheckEndsIff(s, now);
  }

  /** A registration changes what checks select of its own name only. */
  lemma AddedSelections(s: State, e: Entry, ev: Event, at: int, n: string)
    ensures var t := State(Insert(s.timers, e), s.events[e.name := ev]);
            Expected(t, at, n) ==
            if n != e.name then Expected(s, at, n)
            else
              var due := DueOf(s.timers, at, n) + (if e.time <= at then 1 else 0);
              if ev.isTimer || due == 0 then due else 1
  {
    InsertCounts(s.timers, e, at, n);
  }

  // ----- Whole runs

  /** The timer, the next registration id, and every registration selected so far. */
  datatype World = World(s: State, nextId: nat, log: seq<Event>)

  /** Any calls in any order; a check is any number of iterations. */
  datatype Step =
    | DoAddTimer(now: int, name: string, interval: int)
    | DoAddAfter(now: int, name: string, wait: int)
    | DoDelete(name: string)
    | DoIteration(now: int)

  predicate Enabled(w: World, step: Step) {
    step.DoIteration? ==> Due(w.s, step.now)
  }

  function Do(w: World, step: Step): World
    requires Enabled(w, step)
  {
    match step
    case DoAddTimer(now, name, interval) =>
      w.(s := WithTimer(w.s, now, name, interval, w.nextId), nextId := w.nextId + 1)
    case DoAddAfter(now, name, wait) =>
      w.(s := WithAfter(w.s, now, name, wait, w.nextId), nextId := w.nextId + 1)
    case DoDelete(name) => w.(s := WithoutName(w.s, name))
    case DoIteration(now) =>
      var picked := Picked(w.s, now);
      w.(s := CheckOne(w.s, now), log := if picked.Some? then w.log + [picked.value] else w.log)
  }

  /** Every registered name keeps a pending entry. */
  ghost predicate NamesPending(s: State) {
    forall name | name in s.events :: exists e :: e in s.timers && e.name == name
  }

  /** Ids tell registrations apart. */
  ghost predicate IdsOk(w: World) {
    && (forall name | name in w.s.events :: w.s.events[name].id < w.nextId)
    && (forall m, n | m in w.s.events && n in w.s.events && m != n :: w.s.events[m].id != w.s.events[n].id)
    && (forall i | 0 <= i < |w.log| :: w.log[i].id < w.nextId)
    && (forall i, n | 0 <= i < |w.log| && n in w.s.events && w.log[i].id == w.s.events[n].id ::
          w.log[i] == w.s.events[n])
  }

  /** A selected one-shot is no longer registered and not selected again. */
  ghost predicate OneShots(w: World) {
    && (forall i, n | 0 <= i < |w.log| && n in w.s.events && w.log[i].id == w.s.events[n].id :: w.log[i].isTimer)
    && (forall i, j | 0 <= i < j < |w.log| && w.log[i].id == w.log[j].id :: w.log[i].isTimer)
  }

  ghost predicate Inv(w: World) {
    Sorted(w.s.timers) && NamesPending(w.s) && IdsOk(w) && OneShots(w)
  }

  lemma AddKeepsPending(s: State, e: Entry, ev: Event)
    requires Sorted(s.timers) && NamesPending(s)
    ensures var t := State(Insert(s.timers, e), s.events[e.name := ev]); Sorted(t.timers) && NamesPending(t)
  {
    InsertMembers(s.timers, e);
    hide Insert, Sorted;
    var t := State(Insert(s.timers, e), s.events[e.name := ev]);
    forall name | name in t.events ensures exists x :: x in t.timers && x.name == name {
      if name == e.name {
        assert e in t.timers;
      } else {
        var x :| x in s.timers && x.name == name;
        assert x in t.timers;
      }
    }
  }

  lemma IterationKeepsPending(s: State, now: int)
    requires Sorted(s.timers) && NamesPending(s) && Due(s, now)
    ensures Sorted(CheckOne(s, now).timers) && NamesPending(CheckOne(s, now))
  {
    IterationMembers(s, now);
    var t, first := CheckOne(s, now), s.timers[0];
    if first.name in s.events && s.events[first.name].isTimer {
      InsertMembers(s.timers[1..], Entry(now + s.events[first.name].interval, first.name));
    }
    hide Insert, Sorted;
    forall name | name in t.events ensures exists x :: x in t.timers && x.name == name {
      if name == first.name {
        assert Entry(now + s.events[name].interval, name) in t.timers;
      } else {
        var x :| x in s.timers && x.name == name;
        assert x in t.timers;
      }
    }
  }

  lemma DeleteKeepsPending(s: State, name: string)
    requires NamesPending(s)
    ensures NamesPending(WithoutName(s, name))
  {
  }

  lemma StepKeepsPending(w: World, step: Step)
    requires Inv(w) && Enabled(w, step)
    ensures Sorted(Do(w, step).s.timers) && NamesPending(Do(w, step).s)
  {
    hide Sorted, NamesPending, Insert, IdsOk, OneShots, CheckOne;
    match step
    case DoAddTimer(now, name, interval) =>
      AddKeepsPending(w.s, Entry(now + interval, name), Event(w.nextId, true, interval));
    case DoAddAfter(now, name, wait) => AddKeepsPending(w.s, Entry(now + wait, name), Event(w.nextId, false, 0));
    case DoDelete(name) => DeleteKeepsPending(w.s, name);
    case DoIteration(now) => IterationKeepsPending(w.s, now);
  }

  lemma AddKeepsIds(w: World, timers: seq<Entry>, name: string, ev: Event)
    requires IdsOk(w) && OneShots(w) && ev.id == w.nextId
    ensures var v := World(State(timers, w.s.events[name := ev]), w.nextId + 1, w.log); IdsOk(v) && OneShots(v)
  {
  }

  lemma DropKeepsIds(w: World, timers: seq<Entry>, name: string)
    requires IdsOk(w) && OneShots(w)
    ensures var v := w.(s := State(timers, w.s.events - {name})); IdsOk(v) && OneShots(v)
  {
  }

  lemma PickKeepsIds(w: World, timers: seq<Entry>, name: string)
    requires IdsOk(w) && OneShots(w) && name in w.s.events
    ensures var ev := w.s.events[name];
            var s := State(timers, if ev.isTimer then w.s.events else w.s.events - {name});
            var v := World(s, w.nextId, w.log + [ev]);
            IdsOk(v) && OneShots(v)
  {
  }

  lemma StepKeepsIds(w: World, step: Step)
    requires IdsOk(w) && OneShots(w) && Enabled(w, step)
    ensures IdsOk(Do(w, step)) && OneShots(Do(w, step))
  {
    hide IdsOk, OneShots, Insert;
    var t := Do(w, step).s.timers;
    match step
    case DoAddTimer(now, name, interval) => AddKeepsIds(w, t, name, Event(w.nextId, true, interval));
    case DoAddAfter(now, name, wait) => AddKeepsIds(w, t, name, Event(w.nextId, false, 0));
    case DoDelete(name) => DropKeepsIds(w, t, name);
    case DoIteration(now) =>
      var name := w.s.timers[0].name;
      if name in w.s.events {
        PickKeepsIds(w, t, name);
      } else {
        DropKeepsIds(w, t, name);
        assert w.s.events - {name} == w.s.events;
      }
  }

  ghost predicate Run(first: World, steps: seq<Step>, last: World)
    decreases |steps|
  {
    if steps == [] then first == last
    else Enabled(first, steps[0]) && Run(Do(first, steps[0]), steps[1..], last)
  }

  lemma {:induction false} RunKeepsInv(first: World, steps: seq<Step>, last: World)
    requires Inv(first) && Run(first, steps, last)
    ensures Inv(last)
    decreases |steps|
  {
    if steps != [] {
      StepKeepsPending(first, steps[0]);
      StepKeepsIds(first, steps[0]);
      hide IdsOk, OneShots, NamesPending, Sorted;
      RunKeepsInv(Do(first, steps[0]), steps[1..], last);
    }
  }

  /** In every run: names stay pending, the queue stays sorted, and a one-shot is selected at most once. */
  lemma RunIsFaithful(steps: seq<Step>, last: World)
    requires Run(World(State([], map[]), 0, []), steps, last)
    ensures Sorted(last.s.timers)
    ensures forall name | name in last.s.events :: exists e :: e in last.s.timers && e.name == name
    ensures forall i, j | 0 <= i < j < |last.log| && last.log[i].id == last.log[j].id :: last.log[i].isTimer
  {
    RunKeepsInv(World(State([], map[]), 0, []), steps, last);
  }

  /** An iteration with what it selects brings the loop closer to its outcome. */
  lemma LoopStep(s: State, now: int, selected: seq<(string, Event)>, goal: (State, seq<(string, Event)>))
    requires Sorted(s.timers) && Settles(s, now) && Due(s, now)
    requires CheckAll(s, now).0 == goal.0 && selected + CheckAll(s, now).1 == goal.1
    ensures var t := CheckOne(s, now);
            && Sorted(t.timers) && Settles(t, now) && DueCount(t.timers, now) < DueCount(s.timers, now)
            && CheckAll(t, now).0 == goal.0
            && var picked := Picked(s, now);
               var one := if picked.Some? then [(s.timers[0].name, picked.value)] else [];
               selected + one + CheckAll(t, now).1 == goal.1
  {
    hide Sorted, Settles, DueCount, CheckAll, CheckOne;
    OneIteration(s, now, "");
    CheckUnfolds(s, now);
  }

  lemma CheckOutcome(s: State, now: int)
    requires Sorted(s.timers) && Settles(s, now)
    ensures forall n :: CountOf(CheckAll(s, now).1, n) == Expected(s, now, n)
    ensures forall e | e in CheckAll(s, now).0.timers :: e.time > now
  {
    hide *;
    CheckLeaves(s, now);
    forall n ensures CountOf(CheckAll(s, now).1, n) == Expected(s, now, n) {
      CheckSelects(s, now, n);
    }
  }

  // ----- The timer as an object

  class AsyncTimer {
    var start: bool
    var timers: seq<Entry>
    var events: map<string, Event>
    var nextId: nat

    ghost function View(): State
      reads this
    {
      State(timers, events)
    }

    /** The multimap is in order, every registered name has a pending entry, and ids tell registrations apart. */
    ghost predicate Valid()
      reads this
    {
      Sorted(timers) && NamesPending(View()) && IdsOk(World(View(), nextId, []))
    }

    constructor ()
      ensures Valid() && !start && View() == State([], map[])
    {
      start, timers, events, nextId := false, [], map[], 0;
    }

    /** `start`, without its thread. */
    method Start()
      requires Valid()
      modifies this`start
      ensures Valid() && start
    {
      start := true;
    }

    method Stop()
      requires Valid()
      modifies this`start
      ensures Valid() && !start
    {
      start := false;
    }

    /** From now on a check selects the name once more as soon as the first time has come; other names as before. */
    method AddTimer(now: int, name: string, interval: int)
      requires Valid()
      modifies this
      ensures Valid() && start == old(start) && nextId == old(nextId) + 1
      ensures View() == WithTimer(old(View()), now, name, interval, old(nextId))
      ensures forall at, n | Settles(View(), at) ::
                Selections(View(), at, n) ==
                if n == name then DueOf(old(timers), at, n) + (if now + interval <= at then 1 else 0)
                else Expected(old(View()), at, n)
    {
      ghost var s := View();
      ghost var w := World(s, nextId, []);
      events := events[name := Event(nextId, true, interval)];
      timers := Insert(timers, Entry(now + interval, name));
      nextId := nextId + 1;
      Registered(w, Entry(now + interval, name), Event(w.nextId, true, interval));
      hide WithTimer, Insert, Sorted, Settles, NamesPending, IdsOk, CheckAll;
      forall at, n | Settles(View(), at)
        ensures Selections(View(), at, n) ==
                if n == name then DueOf(s.timers, at, n) + (if now + interval <= at then 1 else 0)
                else Expected(s, at, n)
      {
        AddedSelections(s, Entry(now + interval, name), Event(w.nextId, true, interval), at, n);
        CheckSelects(View(), at, n);
      }
    }

    /** From now on a check selects the name once if the time or an entry of the name's past has come. */
    method AddAfter(now: int, name: string, wait: int)
      requires Valid()
      modifies this
      ensures Valid() && start == old(start) && nextId == old(nextId) + 1
      ensures View() == WithAfter(old(View()), now, name, wait, old(nextId))
      ensures forall at, n | Settles(View(), at) ::
                Selections(View(), at, n) ==
                if n == name then (if now + wait <= at || DueOf(old(timers), at, n) > 0 then 1 else 0)
                else Expected(old(View()), at, n)
    {
      ghost var s := View();
      ghost var w := World(s, nextId, []);
      events := events[name := Event(nextId, false, 0)];
      timers := Insert(timers, Entry(now + wait, name));
      nextId := nextId + 1;
      Registered(w, Entry(now + wait, name), Event(w.nextId, false, 0));
      hide WithAfter, Insert, Sorted, Settles, NamesPending, IdsOk, CheckAll;
      forall at, n | Settles(View(), at)
        ensures Selections(View(), at, n) ==
                if n == name then (if now + wait <= at || DueOf(s.timers, at, n) > 0 then 1 else 0)
                else Expected(s, at, n)
      {
        AddedSelections(s, Entry(now + wait, name), Event(w.nextId, false, 0), at, n);
        CheckSelects(View(), at, n);
      }
    }

    /** `delTimer` and `delAfter`: no check selects the name any more, though its entries stay pending. */
    method Delete(name: string)
      requires Valid()
      modifies this`events
      ensures Valid()
      ensures View() == WithoutName(old(View()), name)
      ensures forall at, n | Settles(View(), at) ::
                Selections(View(), at, n) == if n == name then 0 else Expected(old(View()), at, n)
    {
      ghost var s := View();
      DeleteKeepsPending(s, name);
      DropKeepsIds(World(s, nextId, []), timers, name);
      events := events - {name};
      hide Sorted, Settles, NamesPending, IdsOk, CheckAll;
      forall at, n | Settles(View(), at)
        ensures Selections(View(), at, n) == if n == name then 0 else Expected(s, at, n)
      {
        CheckSelects(View(), at, n);
      }
    }

    /** `check` under its lock; the selected registrations' callbacks run after it. */
    method Check(now: int) returns (running: bool, selected: seq<(string, Event)>)
      requires Valid() && (start ==> Settles(View(), now))
      modifies this
      ensures Valid() && running == old(start) && start == old(start) && nextId == old(nextId)
      ensures !running ==> selected == [] && View() == old(View())
      ensures running ==> (View(), selected) == CheckAll(old(View()), now)
      ensures running ==> selected == InOrder(old(timers), old(events), now)
      ensures running ==> forall n :: CountOf(selected, n) == Expected(old(View()), now, n)
      ensures running ==> forall e | e in timers :: e.time > now
    {
      running, selected := start, [];
      if start {
        CheckOutcome(View(), now);
        CheckRunsInOrder(View(), now);
        hide Sorted, Settles, CheckAll, NamesPending, IdsOk, Expected, CountOf, InOrder;
        selected := PopDue(now);
      }
    }

    /** The loop of `check`. */
    method PopDue(now: int) returns (selected: seq<(string, Event)>)
      requires Valid() && Settles(View(), now)
      modifies this`timers, this`events
      ensures Valid() && (View(), selected) == CheckAll(old(View()), now)
    {
      hide Sorted, Settles, DueCount, CheckAll, CheckOne, NamesPending, IdsOk, Picked;
      selected := [];
      ghost var goal := CheckAll(View(), now);
      while timers != [] && timers[0].time <= now
        invariant Valid() && Settles(View(), now)
        invariant CheckAll(View(), now).0 == goal.0 && selected + CheckAll(View(), now).1 == goal.1
        decreases DueCount(timers, now)
      {
        LoopStep(View(), now, selected, goal);
        var name := timers[0].name;
        var picked := PopFirst(now);
        if picked.Some? {
          selected := selected + [(name, picked.value)];
        } else {
          assert selected + [] == selected;
        }
      }
      CheckUnfolds(View(), now);
      assert selected + [] == selected;
    }

    /** One iteration: pop the first entry, then reschedule or unregister its name. */
    method PopFirst(now: int) returns (picked: Option<Event>)
      requires Valid() && Due(View(), now)
      modifies this`timers, this`events
      ensures Valid()
      ensures View() == CheckOne(old(View()), now) && picked == Picked(old(View()), now)
    {
      hide Sorted, NamesPending, IdsOk, Insert;
      IterationKeepsPending(View(), now);
      IterationKeepsIds(World(View(), nextId, []), now);
      var name := timers[0].name;
      timers := timers[1..];
      if name !in events {
        return None;
      }
      var ev := events[name];
      if ev.isTimer {
        timers := Insert(timers, Entry(now + ev.interval, name));
      } else {
        events := events - {name};
      }
      picked := Some(ev);
    }
  }

  /** A new registration keeps the order, the pending names and the ids. */
  lemma Registered(w: World, e: Entry, ev: Event)
    requires Sorted(w.s.timers) && NamesPending(w.s) && IdsOk(w) && OneShots(w) && ev.id == w.nextId
    ensures var t := State(Insert(w.s.timers, e), w.s.events[e.name := ev]);
            Sorted(t.timers) && NamesPending(t) && IdsOk(World(t, w.nextId + 1, w.log))
  {
    AddKeepsPending(w.s, e, ev);
    AddKeepsIds(w, Insert(w.s.timers, e), e.name, ev);
  }

  lemma IterationKeepsIds(w: World, now: int)
    requires Due(w.s, now) && IdsOk(w) && w.log == []
    ensures IdsOk(w.(s := CheckOne(w.s, now)))
  {
    hide Insert;
  }
}
