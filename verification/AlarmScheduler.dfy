/** The alarm facility: an intrusive circular doubly linked list of alarms, walked by every timer tick. */
module AlarmScheduler {
  import opened Options
  import opened Unsigned
  import opened AlarmTime

  /** An alt_alarm; the list head, a bare alt_llist in C, is one more object of this class whose other fields are
      never used. A callback may do no more than return the period to its next call. */
  class Alarm {
    var next: Alarm?
    var previous: Alarm?
    var time: u32
    var rollover: bool
    var callback: nat -> u32
    ghost var fired: seq<nat>  // the ticks of all callbacks so far

    constructor ()
      ensures next == previous == this && fired == []
    {
      next, previous, time, rollover, callback := this, this, 0, false, _ => 0;
      fired := [];
    }
  }

  // ----- alt_llist.h -----

  /** `chain`, head first, is a well-formed circular doubly linked list. */
  ghost predicate Linked(chain: seq<Alarm>)
    reads (set a | a in chain)`next, (set a | a in chain)`previous
  {
    && |chain| > 0
    && (forall i, j :: 0 <= i < j < |chain| ==> chain[i] != chain[j])
    && (forall i {:trigger chain[i].next} :: 0 <= i < |chain| ==> chain[i].next == chain[if i + 1 == |chain| then 0 else i + 1])
    && (forall i {:trigger chain[i].previous} :: 0 <= i < |chain| ==> chain[i].previous == chain[if i == 0 then |chain| - 1 else i - 1])
  }

  /** A removed entry points to itself. */
  ghost predicate Detached(a: Alarm)
    reads a`next, a`previous
  {
    a.next == a && a.previous == a
  }

  method Insert(list: Alarm, entry: Alarm, ghost chain: seq<Alarm>)
    requires Linked(chain) && list == chain[0] && entry !in chain
    modifies entry`next, entry`previous, list`next, (set a | a in chain)`previous
    ensures Linked([list, entry] + chain[1..])
  {
    ghost var after := [list, entry] + chain[1..];
    assert forall i :: 2 <= i < |after| ==> after[i] == chain[i - 1];
    assert chain[0].next == chain[if |chain| == 1 then 0 else 1];
    entry.previous := list;
    entry.next := list.next;
    list.next.previous := entry;
    list.next := entry;
    forall i {:trigger after[i].next} | 0 <= i < |after|
      ensures after[i].next == after[if i + 1 == |after| then 0 else i + 1]
    {
      assert i >= 2 ==> after[i].next == chain[i - 1].next;
    }
    forall i {:trigger after[i].previous} | 0 <= i < |after|
      ensures after[i].previous == after[if i == 0 then |after| - 1 else i - 1]
    {
      assert i > 2 ==> after[i].previous == chain[i - 1].previous;
      assert chain[0].previous == if |chain| == 1 then entry else chain[|chain| - 1];
    }
  }

  /** Removes `entry`, which is `chain[i]`, or (`i == |chain|`) an entry that was removed before, which is harmless. */
  method Remove(entry: Alarm, ghost chain: seq<Alarm>, ghost i: nat)
    requires Linked(chain) && 0 < i <= |chain|
    requires if i < |chain| then chain[i] == entry else Detached(entry) && entry !in chain
    modifies entry`next, entry`previous, (set a | a in chain)`next, (set a | a in chain)`previous
    ensures i < |chain| ==> Linked(chain[..i] + chain[i + 1..])
    ensures i == |chain| ==> Linked(chain)
    ensures Detached(entry)
  {
    hide Linked;
    Links(chain);
    ghost var n := |chain|;
    assert i < n ==> entry.next == chain[After(i, n)] && entry.previous == chain[Before(i, n)];
    entry.next.previous := entry.previous;
    entry.previous.next := entry.next;
    entry.previous := entry;
    entry.next := entry;
    if i < n {
      Bypassed(chain, i);
    } else {
      FromLinks(chain);
    }
  }

  lemma Links(chain: seq<Alarm>)
    requires Linked(chain)
    ensures forall j, k :: 0 <= j < k < |chain| ==> chain[j] != chain[k]
    ensures forall k {:trigger chain[k].next} :: 0 <= k < |chain| ==> chain[k].next == chain[After(k, |chain|)]
    ensures forall k {:trigger chain[k].previous} :: 0 <= k < |chain| ==> chain[k].previous == chain[Before(k, |chain|)]
  {
  }

  lemma FromLinks(chain: seq<Alarm>)
    requires |chain| > 0 && forall j, k :: 0 <= j < k < |chain| ==> chain[j] != chain[k]
    requires forall k {:trigger chain[k].next} :: 0 <= k < |chain| ==> chain[k].next == chain[After(k, |chain|)]
    requires forall k {:trigger chain[k].previous} :: 0 <= k < |chain| ==> chain[k].previous == chain[Before(k, |chain|)]
    ensures Linked(chain)
  {
  }

  function After(i: nat, n: nat): nat { if i + 1 >= n then 0 else i + 1 }
  function Before(i: nat, n: nat): int { if i == 0 then n - 1 else i - 1 }

  /** A chain whose links go round the entry at `i` is the chain without it. */
  lemma Bypassed(chain: seq<Alarm>, i: nat)
    requires 0 < i < |chain| && forall j, k :: 0 <= j < k < |chain| ==> chain[j] != chain[k]
    requires forall k {:trigger chain[k].next} :: 0 <= k < |chain| && k != i ==>
               chain[k].next == chain[if k == i - 1 then After(i, |chain|) else After(k, |chain|)]
    requires forall k {:trigger chain[k].previous} :: 0 <= k < |chain| && k != i ==>
               chain[k].previous == chain[if k == After(i, |chain|) then i - 1 else Before(k, |chain|)]
    ensures Linked(chain[..i] + chain[i + 1..])
  {
    var after, n := chain[..i] + chain[i + 1..], |chain|;
    forall j {:trigger after[j].next} | 0 <= j < |after|
      ensures after[j].next == after[if j + 1 == |after| then 0 else j + 1]
    {
      var k := if j < i then j else j + 1;
      assert after[j] == chain[k];
    }
    forall j {:trigger after[j].previous} | 0 <= j < |after|
      ensures after[j].previous == after[if j == 0 then |after| - 1 else j - 1]
    {
      var k := if j < i then j else j + 1;
      assert after[j] == chain[k];
    }
  }

  /** The members of `s` that are not in `gone`, in order. */
  ghost function Keep(s: seq<Alarm>, gone: set<Alarm>): seq<Alarm> {
    if s == [] then []
    else Keep(s[..|s| - 1], gone) + if s[|s| - 1] in gone then [] else [s[|s| - 1]]
  }

  lemma {:induction false} KeepMembers(s: seq<Alarm>, gone: set<Alarm>, a: Alarm)
    ensures a in Keep(s, gone) <==> a in s && a !in gone
  {
    if s != [] {
      KeepMembers(s[..|s| - 1], gone, a);
      assert s == s[..|s| - 1] + [s[|s| - 1]];
    }
  }

  lemma KeepSubset(s: seq<Alarm>, gone: set<Alarm>)
    ensures forall a | a in Keep(s, gone) :: a in s && a !in gone
  {
    forall a | a in Keep(s, gone)
      ensures a in s && a !in gone
    {
      KeepMembers(s, gone, a);
    }
  }

  lemma KeepSome(s: seq<Alarm>, gone: set<Alarm>, more: set<Alarm>)
    requires gone <= more
    ensures forall a | a in Keep(s, more) :: a in Keep(s, gone)
  {
    hide Keep;
    forall a | a in Keep(s, more)
      ensures a in Keep(s, gone)
    {
      KeepMembers(s, more, a);
      KeepMembers(s, gone, a);
    }
  }

  lemma {:induction false} KeepAll(s: seq<Alarm>, gone: set<Alarm>)
    requires forall j :: 0 <= j < |s| ==> s[j] !in gone
    ensures Keep(s, gone) == s
  {
    if s != [] {
      KeepAll(s[..|s| - 1], gone);
    }
  }

  lemma {:induction false} KeepAllBut(s: seq<Alarm>, i: nat, gone: set<Alarm>)
    requires i < |s| && forall j :: 0 <= j < |s| ==> (s[j] in gone <==> j == i)
    ensures Keep(s, gone) == s[..i] + s[i + 1..]
  {
    var init := s[..|s| - 1];
    if i == |s| - 1 {
      KeepAll(init, gone);
    } else {
      KeepAllBut(init, i, gone);
      CutLast(s, i);
    }
  }

  lemma CutLast(s: seq<Alarm>, i: nat)
    requires i < |s| - 1
    ensures s[..|s| - 1][..i] == s[..i]
    ensures s[..|s| - 1][i + 1..] + [s[|s| - 1]] == s[i + 1..]
  {
  }

  lemma {:induction false} KeepTwice(s: seq<Alarm>, gone: set<Alarm>, more: set<Alarm>)
    ensures Keep(Keep(s, gone), more) == Keep(s, gone + more)
  {
    if s != [] {
      var last := s[|s| - 1];
      KeepTwice(s[..|s| - 1], gone, more);
      var k := Keep(s[..|s| - 1], gone);
      assert (k + [last])[..|k|] == k == k + [];
      assert Keep(s[..|s| - 1], gone + more) == Keep(s[..|s| - 1], gone + more) + [];
    }
  }

  lemma {:induction false} KeepFrom(s: seq<Alarm>, gone: set<Alarm>, i: nat)
    requires i <= |s| && forall j :: i <= j < |s| ==> s[j] !in gone
    ensures Keep(s, gone) == Keep(s[..i], gone) + s[i..]
  {
    if i == |s| {
      assert s[..i] == s;
    } else {
      var init := s[..|s| - 1];
      KeepFrom(init, gone, i);
      assert init[..i] == s[..i] && s[i..] == init[i..] + [s[|s| - 1]];
    }
  }

  /** Where the walk of alt_tick goes from `s[i]`, after members of `gone`, all behind it, have left the list. */
  lemma NextInWalk(head: Alarm, s: seq<Alarm>, gone: set<Alarm>, i: nat)
    requires i < |s| && Linked([head] + Keep(s, gone)) && forall j :: i <= j < |s| ==> s[j] !in gone
    ensures s[i] in Keep(s, gone) && s[i] != head
    ensures s[i].next == if i + 1 < |s| then s[i + 1] else head
  {
    var chain, k := [head] + Keep(s, gone), 1 + |Keep(s[..i], gone)|;
    KeepFrom(s, gone, i);
    assert chain[k..] == s[i..] && |chain| == k + (|s| - i) && chain[0] == head;
    assert chain[k] == s[i] == Keep(s, gone)[k - 1];
    assert i + 1 < |s| ==> chain[k + 1] == chain[k..][1] == s[i + 1];
    assert chain[k].next == chain[if k + 1 == |chain| then 0 else k + 1];
  }

  lemma FirstInWalk(head: Alarm, s: seq<Alarm>)
    requires Linked([head] + s)
    ensures head !in s && head.next == if s == [] then head else s[0]
  {
    assert forall j :: 0 <= j < |s| ==> ([head] + s)[j + 1] == s[j];
    assert ([head] + s)[0].next == ([head] + s)[if s == [] then 0 else 1];
  }

  /** Only the head of an empty list is linked and points to itself. */
  lemma SelfLinked(chain: seq<Alarm>, a: Alarm)
    requires Linked(chain) && a.next == a && a != chain[0]
    ensures a !in chain
  {
    forall i | 0 <= i < |chain|
      ensures chain[i] != a
    {
      assert chain[i].next == chain[if i + 1 == |chain| then 0 else i + 1];
    }
  }

  /** Where `a` stands in the chain `[head] + list`, and what taking it out leaves. */
  lemma Position(head: Alarm, list: seq<Alarm>, a: Alarm) returns (i: nat)
    requires a != head && Linked([head] + list)
    ensures 0 < i <= 1 + |list| && (i <= |list| <==> a in list) && (i <= |list| ==> ([head] + list)[i] == a)
    ensures [head] + Keep(list, {a}) ==
            if i <= |list| then ([head] + list)[..i] + ([head] + list)[i + 1..] else [head] + list
  {
    hide Linked, Keep;
    AllDifferent(head, list);
    if a in list {
      var k :| 0 <= k < |list| && list[k] == a;
      i := k + 1;
      KeepAllBut(list, k, {a});
      CutChain(head, list, k);
    } else {
      i := 1 + |list|;
      KeepAll(list, {a});
    }
  }

  lemma AllDifferent(head: Alarm, list: seq<Alarm>)
    requires Linked([head] + list)
    ensures forall i, j :: 0 <= i < j < |list| ==> list[i] != list[j]
  {
    assert forall j :: 0 <= j < |list| ==> list[j] == ([head] + list)[j + 1];
  }

  lemma CutChain(head: Alarm, list: seq<Alarm>, k: nat)
    requires k < |list|
    ensures ([head] + list)[k + 1] == list[k]
    ensures [head] + (list[..k] + list[k + 1..]) == ([head] + list)[..k + 1] + ([head] + list)[k + 2..]
  {
  }

  // ----- alt_alarm_start.c and alt_tick.c -----

  /** An alarm before a tick: when it is due, its time, and its callbacks. */
  datatype Was = Was(due: nat, time: u32, fired: seq<nat>)

  datatype StartResult = Started | InvalidArgument | NotSupported

  class Scheduler {
    const head: Alarm
    var nticks: u32
    var tickRate: u32

    // The tick count without wrapping. Only the model has it; the answer of a callback may depend on it.
    var clock: nat
    ghost var list: seq<Alarm>

    ghost predicate Valid()
      reads this, (set a | a in [head] + list)`next, (set a | a in [head] + list)`previous
    {
      nticks == clock % M && Linked([head] + list)
    }

    constructor (tickRate: u32)
      ensures Valid() && list == [] && clock == 0 && this.tickRate == tickRate && fresh(head)
    {
      head := new Alarm();
      nticks, clock := 0, 0;
      this.tickRate := tickRate;
      list := [];
    }

    ghost function Due(a: Alarm): nat
      reads `clock, a`time, a`rollover
    {
      NextFiring(clock, a.time, a.rollover)
    }

    /** `alt_alarm_start`. An alarm that is already registered must not be started again: the source would corrupt
        the list. */
    method Start(alarm: Alarm?, delay: u32, callback: nat -> u32) returns (r: StartResult)
      requires Valid() && alarm !in [head] + list
      modifies `list, if alarm == null then {} else {alarm}, head`next, (set a | a in [head] + list)`previous
      ensures Valid()
      ensures r == if tickRate == 0 then NotSupported else if alarm == null then InvalidArgument else Started
      ensures r != Started ==> list == old(list) && (alarm != null ==> unchanged(alarm))
      ensures r == Started ==> list == [alarm] + old(list) && alarm.callback == callback && alarm.fired == old(alarm.fired)
      ensures r == Started ==> Due(alarm) == clock + 1 + if delay != M - 1 || nticks == M - 1 then delay else 0
      ensures r == Started ==> (Exact(clock, alarm.time, alarm.rollover) <==> delay != M - 1 || nticks == M - 1)
    {
      if tickRate == 0 {
        return NotSupported;
      }
      if alarm == null {
        return InvalidArgument;
      }
      alarm.callback := callback;
      alarm.time := (delay + nticks + 1) % M;
      alarm.rollover := alarm.time < nticks;
      Insert(head, alarm, [head] + list);
      list := [alarm] + list;
      assert [head] + list == [head, alarm] + ([head] + old(list))[1..];
      StartIsDue(clock, delay);
      r := Started;
    }

    /** `alt_alarm_stop`, for a registered alarm or one that has left the list before. */
    method Stop(alarm: Alarm)
      requires Valid() && alarm != head && (alarm in list || Detached(alarm))
      modifies `list, alarm`next, alarm`previous, (set a | a in [head] + list)`next, (set a | a in [head] + list)`previous
      ensures Valid() && Detached(alarm)
      ensures list == Keep(old(list), {alarm})
    {
      hide Linked, Keep;
      ghost var chain := [head] + list;
      ghost var i := Position(head, list, alarm);
      Remove(alarm, chain, i);
      list := Keep(list, {alarm});
    }

    /** Whether the tick that made the clock what it is ends `a`, which was due at `dueBefore`. */
    ghost predicate Ends(a: Alarm, dueBefore: nat)
      reads `clock, a`callback
    {
      dueBefore == clock && a.callback(clock) == 0
    }

    /** What that tick does to an alarm with these fields before: one callback if it was due now, else none. */
    ghost predicate Visited(a: Alarm, dueBefore: nat, timeBefore: u32, firedBefore: seq<nat>)
      reads `clock, a`time, a`rollover, a`callback, a`fired
    {
      && (dueBefore != clock ==> a.fired == firedBefore && a.time == timeBefore && Due(a) == dueBefore)
      && (dueBefore == clock ==> a.fired == firedBefore + [clock])
      && (dueBefore == clock && timeBefore == clock % M && a.callback(clock) != 0 ==>
            Due(a) == clock + a.callback(clock) && Exact(clock, a.time, a.rollover))
      && (dueBefore == clock && a.callback(clock) != 0 ==>
            a.time == (timeBefore + a.callback(clock)) % M && a.rollover == (a.time < clock % M))
    }

    /** Over one tick, `a` was called back exactly if it was due; ... */
    twostate predicate Handled(a: Alarm)
      reads `clock, a
    {
      Visited(a, old(Due(a)), old(a.time), old(a.fired))
    }

    /** ... and asked not to be called again. */
    twostate predicate Ended(a: Alarm)
      reads `clock, a
    {
      Ends(a, old(Due(a)))
    }

    /** A period is added to the old `time`. */
    method Rearm(alarm: Alarm, period: u32)
      requires nticks == clock % M && !alarm.rollover && period != 0
      modifies alarm`time, alarm`rollover
      ensures alarm.time == (old(alarm.time) + period) % M && alarm.rollover == (alarm.time < nticks)
      ensures old(alarm.time) == nticks ==> Due(alarm) == clock + period && Exact(clock, alarm.time, alarm.rollover)
    {
      if alarm.time == nticks {
        RearmIsDue(clock, alarm.time, period);
      }
      alarm.time := (alarm.time + period) % M;
      if alarm.time < nticks {
        alarm.rollover := true;
      }
    }

    /** The body of the loop of alt_tick. */
    method Visit(alarm: Alarm) returns (ghost ended: bool)
      requires Valid() && alarm in list && alarm != head && clock > 0
      modifies `list, alarm`time, alarm`rollover, alarm`fired
      modifies (set a | a in [head] + list)`next, (set a | a in [head] + list)`previous
      ensures Valid()
      ensures var due := NextFiring(clock - 1, old(alarm.time), old(alarm.rollover));
              Visited(alarm, due, old(alarm.time), old(alarm.fired)) && ended == Ends(alarm, due)
      ensures list == if ended then Keep(old(list), {alarm}) else old(list)
      ensures ended ==> Detached(alarm)
    {
      hide Linked, Keep, NextFiring;
      TickKeepsDue(clock - 1, alarm.time, alarm.rollover);
      ended := false;
      if alarm.rollover && nticks == 0 {
        alarm.rollover := false;
      }
      if alarm.time <= nticks && !alarm.rollover {
        var nextCallback := alarm.callback(clock);
        alarm.fired := alarm.fired + [clock];
        if nextCallback == 0 {
          Stop(alarm);
          ended := true;
        } else {
          Rearm(alarm, nextCallback);
        }
      }
    }

    /** `a` is as it `was` before the tick, but that the clock has moved. */
    ghost predicate Waits(a: Alarm, was: Was)
      requires clock > 0
      reads `clock, a`time, a`rollover, a`fired
    {
      NextFiring(clock - 1, a.time, a.rollover) == was.due && a.time == was.time && a.fired == was.fired
    }

    /** The walk has come to `all[i]`: what was before is done with, the members of `gone` have left, the rest waits. */
    ghost predicate Walk(all: seq<Alarm>, i: nat, gone: set<Alarm>, was: map<Alarm, Was>)
      reads this, (set a | a in all), (set a | a in [head] + list)`next, (set a | a in [head] + list)`previous
    {
      && Valid() && clock > 0 && i <= |all| && list == Keep(all, gone)
      && head !in all && (forall j :: 0 <= j < |all| ==> all[j] in was)
      && (forall j, k :: 0 <= j < k < |all| ==> all[j] != all[k])
      && (forall j :: i <= j < |all| ==> all[j] !in gone && Waits(all[j], was[all[j]]))
      && (forall j :: 0 <= j < i ==>
            && Visited(all[j], was[all[j]].due, was[all[j]].time, was[all[j]].fired)
            && (all[j] in gone <==> Ends(all[j], was[all[j]].due)))
      && (forall a | a in gone :: a in all && Detached(a))
    }

    /** One turn of that loop, which reads `next` before the alarm can leave the list. */
    method VisitAndStep(alarm: Alarm, ghost all: seq<Alarm>, ghost gone: set<Alarm>, ghost i: nat,
                        ghost was: map<Alarm, Was>) returns (next: Alarm, ghost gone': set<Alarm>)
      requires Walk(all, i, gone, was) && i < |all| && alarm == all[i]
      modifies `list, alarm`time, alarm`rollover, alarm`fired
      modifies (set a | a in [head] + list)`next, (set a | a in [head] + list)`previous
      ensures Walk(all, i + 1, gone', was) && next == if i + 1 < |all| then all[i + 1] else head
      ensures gone <= gone' && forall a | a in list :: a in old(list)
    {
      hide Linked, Keep, NextFiring, Exact, Detached, Scheduler.Visited, Scheduler.Ends;
      NextInWalk(head, all, gone, i);
      KeepSubset(all, gone);
      next := alarm.next;
      ghost var ended := Visit(alarm);
      KeepTwice(all, gone, {alarm});
      gone' := if ended then gone + {alarm} else gone;
      KeepSubset(all, gone');
      KeepSome(all, gone, gone');
      forall j | i < j < |all|
        ensures all[j] !in gone' && Waits(all[j], was[all[j]])
      {
        assert all[j] != alarm;
      }
      forall j | 0 <= j < i
        ensures Visited(all[j], was[all[j]].due, was[all[j]].time, was[all[j]].fired)
        ensures all[j] in gone' <==> Ends(all[j], was[all[j]].due)
      {
        assert all[j] != alarm;
      }
      forall a | a in gone
        ensures a in all && Detached(a)
      {
        assert a !in old(list) && a != head;
      }
    }

    /** `alt_tick`: every alarm registered at the start is visited exactly once, even when alarms leave the list
        during the walk, and it is called back exactly if the unbounded clock has reached its due tick. */
    method Tick() returns (ghost gone: set<Alarm>)
      requires Valid()
      modifies `nticks, `clock, `list, (set a | a in list)`time, (set a | a in list)`rollover, (set a | a in list)`fired
      modifies (set a | a in [head] + list)`next, (set a | a in [head] + list)`previous
      ensures Valid() && clock == old(clock) + 1
      ensures forall a | a in old(list) :: Handled(a) && (a in gone <==> Ended(a))
      ensures list == Keep(old(list), gone) && forall a | a in gone :: a in old(list) && Detached(a)
    {
      hide Linked, Keep, NextFiring, Exact, Detached, Scheduler.Visited, Scheduler.Ends, Scheduler.Walk;
      ghost var all, i := list, 0;
      ghost var was: map<Alarm, Was> := map a | a in list :: Was(Due(a), a.time, a.fired);
      gone := {};
      KeepAll(all, gone);
      FirstInWalk(head, list);
      AllDifferent(head, list);
      var alarm := head.next;
      nticks := (nticks + 1) % M;
      clock := clock + 1;
      WalkStarts(all, was);
      while alarm != head
        invariant Walk(all, i, gone, was) && clock == old(clock) + 1 && i <= |all|
        invariant alarm == (if i < |all| then all[i] else head) && head !in all
        invariant forall a | a in list :: a in old(list)
        decreases |all| - i
      {
        alarm, gone := VisitAndStep(alarm, all, gone, i, was);
        i := i + 1;
      }
      WalkEnds(all, gone, was);
      forall a | a in old(list)
        ensures Handled(a) && (a in gone <==> Ended(a))
      {
        assert was[a] == Was(old(Due(a)), old(a.time), old(a.fired));
      }
    }

    lemma WalkStarts(all: seq<Alarm>, was: map<Alarm, Was>)
      requires Valid() && clock > 0 && list == all == Keep(all, {}) && head !in all
      requires forall a | a in all :: a in was && Waits(a, was[a])
      requires forall j, k :: 0 <= j < k < |all| ==> all[j] != all[k]
      ensures Walk(all, 0, {}, was)
    {
      hide Linked, Keep, NextFiring;
    }

    lemma WalkEnds(all: seq<Alarm>, gone: set<Alarm>, was: map<Alarm, Was>)
      requires Walk(all, |all|, gone, was)
      ensures Valid() && list == Keep(all, gone) && forall a | a in gone :: a in all && Detached(a)
      ensures forall a | a in all ::
                && a in was && Visited(a, was[a].due, was[a].time, was[a].fired)
                && (a in gone <==> Ends(a, was[a].due))
    {
      hide Linked, Keep, Scheduler.Visited, Scheduler.Ends;
      forall a | a in all
        ensures a in was && Visited(a, was[a].due, was[a].time, was[a].fired) && (a in gone <==> Ends(a, was[a].due))
      {
        var j :| 0 <= j < |all| && all[j] == a;
      }
    }

    // ----- whole runs -----

    /** What a run of the unbounded schedule says of `a` holds of it now. */
    ghost predicate Follows(a: Alarm, p: Plan)
      reads `clock, `list, a`time, a`rollover, a`callback, a`fired
    {
      && a.fired == p.fired && a.callback == p.callback && p.clock == clock && (a in list <==> p.due.Some?)
      && (p.due.Some? ==> Due(a) == p.due.value && Exact(clock, a.time, a.rollover))
    }

    /** The plan of `a` as things are. */
    ghost function PlanOf(a: Alarm): Plan
      reads `clock, `list, a`time, a`rollover, a`callback, a`fired
    {
      Plan(clock, if a in list then Some(Due(a)) else None, a.callback, a.fired)
    }

    lemma FollowsItself(a: Alarm)
      requires a in list ==> Exact(clock, a.time, a.rollover)
      ensures Follows(a, PlanOf(a))
    {
    }

    /** `a`, due at `due` when it was last looked at, has been called back by the unbounded clock's schedule. */
    ghost predicate OnSchedule(a: Alarm, due: nat, firedBefore: seq<nat>)
      reads `clock, `list, a`time, a`rollover, a`callback, a`fired
    {
      var next := DueAfter(due, a.callback, clock);
      && a.fired == firedBefore + Firings(due, a.callback, clock)
      && (a in list <==> next.Some?)
      && (next.Some? ==> Due(a) == next.value && Exact(clock, a.time, a.rollover))
    }

    /** Every alarm of `pool` is registered or points to itself. */
    ghost predicate Managed(pool: set<Alarm>)
      reads this, pool`next, pool`previous
    {
      && head !in pool
      && (forall a | a in list :: a in pool)
      && (forall a | a in pool :: a in list || Detached(a))
    }

    /** The invariant of a run: the alarms of `watch` follow their plans. */
    ghost predicate Tracked(pool: set<Alarm>, watch: set<Alarm>, plans: map<Alarm, Plan>)
      reads this, head, pool, list
    {
      && Valid() && Managed(pool) && watch <= pool && watch <= plans.Keys
      && forall a | a in watch :: Follows(a, plans[a])
    }

    method TickOnSchedule(ghost pool: set<Alarm>, ghost watch: set<Alarm>, ghost plans: map<Alarm, Plan>)
      requires Tracked(pool, watch, plans)
      modifies this, head, pool
      ensures Tracked(pool, watch, map a | a in watch :: NextPlan(plans[a], OpTick, a, tickRate))
      ensures clock == old(clock) + 1 && tickRate == old(tickRate)
    {
      hide Linked, Keep, NextFiring, Detached;
      ghost var gone := Tick();
      KeepSubset(old(list), gone);
      forall a | a in pool
        ensures a in list || Detached(a)
      {
        KeepMembers(old(list), gone, a);
      }
      forall a | a in watch
        ensures Follows(a, NextPlan(plans[a], OpTick, a, tickRate))
      {
        KeepMembers(old(list), gone, a);
      }
    }

    method StartOnSchedule(alarm: Alarm, delay: u32, callback: nat -> u32, ghost pool: set<Alarm>,
                           ghost watch: set<Alarm>, ghost plans: map<Alarm, Plan>)
      requires Tracked(pool, watch, plans) && alarm in pool && alarm !in list
      requires alarm in watch ==> delay != M - 1
      modifies `list, head, pool
      ensures Tracked(pool, watch, map a | a in watch :: NextPlan(plans[a], OpStart(alarm, delay, callback), a, tickRate))
      ensures tickRate == old(tickRate)
    {
      hide Linked, NextFiring, Exact;
      var r := Start(alarm, delay, callback);
    }

    method StopOnSchedule(alarm: Alarm, ghost pool: set<Alarm>, ghost watch: set<Alarm>, ghost plans: map<Alarm, Plan>)
      requires Tracked(pool, watch, plans) && alarm in pool
      modifies `list, head, pool
      ensures Tracked(pool, watch, map a | a in watch :: NextPlan(plans[a], OpStop(alarm), a, tickRate))
      ensures tickRate == old(tickRate)
    {
      hide Linked, Keep, NextFiring, Exact, Detached;
      Stop(alarm);
      forall a
        ensures a in list <==> a in old(list) && a != alarm
      {
        KeepMembers(old(list), {alarm}, a);
      }
    }

    /** Any run of ticks, starts and stops, across any number of wraps of the 32-bit counter: every alarm, also one that
        the run starts and stops, follows the schedule of the unbounded clock, unless it is started with the delay
        0xFFFFFFFF. It is called back at the ticks of that schedule and no others, so a stopped one not at all. */
    method Run(ops: seq<Op>, ghost pool: set<Alarm>)
      requires Valid() && Managed(pool)
      requires forall i :: 0 <= i < |ops| && !ops[i].OpTick? ==> ops[i].alarm in pool
      modifies this, head, pool
      ensures Valid() && Managed(pool) && clock == old(clock) + Ticks(ops)
      ensures forall a | a in pool && Delays(ops, a) && (a in old(list) ==> old(Exact(clock, a.time, a.rollover))) ::
                Follows(a, PlanAfter(old(PlanOf(a)), ops, a, old(tickRate)))
      ensures forall a | a in old(list) && !Mentions(ops, a) && old(Exact(clock, a.time, a.rollover)) ::
                OnSchedule(a, old(Due(a)), old(a.fired))
    {
      hide Linked, NextFiring, Exact, Scheduler.Follows, Scheduler.OnSchedule, Delays, Mentions, PlanAfter;
      ghost var watch := set a | a in pool && Delays(ops, a) && (a in list ==> Exact(clock, a.time, a.rollover));
      ghost var plans: map<Alarm, Plan> := map a | a in watch :: PlanOf(a);
      forall a | a in watch
        ensures Follows(a, plans[a])
      {
        FollowsItself(a);
      }
      RunPlans(ops, pool, watch, plans);
      forall a | a in pool && Delays(ops, a) && (a in old(list) ==> old(Exact(clock, a.time, a.rollover)))
        ensures Follows(a, PlanAfter(old(PlanOf(a)), ops, a, old(tickRate)))
      {
        assert a in watch && plans[a] == old(PlanOf(a));
      }
      forall a | a in old(list) && !Mentions(ops, a) && old(Exact(clock, a.time, a.rollover))
        ensures OnSchedule(a, old(Due(a)), old(a.fired))
      {
        UnmentionedDelays(ops, a);
        assert a in watch && plans[a] == old(PlanOf(a));
        UnmentionedPlan(plans[a], old(Due(a)), ops, a, tickRate);
        FollowsSchedule(a, PlanAfter(plans[a], ops, a, tickRate), old(Due(a)), plans[a].callback, plans[a].fired);
      }
    }

    method RunPlans(ops: seq<Op>, ghost pool: set<Alarm>, ghost watch: set<Alarm>, ghost plans: map<Alarm, Plan>)
      requires Tracked(pool, watch, plans)
      requires forall i :: 0 <= i < |ops| && !ops[i].OpTick? ==> ops[i].alarm in pool
      requires forall a | a in watch :: Delays(ops, a)
      modifies this, head, pool
      ensures Valid() && Managed(pool) && forall a | a in watch :: Follows(a, PlanAfter(plans[a], ops, a, tickRate))
      ensures clock == old(clock) + Ticks(ops) && tickRate == old(tickRate)
    {
      hide Linked, NextFiring, Exact, Scheduler.Follows, Delays, Scheduler.Valid, Scheduler.Managed;
      ghost var now: map<Alarm, Plan> := plans;
      for i := 0 to |ops|
        invariant Tracked(pool, watch, now) && clock == old(clock) + Ticks(ops[..i]) && tickRate == old(tickRate)
        invariant forall a | a in watch :: a in now && now[a] == PlanAfter(plans[a], ops[..i], a, tickRate)
      {
        assert ops[..i + 1][..i] == ops[..i];
        StepOnSchedule(ops, i, pool, watch, now);
        now := map a | a in watch :: NextPlan(now[a], ops[i], a, tickRate);
      }
      assert ops[..|ops|] == ops;
    }

    /** One operation of a run. An application must not start an alarm that is registered: then nothing happens here. */
    method StepOnSchedule(ops: seq<Op>, i: nat, ghost pool: set<Alarm>, ghost watch: set<Alarm>,
                          ghost plans: map<Alarm, Plan>)
      requires Tracked(pool, watch, plans) && i < |ops| && (!ops[i].OpTick? ==> ops[i].alarm in pool)
      requires forall a | a in watch :: Delays(ops, a)
      modifies this, head, pool
      ensures Tracked(pool, watch, map a | a in watch :: NextPlan(plans[a], ops[i], a, tickRate))
      ensures clock == old(clock) + (if ops[i].OpTick? then 1 else 0) && tickRate == old(tickRate)
    {
      hide Linked, NextFiring, Exact, Scheduler.Follows, Detached;
      match ops[i]
      case OpTick =>
        TickOnSchedule(pool, watch, plans);
      case OpStart(alarm, delay, callback) =>
        if alarm.next == alarm {
          SelfLinked([head] + list, alarm);
          StartOnSchedule(alarm, delay, callback, pool, watch, plans);
        } else {
          NotStarted(alarm, ops[i], pool, watch, plans);
        }
      case OpStop(alarm) =>
        StopOnSchedule(alarm, pool, watch, plans);
    }

    lemma NotStarted(alarm: Alarm, op: Op, pool: set<Alarm>, watch: set<Alarm>, plans: map<Alarm, Plan>)
      requires Tracked(pool, watch, plans) && op.OpStart? && op.alarm == alarm && alarm in pool && alarm.next != alarm
      ensures Tracked(pool, watch, map a | a in watch :: NextPlan(plans[a], op, a, tickRate))
    {
      hide Linked, NextFiring, Exact;
    }

    lemma FollowsSchedule(a: Alarm, p: Plan, due: nat, callback: nat -> u32, fired: seq<nat>)
      requires Follows(a, p) && p == Plan(clock, DueAfter(due, callback, clock), callback, fired + Firings(due, callback, clock))
      ensures OnSchedule(a, due, fired)
    {
    }
  }

  function Ticks(ops: seq<Op>): nat {
    if ops == [] then 0 else Ticks(ops[..|ops| - 1]) + if ops[|ops| - 1].OpTick? then 1 else 0
  }

  /** Whether some operation starts or stops `a`. */
  ghost predicate Mentions(ops: seq<Op>, a: Alarm) {
    exists i :: 0 <= i < |ops| && !ops[i].OpTick? && ops[i].alarm == a
  }

  /** No operation starts `a` with the delay that the counter cannot tell from none. */
  ghost predicate Delays(ops: seq<Op>, a: Alarm) {
    forall i :: 0 <= i < |ops| && ops[i].OpStart? && ops[i].alarm == a ==> ops[i].delay != M - 1
  }

  lemma UnmentionedDelays(ops: seq<Op>, a: Alarm)
    requires !Mentions(ops, a)
    ensures Delays(ops, a)
  {
  }

  datatype Op =
    | OpTick
    | OpStart(alarm: Alarm, delay: u32, callback: nat -> u32)
    | OpStop(alarm: Alarm)

  // ----- the schedule of one alarm, on the unbounded clock -----

  /** The tick at which an alarm is due next, if it is registered, and the ticks at which it was called back. */
  datatype Plan = Plan(clock: nat, due: Option<nat>, callback: nat -> u32, fired: seq<nat>)

  /** A registered alarm cannot be started; without a system clock none can. */
  ghost function NextPlan(p: Plan, op: Op, a: Alarm, tickRate: u32): Plan {
    match op
    case OpTick =>
      var now := p.clock + 1;
      if p.due != Some(now) then p.(clock := now)
      else p.(clock := now, fired := p.fired + [now], due := if p.callback(now) == 0 then None else Some(now + p.callback(now)))
    case OpStart(alarm, delay, callback) =>
      if alarm == a && p.due.None? && tickRate != 0 then p.(due := Some(p.clock + delay + 1), callback := callback) else p
    case OpStop(alarm) =>
      if alarm == a then p.(due := None) else p
  }

  ghost function PlanAfter(p: Plan, ops: seq<Op>, a: Alarm, tickRate: u32): Plan {
    if ops == [] then p else NextPlan(PlanAfter(p, ops[..|ops| - 1], a, tickRate), ops[|ops| - 1], a, tickRate)
  }

  /** An alarm that the run leaves alone follows the schedule that it was on. */
  lemma {:induction false} UnmentionedPlan(p: Plan, due: nat, ops: seq<Op>, a: Alarm, tickRate: u32)
    requires !Mentions(ops, a) && p.due == Some(due) && due > p.clock
    ensures var q, clock := PlanAfter(p, ops, a, tickRate), p.clock + Ticks(ops);
            q == Plan(clock, DueAfter(due, p.callback, clock), p.callback, p.fired + Firings(due, p.callback, clock))
    decreases |ops|
  {
    if ops != [] {
      var before := ops[..|ops| - 1];
      assert forall i :: 0 <= i < |before| ==> before[i] == ops[i];
      UnmentionedPlan(p, due, before, a, tickRate);
      OneMoreTick(due, p.callback, p.clock + Ticks(before));
    }
  }

  /** After a stop there is no callback until the alarm is started again. */
  lemma {:induction false} StoppedIsSilent(p: Plan, ops: seq<Op>, a: Alarm, tickRate: u32)
    requires p.due.None? && forall i :: 0 <= i < |ops| ==> !(ops[i].OpStart? && ops[i].alarm == a)
    ensures var q := PlanAfter(p, ops, a, tickRate); q.due.None? && q.fired == p.fired
    decreases |ops|
  {
    if ops != [] {
      var before := ops[..|ops| - 1];
      assert forall i :: 0 <= i < |before| ==> before[i] == ops[i];
      StoppedIsSilent(p, before, a, tickRate);
    }
  }
}
