/** The alarm list: alt_alarm objects on a circular doubly linked list through a sentinel head,
    started, stopped and ticked in place. */
module AlarmList {
  import opened Common
  import opened AlarmTimer

  /** Return codes of alt_alarm_start. */
  datatype Status = Ok | Invalid | NotSupported

  class Alarm {
    var next: Alarm
    var previous: Alarm
    var time: U32
    var rollover: bool

    /** An entry that is on no list points to itself. */
    constructor ()
      ensures Unlinked() && fresh(this)
    {
      next, previous, time, rollover := this, this, 0, false;
    }

    ghost predicate Unlinked()
      reads this
    {
      next == this && previous == this
    }
  }

  /** The entries of ring are linked in this order, circularly, in both directions. */
  ghost predicate Linked(ring: seq<Alarm>)
    reads ring
  {
    && |ring| > 0
    && (forall i | 0 <= i < |ring| - 1 :: ring[i].next == ring[i + 1])
    && (forall i | 0 < i < |ring| :: ring[i].previous == ring[i - 1])
    && ring[|ring| - 1].next == ring[0]
    && ring[0].previous == ring[|ring| - 1]
    && Distinct(ring)
  }

  ghost predicate Distinct(s: seq<Alarm>) {
    forall i, j | 0 <= i < j < |s| :: s[i] != s[j]
  }

  function Without<T>(s: seq<T>, k: nat): seq<T>
    requires k < |s|
  {
    s[..k] + s[k + 1..]
  }

  /** alt_llist_insert: entry becomes the first element after the head. */
  method Insert(list: Alarm, entry: Alarm, ghost ring: seq<Alarm>)
    requires Linked(ring) && ring[0] == list && entry !in ring
    modifies ring`next, ring`previous, entry`next, entry`previous
    ensures Linked([list, entry] + ring[1..])
  {
    assert |ring| > 1 ==> list.next == ring[1];
    entry.previous := list;
    entry.next := list.next;
    list.next.previous := entry;
    list.next := entry;
  }

  /** alt_llist_remove: unlinks ring[k], or changes nothing if entry is already unlinked. */
  method Remove(entry: Alarm, ghost ring: seq<Alarm>, ghost k: nat)
    requires Linked(ring)
    requires if entry in ring then 0 < k < |ring| && ring[k] == entry else entry.Unlinked()
    modifies ring`next, ring`previous, entry`next, entry`previous
    ensures entry.Unlinked()
    ensures if entry in ring then Linked(Without(ring, k)) else Linked(ring)
    ensures entry !in ring ==> forall a | a in ring :: a.next == old(a.next) && a.previous == old(a.previous)
  {
    assert entry in ring ==> entry.previous == ring[k - 1];
    assert entry in ring ==> entry.next == if k + 1 < |ring| then ring[k + 1] else ring[0];
    entry.next.previous := entry.previous;
    entry.previous.next := entry.next;
    entry.previous := entry;
    entry.next := entry;
  }

  /** Removing the entry just inserted restores every link of the list. */
  method RemoveUndoesInsert(list: Alarm, entry: Alarm, ghost ring: seq<Alarm>)
    requires Linked(ring) && ring[0] == list && entry !in ring
    modifies ring`next, ring`previous, entry`next, entry`previous
    ensures Linked(ring) && entry.Unlinked()
    ensures forall a | a in ring :: a.next == old(a.next) && a.previous == old(a.previous)
  {
    Insert(list, entry, ring);
    ghost var longer := [list, entry] + ring[1..];
    Remove(entry, longer, 1);
    assert Without(longer, 1) == ring;
    forall a | a in ring
      ensures a.next == old(a.next) && a.previous == old(a.previous)
    {
      var i :| 0 <= i < |ring| && ring[i] == a;
      assert a.next == (if i + 1 < |ring| then ring[i + 1] else ring[0]) == old(a.next);
      assert a.previous == (if i > 0 then ring[i - 1] else ring[|ring| - 1]) == old(a.previous);
    }
  }

  // ---------------------------------------------------------------- the alarm system

  /** The elements of s that are in keep, in order. */
  ghost function Filter(s: seq<Alarm>, keep: set<Alarm>): seq<Alarm> {
    if s == [] then []
    else Filter(s[..|s| - 1], keep) + (if s[|s| - 1] in keep then [s[|s| - 1]] else [])
  }

  lemma FilterNone(keep: set<Alarm>)
    ensures Filter([], keep) == []
  {
  }

  lemma FilterStep(s: seq<Alarm>, keep: set<Alarm>, i: nat)
    requires i < |s|
    ensures Filter(s[..i + 1], keep) == Filter(s[..i], keep) + (if s[i] in keep then [s[i]] else [])
  {
    assert s[..i + 1][..i] == s[..i];
  }

  lemma {:induction false} FilterMembers(s: seq<Alarm>, keep: set<Alarm>)
    ensures forall j | 0 <= j < |Filter(s, keep)| :: Filter(s, keep)[j] in s && Filter(s, keep)[j] in keep
    ensures forall a | a in s && a in keep :: a in Filter(s, keep)
  {
    if s != [] {
      FilterMembers(s[..|s| - 1], keep);
      assert s == s[..|s| - 1] + [s[|s| - 1]];
    }
  }

  lemma {:induction false} FilterAll(s: seq<Alarm>, keep: set<Alarm>)
    requires forall a | a in s :: a in keep
    ensures Filter(s, keep) == s
  {
    if s != [] {
      FilterAll(s[..|s| - 1], keep);
      assert s == s[..|s| - 1] + [s[|s| - 1]];
    }
  }

  lemma DistinctTail(head: Alarm, nodes: seq<Alarm>)
    requires Distinct([head] + nodes)
    ensures Distinct(nodes) && head !in nodes
  {
    forall i, j | 0 <= i < j < |nodes|
      ensures nodes[i] != nodes[j]
    {
      assert ([head] + nodes)[i + 1] != ([head] + nodes)[j + 1];
    }
    forall j | 0 <= j < |nodes|
      ensures nodes[j] != head
    {
      assert ([head] + nodes)[0] != ([head] + nodes)[j + 1];
    }
  }

  /** Filtering out one element of a list without repetitions. */
  lemma {:induction false} FilterOut(s: seq<Alarm>, keep: set<Alarm>, k: nat)
    requires k < |s| && Distinct(s)
    requires forall a | a in s :: a in keep <==> a != s[k]
    ensures Filter(s, keep) == Without(s, k)
  {
    var last := |s| - 1;
    assert s == s[..last] + [s[last]];
    if k < last {
      FilterOut(s[..last], keep, k);
      assert Without(s, k) == Without(s[..last], k) + [s[last]];
    } else {
      FilterAll(s[..last], keep);
    }
  }

  /** Where an entry stands in the ring, and what is left of the list without it. */
  lemma ListWithout(head: Alarm, nodes: seq<Alarm>, entry: Alarm, rest: set<Alarm>) returns (k: nat)
    requires Distinct([head] + nodes) && entry != head
    requires rest == set a | a in nodes && a != entry
    ensures if entry in nodes then
              && 0 < k <= |nodes| && ([head] + nodes)[k] == entry
              && Without([head] + nodes, k) == [head] + Filter(nodes, rest)
            else Filter(nodes, rest) == nodes
    ensures forall a | a in rest :: a in Filter(nodes, rest)
    ensures forall j | 0 <= j < |Filter(nodes, rest)| :: Filter(nodes, rest)[j] in rest
  {
    k := 0;
    DistinctTail(head, nodes);
    FilterMembers(nodes, rest);
    if entry in nodes {
      var i :| 0 <= i < |nodes| && nodes[i] == entry;
      assert Without([head] + nodes, i + 1) == [head] + Without(nodes, i);
      FilterOut(nodes, rest, i);
      k := i + 1;
    } else {
      FilterAll(nodes, rest);
    }
  }

  /** The alarms whose timer fires when the counter becomes nticks. */
  ghost function Firing(timers: map<Alarm, Timer>, nticks: U32): set<Alarm> {
    set a | a in timers && Fires(timers[a], nticks)
  }

  /** The alarms still listed afterwards. */
  ghost function Staying(timers: map<Alarm, Timer>, nticks: U32, reply: Alarm -> U32): set<Alarm> {
    set a | a in timers && !(Fires(timers[a], nticks) && reply(a) == 0)
  }

  /** The due times after a tick: those that had come move on by the reply, or end with zero. */
  ghost function NextDue(due: map<Alarm, nat>, now: nat, reply: Alarm -> U32): map<Alarm, nat> {
    map a | a in due && !(due[a] == now && reply(a) == 0) :: if due[a] == now then due[a] + reply(a) else due[a]
  }

  lemma DistinctFromHead(head: Alarm, nodes: seq<Alarm>)
    requires Linked([head] + nodes)
    ensures Distinct([head] + nodes) && Distinct(nodes) && head !in nodes
  {
    DistinctTail(head, nodes);
  }

  lemma FirstNext(head: Alarm, nodes: seq<Alarm>)
    requires Linked([head] + nodes)
    ensures head.next == if |nodes| > 0 then nodes[0] else head
  {
    var ring := [head] + nodes;
    assert ring[0] == head && ring[|ring| - 1].next == ring[0];
    if |nodes| > 0 {
      assert ([head] + nodes)[1] == nodes[0];
    }
  }

  lemma KeptMembers(all: seq<Alarm>, i: nat, keep: set<Alarm>)
    requires i <= |all|
    ensures var kept := Filter(all[..i], keep);
            forall j | 0 <= j < |kept| :: kept[j] in all && kept[j] in keep
  {
    FilterMembers(all[..i], keep);
    assert forall a | a in all[..i] :: a in all;
  }

  /** The ring while the list is being walked: the kept part, then all[i], then the rest. */
  lemma RingShape(head: Alarm, all: seq<Alarm>, i: nat, keep: set<Alarm>, kept: seq<Alarm>, ring: seq<Alarm>)
    requires i < |all| && Distinct(all)
    requires kept == Filter(all[..i], keep) && ring == [head] + kept + all[i..]
    ensures forall j | 0 <= j < |ring| :: ring[j] == head || ring[j] in all
    ensures forall j | 0 <= j < i && all[j] !in keep && all[j] != head :: all[j] !in ring
    ensures ring[1 + |kept|] == all[i]
    ensures if i + 1 < |all| then |ring| > 2 + |kept| && ring[2 + |kept|] == all[i + 1] else |ring| == 2 + |kept|
    ensures Without(ring, 1 + |kept|) == [head] + kept + all[i + 1..]
    ensures ring == [head] + (kept + [all[i]]) + all[i + 1..]
  {
    KeptMembers(all, i, keep);
    forall j | 0 <= j < |ring|
      ensures ring[j] == head || ring[j] in all
    {
      if 0 < j <= |kept| {
        assert ring[j] == kept[j - 1];
      } else if j > |kept| {
        assert ring[j] == all[i + j - 1 - |kept|];
      }
    }
    forall j | 0 <= j < i && all[j] !in keep && all[j] != head
      ensures all[j] !in ring
    {
      assert all[j] !in all[i..];
    }
  }

  lemma DueTimeAdvances(t: Timer, due: nat, tick: nat, reply: U32)
    requires Tracks(t, due, tick)
    ensures Fires(t, (tick + 1) % M) <==> due == tick + 1
    ensures !(due == tick + 1 && reply == 0) ==>
              Tracks(Ticked(t, (tick + 1) % M, reply), if due == tick + 1 then due + reply else due, tick + 1)
  {
    FiresWhenDue(t, due, tick);
    if due != tick + 1 {
      WaitTracks(t, due, tick, reply);
    } else if reply != 0 {
      RenewTracks(t, due, tick, reply);
    }
  }

  /** All known due times move on together. */
  lemma DueTimesAdvance(timers: map<Alarm, Timer>, due: map<Alarm, nat>, tick: nat, nticks: U32, reply: Alarm -> U32)
    requires nticks == (tick + 1) % M
    requires forall a | a in due :: a in timers && Tracks(timers[a], due[a], tick)
    ensures forall a | a in due :: a in Firing(timers, nticks) <==> due[a] == tick + 1
    ensures forall a | a in NextDue(due, tick + 1, reply) ::
              && a in Staying(timers, nticks, reply)
              && Tracks(Ticked(timers[a], nticks, reply(a)), NextDue(due, tick + 1, reply)[a], tick + 1)
  {
    hide Tracks, Fires, Ticked;
    forall a | a in due
      ensures a in Firing(timers, nticks) <==> due[a] == tick + 1
      ensures !(due[a] == tick + 1 && reply(a) == 0) ==>
                && a in Staying(timers, nticks, reply)
                && Tracks(Ticked(timers[a], nticks, reply(a)),
                          if due[a] == tick + 1 then due[a] + reply(a) else due[a], tick + 1)
    {
      DueTimeAdvances(timers[a], due[a], tick, reply(a));
    }
  }

  class AlarmSystem {
    const head: Alarm
    var nticks: U32
    var tickRate: U32

    /** The listed alarms in list order, the ticks since reset, and the due times of all
        alarms whose start was exact. */
    ghost var nodes: seq<Alarm>
    ghost var now: nat
    ghost var due: map<Alarm, nat>

    ghost predicate Valid()
      reads this, head, nodes
    {
      && Linked([head] + nodes)
      && nticks == now % M
      && (forall a | a in due :: a in nodes && Tracks(Timer(a.time, a.rollover), due[a], now))
    }

    constructor ()
      ensures Valid() && nodes == [] && now == 0 && due == map[] && tickRate == 0 && fresh(head)
    {
      head := new Alarm();
      nticks, tickRate := 0, 0;
      nodes, now, due := [], 0, map[];
      new;
    }

    /** alt_alarm_start.  An alarm must not be listed already. */
    method Start(alarm: Alarm?, delay: U32) returns (status: Status)
      requires Valid() && (alarm != null ==> alarm != head && alarm !in nodes)
      modifies this`nodes, this`due, head, nodes, alarm
      ensures Valid()
      ensures status == if tickRate == 0 then NotSupported else if alarm == null then Invalid else Ok
      ensures status != Ok ==>
                && nodes == old(nodes) && due == old(due)
                && (alarm != null ==> unchanged(alarm))
                && forall a | a in [head] + nodes :: a.next == old(a.next) && a.previous == old(a.previous)
      ensures status == Ok ==>
                && nodes == [alarm] + old(nodes)
                && Timer(alarm.time, alarm.rollover) == Started(delay, nticks)
                && due == if ExactStart(delay, now) then old(due)[alarm := now + delay + 1] else old(due)
      ensures forall a | a in old(nodes) :: a.time == old(a.time) && a.rollover == old(a.rollover)
    {
      if tickRate != 0 {
        if alarm != null {
          Enlist(alarm, delay);
          return Ok;
        } else {
          return Invalid;
        }
      } else {
        return NotSupported;
      }
    }

    method Enlist(alarm: Alarm, delay: U32)
      requires Valid() && alarm != head && alarm !in nodes
      modifies this`nodes, this`due, head`next, head`previous, nodes`next, nodes`previous, alarm
      ensures Valid()
      ensures nodes == [alarm] + old(nodes)
      ensures Timer(alarm.time, alarm.rollover) == Started(delay, nticks)
      ensures due == if ExactStart(delay, now) then old(due)[alarm := now + delay + 1] else old(due)
    {
      hide Linked, Tracks, ExactStart;
      alarm.time := (delay + nticks + 1) % M;
      alarm.rollover := alarm.time < nticks;
      Insert(head, alarm, [head] + nodes);
      if ExactStart(delay, now) {
        StartTracks(delay, now);
        due := due[alarm := now + delay + 1];
      }
      assert [head] + ([alarm] + nodes) == [head, alarm] + ([head] + nodes)[1..];
      nodes := [alarm] + nodes;
    }

    /** alt_alarm_stop.  Stopping an alarm that is not listed changes nothing. */
    method Stop(alarm: Alarm)
      requires Valid() && alarm != head && (alarm !in nodes ==> alarm.Unlinked())
      modifies this`nodes, this`due, head, nodes, alarm
      ensures Valid() && alarm.Unlinked()
      ensures nodes == Filter(old(nodes), set a | a in old(nodes) && a != alarm)
      ensures due == old(due) - {alarm}
      ensures alarm !in old(nodes) ==>
                && nodes == old(nodes)
                && forall a | a in [head] + nodes :: a.next == old(a.next) && a.previous == old(a.previous)
      ensures forall a | a in old(nodes) :: a.time == old(a.time) && a.rollover == old(a.rollover)
    {
      hide Linked, Tracks, Filter, Distinct;
      ghost var rest := set a | a in nodes && a != alarm;
      DistinctFromHead(head, nodes);
      ghost var k := ListWithout(head, nodes, alarm, rest);
      Remove(alarm, [head] + nodes, k);
      due := due - {alarm};
      nodes := Filter(nodes, rest);
    }

    /** The timers of the listed alarms. */
    ghost function Timers(): map<Alarm, Timer>
      reads this, nodes
    {
      map a | a in nodes :: Timer(a.time, a.rollover)
    }

    /** One turn of the loop of alt_tick, at position k of the ring. */
    method Visit(alarm: Alarm, reply: Alarm -> U32, ghost ring: seq<Alarm>, ghost k: nat)
      returns (next: Alarm, called: bool)
      requires Linked(ring) && 0 < k < |ring| && ring[k] == alarm
      modifies ring`next, ring`previous, alarm`time, alarm`rollover
      ensures next == if k + 1 < |ring| then ring[k + 1] else ring[0]
      ensures called == Fires(Timer(old(alarm.time), old(alarm.rollover)), nticks)
      ensures Timer(alarm.time, alarm.rollover)
              == Ticked(Timer(old(alarm.time), old(alarm.rollover)), nticks, reply(alarm))
      ensures if called && reply(alarm) == 0 then alarm.Unlinked() && Linked(Without(ring, k)) else Linked(ring)
    {
      next := alarm.next;
      if alarm.rollover && nticks == 0 {
        alarm.rollover := false;
      }
      called := alarm.time <= nticks && !alarm.rollover;
      if called {
        var nextCallback := reply(alarm);
        if nextCallback == 0 {
          Remove(alarm, ring, k);
        } else {
          alarm.time := (alarm.time + nextCallback) % M;
          if alarm.time < nticks {
            alarm.rollover := true;
          }
        }
      }
    }

    /** The state of the loop of alt_tick: of the alarms listed on entry, the first i have been
        visited and kept are those still linked; timers are the timers on entry. */
    ghost predicate Visited(all: seq<Alarm>, timers: map<Alarm, Timer>, kept: seq<Alarm>, i: nat, reply: Alarm -> U32)
      requires i <= |all| && forall a | a in all :: a in timers
      reads this, head, all, kept
    {
      && kept == Filter(all[..i], Staying(timers, nticks, reply))
      && Linked([head] + kept + all[i..])
      && (forall j | i <= j < |all| :: Timer(all[j].time, all[j].rollover) == timers[all[j]])
      && (forall j | 0 <= j < i :: Timer(all[j].time, all[j].rollover) == Ticked(timers[all[j]], nticks, reply(all[j])))
      && (forall j | 0 <= j < i && all[j] !in Staying(timers, nticks, reply) :: all[j].Unlinked())
    }

    method Turn(alarm: Alarm, reply: Alarm -> U32, ghost all: seq<Alarm>, ghost timers: map<Alarm, Timer>,
                ghost kept: seq<Alarm>, ghost i: nat)
      returns (next: Alarm, called: bool, ghost keptNow: seq<Alarm>)
      requires i < |all| && alarm == all[i] && Distinct(all) && head !in all
      requires (forall a | a in all :: a in timers) && Visited(all, timers, kept, i, reply)
      modifies head`next, head`previous, all
      ensures next == if i + 1 < |all| then all[i + 1] else head
      ensures called == (alarm in Firing(timers, nticks))
      ensures Visited(all, timers, keptNow, i + 1, reply)
    {
      hide Linked, Fires, Ticked, Filter;
      ghost var staying := Staying(timers, nticks, reply);
      ghost var ring := [head] + kept + all[i..];
      RingShape(head, all, i, staying, kept, ring);
      FilterStep(all, staying, i);
      next, called := Visit(alarm, reply, ring, 1 + |kept|);
      keptNow := if called && reply(alarm) == 0 then kept else kept + [alarm];
    }

    lemma StartOfWalk(all: seq<Alarm>, timers: map<Alarm, Timer>, reply: Alarm -> U32)
      requires Linked([head] + all)
      requires (forall a | a in all :: a in timers && timers[a] == Timer(a.time, a.rollover))
      ensures Visited(all, timers, [], 0, reply)
    {
      assert [head] + [] + all[0..] == [head] + all;
    }

    lemma EndOfWalk(all: seq<Alarm>, timers: map<Alarm, Timer>, kept: seq<Alarm>, reply: Alarm -> U32)
      requires forall a | a in all :: a in timers
      requires Visited(all, timers, kept, |all|, reply)
      ensures Linked([head] + kept) && kept == Filter(all, Staying(timers, nticks, reply))
      ensures forall a | a in all :: Timer(a.time, a.rollover) == Ticked(timers[a], nticks, reply(a))
      ensures forall a | a in all && a !in kept :: a.Unlinked()
    {
      hide Linked;
      assert all[..|all|] == all && [head] + kept + all[|all|..] == [head] + kept;
      FilterMembers(all, Staying(timers, nticks, reply));
    }

    /** The loop of alt_tick, the counter having been advanced. */
    method Walk(reply: Alarm -> U32, ghost timers: map<Alarm, Timer>)
      returns (ghost fired: seq<Alarm>, ghost kept: seq<Alarm>)
      requires Linked([head] + nodes) && timers == Timers()
      modifies head`next, head`previous, nodes
      ensures fired == Filter(nodes, Firing(timers, nticks))
      ensures Linked([head] + kept) && kept == Filter(nodes, Staying(timers, nticks, reply))
      ensures forall a | a in nodes :: Timer(a.time, a.rollover) == Ticked(timers[a], nticks, reply(a))
      ensures forall a | a in nodes && a !in kept :: a.Unlinked()
    {
      hide Linked, Fires, Ticked, Filter;
      fired, kept := [], [];
      FilterNone(Firing(timers, nticks));
      ghost var i := 0;
      DistinctFromHead(head, nodes);
      var alarm := head.next;
      FirstNext(head, nodes);
      StartOfWalk(nodes, timers, reply);
      while alarm != head
        invariant i <= |nodes| && Visited(nodes, timers, kept, i, reply)
        invariant fired == Filter(nodes[..i], Firing(timers, nticks))
        invariant alarm == if i < |nodes| then nodes[i] else head
        decreases |nodes| - i
      {
        FilterStep(nodes, Firing(timers, nticks), i);
        var called;
        alarm, called, kept := Turn(alarm, reply, nodes, timers, kept, i);
        if called {
          fired := fired + [nodes[i]];
        }
        i := i + 1;
      }
      EndOfWalk(nodes, timers, kept, reply);
      assert nodes[..|nodes|] == nodes;
    }

    /** alt_tick; reply gives what each alarm's callback returns on this tick.  Every alarm listed
        on entry is visited once, in list order: exactly those whose timer fires are called, and
        exactly those whose callback returns zero are unlinked.  An alarm with a known due time
        is called exactly when that time has come. */
    method Tick(reply: Alarm -> U32) returns (ghost fired: seq<Alarm>)
      requires Valid()
      modifies this`nticks, this`nodes, this`now, this`due, head`next, head`previous, nodes
      ensures Valid() && now == old(now) + 1
      ensures fired == Filter(old(nodes), Firing(old(Timers()), nticks))
      ensures nodes == Filter(old(nodes), Staying(old(Timers()), nticks, reply))
      ensures forall a | a in old(nodes) :: Timer(a.time, a.rollover) == Ticked(old(Timers())[a], nticks, reply(a))
      ensures forall a | a in old(nodes) && a !in nodes :: a.Unlinked()
      ensures forall a | a in old(nodes) :: a in fired <==> Fires(old(Timers())[a], nticks)
      ensures forall a | a in old(nodes) :: a in nodes <==> a !in fired || reply(a) != 0
      ensures forall a | a in old(due) :: a in fired <==> old(due)[a] == now
      ensures due == NextDue(old(due), now, reply)
    {
      hide Linked, Fires, Ticked, Filter, Tracks;
      ghost var all, timers := nodes, Timers();
      nticks := (nticks + 1) % M;
      ghost var kept;
      fired, kept := Walk(reply, timers);
      Settle(all, timers, due, now, reply);
      CalledAndKept(all, timers, nticks, reply);
      nodes, now, due := kept, now + 1, NextDue(due, now + 1, reply);
    }
  }

  /** What the walk means for each alarm listed on entry. */
  lemma CalledAndKept(all: seq<Alarm>, timers: map<Alarm, Timer>, nticks: U32, reply: Alarm -> U32)
    requires forall a | a in all :: a in timers
    ensures forall a | a in all :: a in Filter(all, Firing(timers, nticks)) <==> Fires(timers[a], nticks)
    ensures forall a | a in all ::
              a in Filter(all, Staying(timers, nticks, reply)) <==> !Fires(timers[a], nticks) || reply(a) != 0
  {
    hide Filter, Fires;
    FilterMembers(all, Firing(timers, nticks));
    FilterMembers(all, Staying(timers, nticks, reply));
  }

  /** What the walk means for the known due times. */
  lemma Settle(all: seq<Alarm>, timers: map<Alarm, Timer>, due: map<Alarm, nat>, tick: nat, reply: Alarm -> U32)
    requires forall a | a in due :: a in all && a in timers && Tracks(timers[a], due[a], tick)
    ensures (tick % M + 1) % M == (tick + 1) % M
    ensures var nticks := (tick + 1) % M;
            && (forall a | a in due :: a in Filter(all, Firing(timers, nticks)) <==> due[a] == tick + 1)
            && (forall a | a in NextDue(due, tick + 1, reply) ::
                 && a in Filter(all, Staying(timers, nticks, reply))
                 && Tracks(Ticked(timers[a], nticks, reply(a)), NextDue(due, tick + 1, reply)[a], tick + 1))
  {
    hide Tracks, Filter, Ticked, Fires;
    NextTick(tick);
    var nticks := (tick + 1) % M;
    FilterMembers(all, Firing(timers, nticks));
    FilterMembers(all, Staying(timers, nticks, reply));
    DueTimesAdvance(timers, due, tick, nticks, reply);
    hide Firing, Staying;
  }
}
