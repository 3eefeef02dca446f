// The alarm facility in the form it has: records on a circular doubly linked list, walked
// by each tick.  The list stands for the sequence of alarms, and each record for a deadline
// on an unbounded clock.
module AlarmScheduler {
  import opened AlarmTime
  import opened Words

  const EINVAL := 22
  const ENOTSUP := 134

  /** What a callback does: it may stop its own alarm, and it returns a period. */
  datatype Reply = Reply(stops: bool, period: u32) {
    predicate Ends() { stops || period == 0 }
  }

  class Alarm {
    var next: Alarm
    var previous: Alarm
    var time: u32
    var rollover: bool
    ghost var due: nat

    constructor ()
      ensures next == this && previous == this
    {
      next, previous, time, rollover, due := this, this, 0, false, 0;
    }

    method Schedule(n: u32, nticks: u32, ghost now: nat)
      requires nticks == now % WORD
      modifies this`time, this`rollover, this`due
      ensures Record() == StartEntry(nticks, n) && due == FirstDue(now, n) && Coupled(Record(), due, now)
    {
      time := (n + nticks + 1) % WORD;
      rollover := time < nticks;
      due := FirstDue(now, n);
      StartCouples(now, n);
    }

    /** The deadline moves on by p ticks, after tick number before + 1 has come. */
    method Again(p: u32, nticks: u32, ghost record: Entry, ghost before: nat)
      requires nticks == (before + 1) % WORD && Record() == Roll(record, nticks)
      requires Coupled(record, due, before) && due <= before + 1 && p > 0
      modifies this`time, this`rollover, this`due
      ensures due == Settle(old(due) + p, before + 1) && Coupled(Record(), due, before + 1)
    {
      time := (time + p) % WORD;
      if time < nticks {
        rollover := true;
      }
      RearmCouples(record, due, before, p);
      due := Settle(due + p, before + 1);
    }

    ghost function Record(): Entry
      reads this`time, this`rollover
    {
      Entry(time, rollover)
    }
  }

  // ---------------------------------------------------------------- circular lists

  /** `ring` is a closed chain through distinct elements, the head first. */
  ghost predicate Chain(ring: seq<Alarm>)
    reads ring`next, ring`previous
  {
    && ring != []
    && (forall i, j :: 0 <= i < j < |ring| ==> ring[i] != ring[j])
    && (forall i {:trigger ring[i].next} :: 0 <= i < |ring| - 1 ==> ring[i].next == ring[i + 1])
    && (forall i {:trigger ring[i].previous} :: 1 <= i < |ring| ==> ring[i].previous == ring[i - 1])
    && ring[|ring| - 1].next == ring[0] && ring[0].previous == ring[|ring| - 1]
  }

  ghost predicate Alone(a: Alarm)
    reads a
  {
    a.next == a == a.previous
  }

  ghost function Without<T>(s: seq<T>, x: T): seq<T> {
    if s == [] then [] else Without(s[..|s| - 1], x) + (if s[|s| - 1] == x then [] else [s[|s| - 1]])
  }

  lemma {:induction false} WithoutIs<T>(s: seq<T>, x: T, k: nat)
    requires x !in s || (k < |s| && s[k] == x && forall i :: 0 <= i < |s| && i != k ==> s[i] != x)
    ensures Without(s, x) == if x in s then s[..k] + s[k + 1..] else s
  {
    if s != [] {
      var t := s[..|s| - 1];
      assert s == t + [s[|s| - 1]];
      WithoutIs(t, x, k);
      if x in s && k < |t| {
        assert t[k] == x && s[..k] + s[k + 1..] == t[..k] + t[k + 1..] + [s[|s| - 1]];
      }
    }
  }

  /** alt_llist_insert: the entry becomes the first after the head. */
  method Insert(list: Alarm, entry: Alarm, ghost ring: seq<Alarm>)
    requires Chain(ring) && ring[0] == list && entry !in ring
    modifies list`next, list.next`previous, entry`next, entry`previous
    ensures Chain([list, entry] + ring[1..])
  {
    entry.previous := list;
    entry.next := list.next;
    list.next.previous := entry;
    list.next := entry;
    ghost var after := [list, entry] + ring[1..];
    assert forall i :: 2 <= i < |after| ==> after[i] == ring[i - 1];
    assert after[|after| - 1] == if |ring| == 1 then entry else ring[|ring| - 1];
  }

  /** alt_llist_remove, of an element of the list or, harmlessly, of one removed before. */
  method Remove(entry: Alarm, ghost ring: seq<Alarm>)
    requires Chain(ring) && entry != ring[0] && (entry !in ring ==> Alone(entry))
    modifies entry`next, entry`previous, entry.next`previous, entry.previous`next
    ensures Chain(Without(ring, entry)) && Alone(entry)
    ensures entry !in ring ==> Without(ring, entry) == ring
  {
    hide Without;
    ghost var k := if entry in ring then Position(ring, entry) else 0;
    entry.next.previous := entry.previous;
    entry.previous.next := entry.next;
    entry.previous := entry;
    entry.next := entry;
    WithoutIs(ring, entry, k);
    ghost var after := Without(ring, entry);
    assert entry in ring ==> forall i :: 0 <= i < |after| ==> after[i] == ring[if i < k then i else i + 1];
  }

  ghost function Position<T>(s: seq<T>, x: T): (k: nat)
    requires x in s
    ensures k < |s| && s[k] == x
  {
    var k :| 0 <= k < |s| && s[k] == x; k
  }

  // ---------------------------------------------------------------- the scheduler proper

  /** On an unbounded clock: the alarms that go off at tick t, in list order ... */
  ghost function Due(alarms: seq<Alarm>, due: map<Alarm, nat>, t: nat): seq<Alarm>
    requires forall a <- alarms :: a in due
  {
    if alarms == [] then []
    else
      var a := alarms[|alarms| - 1];
      Due(alarms[..|alarms| - 1], due, t) + (if due[a] <= t then [a] else [])
  }

  /** ... and the alarms that stay registered, given what the callbacks answer. */
  ghost function Staying(alarms: seq<Alarm>, due: map<Alarm, nat>, t: nat, replies: Alarm -> Reply): seq<Alarm>
    requires forall a <- alarms :: a in due
  {
    if alarms == [] then []
    else
      var a := alarms[|alarms| - 1];
      Staying(alarms[..|alarms| - 1], due, t, replies)
      + (if due[a] <= t && replies(a).Ends() then [] else [a])
  }

  /** A timer: tick number, registered alarms, and when each is due. */
  datatype Schedule = Schedule(now: nat, alarms: seq<Alarm>, due: map<Alarm, nat>) {
    ghost predicate Valid() { forall a <- alarms :: a in due }
  }

  /** When an alarm is due after tick t. */
  ghost function NextDue(due: nat, t: nat, reply: Reply): nat {
    if due <= t then Settle(due + reply.period, t) else due
  }

  /** What a tick makes of it. */
  ghost function Ticked(s: Schedule, replies: Alarm -> Reply): (t: Schedule)
    requires s.Valid()
    ensures t.Valid()
  {
    var t := s.now + 1;
    var stay := Staying(s.alarms, s.due, t, replies);
    Schedule(t, stay, map a | a in stay :: if a in s.due then NextDue(s.due[a], t, replies(a)) else 0)
  }

  class Timer {
    const head: Alarm
    var nticks: u32
    var tickRate: u32
    ghost var now: nat
    ghost var alarms: seq<Alarm>

    ghost predicate Valid()
      reads this, head, alarms
    {
      && Chain([head] + alarms)
      && nticks == now % WORD
      && forall a <- alarms :: Coupled(a.Record(), a.due, now)
    }

    ghost function Deadlines(): map<Alarm, nat>
      reads this, alarms
    {
      map a | a in alarms :: a.due
    }

    ghost function Plan(): (s: Schedule)
      reads this, alarms
      ensures s.Valid()
    {
      Schedule(now, alarms, Deadlines())
    }

    constructor (tickRate: u32)
      ensures Valid() && alarms == [] && now == 0 && this.tickRate == tickRate && fresh(head)
    {
      head := new Alarm();
      nticks, this.tickRate, now, alarms := 0, tickRate, 0, [];
    }

    /** alt_alarm_start */
    method Start(alarm: Alarm?, n: u32) returns (result: int)
      requires Valid()
      requires alarm != null ==> alarm != head && alarm !in alarms
      modifies this`alarms, head`next, head.next`previous, alarm
      ensures Valid()
      ensures tickRate == 0 ==> result == -ENOTSUP && alarms == old(alarms)
      ensures tickRate != 0 && alarm == null ==> result == -EINVAL && alarms == old(alarms)
      ensures tickRate != 0 && alarm != null ==>
                result == 0 && alarms == [alarm] + old(alarms) && alarm.due == FirstDue(now, n)
      ensures forall a <- old(alarms) :: a.due == old(a.due)
    {
      hide Coupled, FirstDue, Chain;
      if tickRate == 0 {
        return -ENOTSUP;
      }
      if alarm == null {
        return -EINVAL;
      }
      alarm.Schedule(n, nticks, now);
      Insert(head, alarm, [head] + alarms);
      assert [head, alarm] + ([head] + alarms)[1..] == [head] + ([alarm] + alarms);
      alarms := [alarm] + alarms;
      result := 0;
    }

    /** alt_alarm_stop; stopping an alarm that is not registered any more changes nothing. */
    method Stop(alarm: Alarm)
      requires Valid() && alarm != head && (alarm !in alarms ==> Alone(alarm))
      modifies this`alarms, alarm`next, alarm`previous, alarm.next`previous, alarm.previous`next
      ensures Valid() && Alone(alarm)
      ensures alarms == Without(old(alarms), alarm)
      ensures alarm !in old(alarms) ==> alarms == old(alarms)
    {
      hide Coupled, Without;
      Remove(alarm, [head] + alarms);
      WithoutHead(head, alarms, alarm);
      WithoutKeeps(alarms, alarm);
      alarms := Without(alarms, alarm);
    }

    /** What tick t does with one alarm: whether its callback ran and whether it stays. */
    method Visit(alarm: Alarm, reply: Reply, ghost due: map<Alarm, nat>, ghost t: nat, ghost ring: seq<Alarm>)
      returns (ran: bool, stays: bool)
      requires Chain(ring) && alarm in ring && alarm != ring[0]
      requires t > 0 && nticks == t % WORD && Waiting(alarm, due, t - 1)
      modifies alarm, alarm.next`previous, alarm.previous`next
      ensures ran <==> due[alarm] <= t
      ensures stays <==> !(ran && reply.Ends())
      ensures Chain(if stays then ring else Without(ring, alarm))
      ensures stays ==> Rescheduled(alarm, due, t, reply)
      ensures !stays ==> Alone(alarm)
    {
      hide Coupled, Chain, Without, Settle;
      WithoutTwice(ring, alarm);
      ghost var record := alarm.Record();
      TickIsExact(record, alarm.due, t - 1);
      if alarm.rollover && nticks == 0 {
        alarm.rollover := false;
      }
      ran, stays := false, true;
      if alarm.time <= nticks && !alarm.rollover {
        ran := true;
        ghost var left := ring;
        if reply.stops {
          Remove(alarm, left);
          left, stays := Without(ring, alarm), false;
        }
        if reply.period == 0 {
          Remove(alarm, left);
          stays := false;
        } else {
          assert Chain(left);
          alarm.Again(reply.period, nticks, record, t - 1);
          assert Chain(left);
        }
      }
    }

    /** alt_tick: every registered alarm is looked at once; those whose deadline has come are
        called back, in list order, and stay unless they stop themselves or return zero. */
    method Tick(replies: Alarm -> Reply) returns (fired: seq<Alarm>)
      requires Valid()
      modifies this`nticks, this`now, this`alarms, head, alarms
      ensures Valid() && now == old(now) + 1 && Plan() == Ticked(old(Plan()), replies)
      ensures fired == Due(old(alarms), old(Deadlines()), now)
      ensures alarms == Staying(old(alarms), old(Deadlines()), now, replies)
      ensures var due := old(Deadlines());
              forall a <- alarms :: a in due
                && a.due == if due[a] <= now then Settle(due[a] + replies(a).period, now) else due[a]
      ensures forall a <- old(alarms) :: a !in alarms ==> Alone(a)
    {
      hide Coupled, Chain, Due, Staying, Alone, Settle;
      ghost var all, due, t := alarms, Deadlines(), now + 1;
      nticks := (nticks + 1) % WORD;
      ghost var kept;
      fired, kept := WalkList(replies, all, due, t);
      assert all[..|all|] == all;
      ghost var was := old(Plan());
      now, alarms := t, kept;
      assert Plan().due == Ticked(was, replies).due;
    }

    /** The loop of alt_tick. */
    method WalkList(replies: Alarm -> Reply, ghost all: seq<Alarm>, ghost due: map<Alarm, nat>, ghost t: nat)
      returns (fired: seq<Alarm>, ghost kept: seq<Alarm>)
      requires Chain([head] + all) && t > 0 && nticks == t % WORD
      requires forall j :: 0 <= j < |all| ==> Waiting(all[j], due, t - 1)
      requires forall a <- all :: a in due
      modifies head, all
      ensures fired == Due(all, due, t) && kept == Staying(all, due, t, replies)
      ensures Chain([head] + kept)
      ensures forall a <- kept :: Rescheduled(a, due, t, replies(a))
      ensures forall a <- all :: a in kept || Alone(a)
    {
      hide Chain, Walk, Seen, Due, Staying, Separate;
      ghost var i: nat := 0;
      kept, fired := [], [];
      var alarm := head.next;
      WalkStarts(head, all);
      StepDue(all, 0, due, t, replies);
      SeenNone(all, due, t, replies);
      while alarm != head
        invariant i <= |all| && forall a <- kept :: a in all
        invariant Chain(Walk(head, kept, all, i)) && Seen(kept, all, i, due, t, replies)
        invariant alarm == if i < |all| then all[i] else head
        invariant fired == Due(all[..i], due, t) && kept == Staying(all[..i], due, t, replies)
        decreases |all| - i
      {
        StepDue(all, i + 1, due, t, replies);
        WalkOn(head, kept, all, i);
        var ran, stays, next := VisitNext(alarm, replies, kept, all, i, due, t);
        if ran {
          fired := fired + [alarm];
        }
        if stays {
          kept := kept + [alarm];
        }
        i := i + 1;
        alarm := next;
      }
      WalkEnds(head, kept, all);
      SeenAll(kept, all, due, t, replies);
    }

    /** One turn of the loop: the successor is saved, and the alarm visited. */
    method VisitNext(alarm: Alarm, replies: Alarm -> Reply, ghost kept: seq<Alarm>, ghost all: seq<Alarm>, ghost i: nat,
                     ghost due: map<Alarm, nat>, ghost t: nat)
      returns (ran: bool, stays: bool, next: Alarm)
      requires i < |all| && all[i] == alarm && Separate(head, all) && Chain(Walk(head, kept, all, i))
      requires t > 0 && nticks == t % WORD && Seen(kept, all, i, due, t, replies)
      modifies alarm, alarm.next`previous, alarm.previous`next
      ensures alarm in due && (ran <==> due[alarm] <= t) && (stays <==> !(ran && replies(alarm).Ends()))
      ensures next == if i + 1 < |all| then all[i + 1] else head
      ensures var k := if stays then kept + [alarm] else kept;
              Chain(Walk(head, k, all, i + 1)) && Seen(k, all, i + 1, due, t, replies)
    {
      hide Chain, Walk, Waiting, Rescheduled, Alone, Separate;
      WalkOn(head, kept, all, i);
      next := alarm.next;
      InDue(alarm, due, t - 1);
      ran, stays := Visit(alarm, replies(alarm), due, t, Walk(head, kept, all, i));
    }

    lemma InDue(a: Alarm, due: map<Alarm, nat>, t: nat)
      requires Waiting(a, due, t)
      ensures a in due
    {
    }

    /** What tick t has made of all[..i], and what it has not touched. */
    ghost predicate Seen(kept: seq<Alarm>, all: seq<Alarm>, i: nat, due: map<Alarm, nat>, t: nat,
                         replies: Alarm -> Reply)
      reads kept, all
    {
      && i <= |all| && t > 0
      && (forall a <- kept :: Rescheduled(a, due, t, replies(a)))
      && (forall j :: i <= j < |all| ==> Waiting(all[j], due, t - 1))
      && (forall j :: 0 <= j < i ==> all[j] in kept || Alone(all[j]))
    }

    lemma SeenNone(all: seq<Alarm>, due: map<Alarm, nat>, t: nat, replies: Alarm -> Reply)
      requires t > 0 && forall j :: 0 <= j < |all| ==> Waiting(all[j], due, t - 1)
      ensures Seen([], all, 0, due, t, replies)
    {
    }

    lemma SeenAll(kept: seq<Alarm>, all: seq<Alarm>, due: map<Alarm, nat>, t: nat, replies: Alarm -> Reply)
      requires Seen(kept, all, |all|, due, t, replies)
      ensures forall a <- kept :: Rescheduled(a, due, t, replies(a))
      ensures forall a <- all :: a in kept || Alone(a)
    {
    }

    /** The record of an alarm that this tick has not reached yet ... */
    ghost predicate Waiting(a: Alarm, due: map<Alarm, nat>, t: nat)
      reads a`time, a`rollover, a`due
    {
      a in due && a.due == due[a] && Coupled(a.Record(), a.due, t)
    }

    /** ... and of one that it has seen and kept. */
    ghost predicate Rescheduled(a: Alarm, due: map<Alarm, nat>, t: nat, reply: Reply)
      reads a`time, a`rollover, a`due
    {
      && a in due && Coupled(a.Record(), a.due, t)
      && a.due == if due[a] <= t then Settle(due[a] + reply.period, t) else due[a]
    }
  }

  lemma WithoutHead(head: Alarm, s: seq<Alarm>, x: Alarm)
    requires head != x
    ensures Without([head] + s, x) == [head] + Without(s, x)
  {
    if s != [] {
      assert ([head] + s)[..|s|] == [head] + s[..|s| - 1];
      WithoutHead(head, s[..|s| - 1], x);
    }
  }

  lemma WithoutTwice(ring: seq<Alarm>, x: Alarm)
    requires x in ring && x != ring[0]
    ensures Without(ring, x) != [] && Without(ring, x)[0] == ring[0]
    ensures x !in Without(ring, x) && Without(Without(ring, x), x) == Without(ring, x)
  {
    assert ring == [ring[0]] + ring[1..];
    WithoutHead(ring[0], ring[1..], x);
    WithoutKeeps(ring, x);
    WithoutKeeps(Without(ring, x), x);
  }

  lemma WithoutKeeps(s: seq<Alarm>, x: Alarm)
    ensures forall a :: a in Without(s, x) <==> a in s && a != x
    ensures x !in s ==> Without(s, x) == s
  {
  }

  // ---------------------------------------------------------------- the walk of alt_tick

  /** Where a walk stands: `kept` has been visited and stays, all[i..] is still to come. */
  ghost function Walk(head: Alarm, kept: seq<Alarm>, all: seq<Alarm>, i: nat): (ring: seq<Alarm>)
    requires i <= |all|
  {
    [head] + kept + all[i..]
  }

  ghost predicate Separate(head: Alarm, all: seq<Alarm>) {
    head !in all && forall j, k :: 0 <= j < k < |all| ==> all[j] != all[k]
  }

  lemma WalkStarts(head: Alarm, all: seq<Alarm>)
    requires Chain([head] + all)
    ensures Separate(head, all) && Chain(Walk(head, [], all, 0))
    ensures head.next == if all == [] then head else all[0]
    ensures all[0..] == all
  {
    var ring := [head] + all;
    assert forall j :: 0 <= j < |all| ==> ring[j + 1] == all[j];
    assert Walk(head, [], all, 0) == ring;
    assert ring[0] == head;
  }

  /** The walk is at all[i]: what is where on the list, and the list without it. */
  lemma WalkShape(head: Alarm, kept: seq<Alarm>, all: seq<Alarm>, i: nat)
    requires i < |all|
    ensures var ring, k := Walk(head, kept, all, i), 1 + |kept|;
            && |ring| == k + |all| - i && ring[0] == head && ring[k] == all[i]
            && (i + 1 < |all| ==> ring[k + 1] == all[i + 1])
            && (forall a :: a in ring <==> a == head || a in kept || a in all[i..])
            && (forall a <- ring :: a == head || a in kept || a in all)
            && (forall j :: 0 <= j < |kept| ==> ring[j + 1] == kept[j])
            && (forall j :: i < j < |all| ==> ring[k + j - i] == all[j])
            && Walk(head, kept + [all[i]], all, i + 1) == ring
            && Walk(head, kept, all, i + 1) == ring[..k] + ring[k + 1..]
  {
  }

  /** The walk is at all[i]: its neighbours on the list, and the list without it. */
  lemma WalkOn(head: Alarm, kept: seq<Alarm>, all: seq<Alarm>, i: nat)
    requires i < |all| && Separate(head, all) && Chain(Walk(head, kept, all, i))
    ensures var ring, alarm := Walk(head, kept, all, i), all[i];
            && ring[0] == head != alarm && alarm in ring && alarm !in kept
            && alarm.next == (if i + 1 < |all| then all[i + 1] else head)
            && alarm.next in ring && alarm.previous in ring
            && (forall a <- ring :: a == head || a in kept || a in all)
            && (forall j :: i < j < |all| ==> all[j] != alarm)
            && (forall j :: 0 <= j < i && all[j] in ring ==> all[j] in kept)
            && Walk(head, kept + [alarm], all, i + 1) == ring
            && Walk(head, kept, all, i + 1) == Without(ring, alarm)
  {
    hide Walk, Without;
    var ring, k := Walk(head, kept, all, i), 1 + |kept|;
    WalkShape(head, kept, all, i);
    assert ring[k].next == if k + 1 < |ring| then ring[k + 1] else ring[0];
    assert ring[k].previous == ring[k - 1];
    WithoutIs(ring, all[i], k);
  }

  lemma WalkEnds(head: Alarm, kept: seq<Alarm>, all: seq<Alarm>)
    ensures Walk(head, kept, all, |all|) == [head] + kept
    ensures all[..|all|] == all
  {
  }

  lemma StepDue(all: seq<Alarm>, i: nat, due: map<Alarm, nat>, t: nat, replies: Alarm -> Reply)
    requires i <= |all| && forall a <- all :: a in due
    ensures i == 0 ==> Due(all[..i], due, t) == [] && Staying(all[..i], due, t, replies) == []
    ensures i > 0 ==>
              var a := all[i - 1];
              && Due(all[..i], due, t) == Due(all[..i - 1], due, t) + (if due[a] <= t then [a] else [])
              && Staying(all[..i], due, t, replies)
                 == Staying(all[..i - 1], due, t, replies) + (if due[a] <= t && replies(a).Ends() then [] else [a])
  {
    if i > 0 { assert all[..i][..i - 1] == all[..i - 1]; }
  }
}
