// Which alarms a tick calls back and which stay, and when one alarm goes off over a whole run,
// whatever the other alarms do.
module AlarmRuns {
  import opened AlarmScheduler
  import opened AlarmTime
  import opened Words

  /** `some` is `all` with elements left out. */
  ghost predicate Subsequence<T>(some: seq<T>, all: seq<T>)
    decreases |all|
  {
    some == []
    || (all != []
        && (if some[|some| - 1] == all[|all| - 1] then Subsequence(some[..|some| - 1], all[..|all| - 1])
            else Subsequence(some, all[..|all| - 1])))
  }

  lemma {:induction false} LeavingOut<T>(some: seq<T>, all: seq<T>)
    requires Subsequence(some, all) && some != []
    ensures Subsequence(some[..|some| - 1], all)
    decreases |all|
  {
    var front, before := some[..|some| - 1], all[..|all| - 1];
    if some[|some| - 1] == all[|all| - 1] {
      if front != [] && front[|front| - 1] == all[|all| - 1] { LeavingOut(front, before); }
    } else {
      LeavingOut(some, before);
      if front != [] && front[|front| - 1] == all[|all| - 1] { LeavingOut(front, before); }
    }
  }

  lemma OneMore<T>(some: seq<T>, all: seq<T>, x: T)
    requires Subsequence(some, all)
    ensures Subsequence(some, all + [x]) && Subsequence(some + [x], all + [x])
  {
    assert (all + [x])[..|all|] == all && (some + [x])[..|some|] == some;
    if some != [] { LeavingOut(some, all); }
  }

  /** A tick calls back the alarms that are due, and no others ... */
  lemma {:induction false} FiresExactlyWhen(alarms: seq<Alarm>, due: map<Alarm, nat>, t: nat, a: Alarm)
    requires forall b <- alarms :: b in due
    ensures a in Due(alarms, due, t) <==> a in alarms && due[a] <= t
  {
    if alarms != [] {
      FiresExactlyWhen(alarms[..|alarms| - 1], due, t, a);
      assert alarms == alarms[..|alarms| - 1] + [alarms[|alarms| - 1]];
    }
  }

  /** ... and an alarm stays exactly if it is not due, or its callback neither stops it nor returns
      zero ... */
  lemma {:induction false} StaysExactlyWhen(alarms: seq<Alarm>, due: map<Alarm, nat>, t: nat,
                                            replies: Alarm -> Reply, a: Alarm)
    requires forall b <- alarms :: b in due
    ensures a in Staying(alarms, due, t, replies) <==>
            a in alarms && (due[a] > t || (!replies(a).stops && replies(a).period != 0))
  {
    if alarms != [] {
      StaysExactlyWhen(alarms[..|alarms| - 1], due, t, replies, a);
      assert alarms == alarms[..|alarms| - 1] + [alarms[|alarms| - 1]];
    }
  }

  lemma LastCalled(alarms: seq<Alarm>, due: map<Alarm, nat>, t: nat)
    requires alarms != [] && forall b <- alarms :: b in due
    ensures var front, a := alarms[..|alarms| - 1], alarms[|alarms| - 1];
            Due(alarms, due, t) == if due[a] <= t then Due(front, due, t) + [a] else Due(front, due, t)
  {
    var front := alarms[..|alarms| - 1];
    assert Due(front, due, t) + [] == Due(front, due, t);
  }

  lemma LastKept(alarms: seq<Alarm>, due: map<Alarm, nat>, t: nat, replies: Alarm -> Reply)
    requires alarms != [] && forall b <- alarms :: b in due
    ensures var front, a := alarms[..|alarms| - 1], alarms[|alarms| - 1];
            Staying(alarms, due, t, replies) ==
            if due[a] <= t && replies(a).Ends() then Staying(front, due, t, replies)
            else Staying(front, due, t, replies) + [a]
  {
    var front := alarms[..|alarms| - 1];
    assert Staying(front, due, t, replies) + [] == Staying(front, due, t, replies);
  }

  /** What is kept in order on the front of a list, and then takes its last element or not. */
  lemma InOrder<T>(some: seq<T>, next: seq<T>, all: seq<T>)
    requires all != [] && Subsequence(some, all[..|all| - 1])
    requires next == some || next == some + [all[|all| - 1]]
    ensures Subsequence(next, all)
  {
    OneMore(some, all[..|all| - 1], all[|all| - 1]);
    assert all == all[..|all| - 1] + [all[|all| - 1]];
  }

  /** ... both in the order of the list. */
  lemma {:induction false} CallsAreInOrder(alarms: seq<Alarm>, due: map<Alarm, nat>, t: nat)
    requires forall b <- alarms :: b in due
    ensures Subsequence(Due(alarms, due, t), alarms)
  {
    if alarms != [] {
      hide Subsequence, Due;
      LastCalled(alarms, due, t);
      CallsAreInOrder(alarms[..|alarms| - 1], due, t);
      InOrder(Due(alarms[..|alarms| - 1], due, t), Due(alarms, due, t), alarms);
    }
  }

  lemma {:induction false} StayersAreInOrder(alarms: seq<Alarm>, due: map<Alarm, nat>, t: nat,
                                             replies: Alarm -> Reply)
    requires forall b <- alarms :: b in due
    ensures Subsequence(Staying(alarms, due, t, replies), alarms)
  {
    if alarms != [] {
      hide Subsequence, Staying;
      LastKept(alarms, due, t, replies);
      StayersAreInOrder(alarms[..|alarms| - 1], due, t, replies);
      InOrder(Staying(alarms[..|alarms| - 1], due, t, replies), Staying(alarms, due, t, replies), alarms);
    }
  }

  // ---------------------------------------------------------------- runs

  /** The ticks among the next k at which alarm a is called back; answers(t) is what the callbacks
      reply at tick t. */
  ghost function CalledAt(s: Schedule, a: Alarm, answers: nat -> Alarm -> Reply, k: nat): seq<nat>
    requires s.Valid()
    decreases k
  {
    if k == 0 then []
    else
      var t := s.now + 1;
      (if a in Due(s.alarms, s.due, t) then [t] else []) + CalledAt(Ticked(s, answers(t)), a, answers, k - 1)
  }

  /** One alarm by itself on an unbounded clock: called when it is due, and again each period
      later until it stops itself or returns zero. */
  ghost function Calendar(due: nat, a: Alarm, answers: nat -> Alarm -> Reply, limit: nat): seq<nat>
    decreases limit + 1 - due
  {
    if due > limit then []
    else
      var reply := answers(due)(a);
      if reply.stops || reply.period == 0 then [due]
      else [due] + Calendar(due + reply.period, a, answers, limit)
  }

  /** One tick, as seen by one alarm that is not overdue. */
  lemma TickOfOne(s: Schedule, a: Alarm, replies: Alarm -> Reply)
    requires s.Valid() && a in s.alarms && s.due[a] > s.now
    ensures var t, next := s.now + 1, Ticked(s, replies);
            && next.now == t && (a in Due(s.alarms, s.due, t) <==> s.due[a] == t)
            && (a in next.alarms <==> s.due[a] > t || !replies(a).Ends())
            && (a in next.alarms ==> next.due[a] == s.due[a] + if s.due[a] == t then replies(a).period else 0)
  {
    hide Due, Staying;
    FiresExactlyWhen(s.alarms, s.due, s.now + 1, a);
    StaysExactlyWhen(s.alarms, s.due, s.now + 1, replies, a);
  }

  /** Over every run of ticks an alarm is called back exactly by its own calendar, whatever other
      alarms are registered and whatever their callbacks answer ... */
  lemma {:induction false} CallbacksFollowCalendar(s: Schedule, a: Alarm, answers: nat -> Alarm -> Reply, k: nat)
    requires s.Valid() && a in s.alarms && s.due[a] > s.now
    ensures CalledAt(s, a, answers, k) == Calendar(s.due[a], a, answers, s.now + k)
    decreases k
  {
    hide Due, Ticked, Settle;
    if k > 0 {
      TickOfOne(s, a, answers(s.now + 1));
      var next := Ticked(s, answers(s.now + 1));
      if a in next.alarms {
        CallbacksFollowCalendar(next, a, answers, k - 1);
      } else {
        NotRegisteredNotCalled(next, a, answers, k - 1);
      }
    }
  }

  /** ... and not at all while it is not registered. */
  lemma {:induction false} NotRegisteredNotCalled(s: Schedule, a: Alarm, answers: nat -> Alarm -> Reply, k: nat)
    requires s.Valid() && a !in s.alarms
    ensures CalledAt(s, a, answers, k) == []
    decreases k
  {
    hide Due, Staying, Subsequence;
    if k > 0 {
      FiresExactlyWhen(s.alarms, s.due, s.now + 1, a);
      StaysExactlyWhen(s.alarms, s.due, s.now + 1, answers(s.now + 1), a);
      NotRegisteredNotCalled(Ticked(s, answers(s.now + 1)), a, answers, k - 1);
    }
  }

  /** So an alarm started after tick `now` with delay n is called first at tick now + n + 1, the
      longest delay excepted, and then by what its callback returns. */
  lemma StartedAlarmIsCalled(s: Schedule, a: Alarm, n: u32, answers: nat -> Alarm -> Reply, k: nat)
    requires s.Valid() && a !in s.alarms && n != WORD - 1
    ensures var t := Schedule(s.now, [a] + s.alarms, s.due[a := FirstDue(s.now, n)]);
            CalledAt(t, a, answers, k) == Calendar(s.now + n + 1, a, answers, s.now + k)
  {
    hide CalledAt, Calendar;
    var t := Schedule(s.now, [a] + s.alarms, s.due[a := FirstDue(s.now, n)]);
    assert t.alarms[0] == a;
    CallbacksFollowCalendar(t, a, answers, k);
  }
}
