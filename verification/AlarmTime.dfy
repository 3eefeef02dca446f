// The arithmetic of the alarm facility: deadlines kept modulo 2^32 with a one-bit rollover
// flag, against deadlines on an unbounded clock.
module AlarmTime {
  import opened Words

  /** What an alarm record stores of its deadline. */
  datatype Entry = Entry(time: u32, rollover: bool)

  /** alt_alarm_start at counter value `nticks`, to go off n ticks after the next one. */
  function StartEntry(nticks: u32, n: u32): Entry {
    var time := (n + nticks + 1) % WORD;
    Entry(time, time < nticks)
  }

  /** alt_tick clears the flag when the counter has come round to zero ... */
  function Roll(e: Entry, nticks: u32): Entry {
    if e.rollover && nticks == 0 then e.(rollover := false) else e
  }

  /** ... and then makes the callback of an alarm whose time has come. */
  predicate Expired(e: Entry, nticks: u32) {
    e.time <= nticks && !e.rollover
  }

  /** The callback asked to be called again after p ticks. */
  function Rearm(e: Entry, nticks: u32, p: u32): Entry {
    var time := (e.time + p) % WORD;
    Entry(time, e.rollover || time < nticks)
  }

  /** After tick number `now`, the record e stands for the deadline `due` on an unbounded
      clock.  A deadline that is not after `now` is overdue: it can only arise from the
      longest possible delay, see FirstDue. */
  ghost predicate Coupled(e: Entry, due: nat, now: nat) {
    && now <= due <= now + WORD
    && (due == now ==> now % WORD != WORD - 1)
    && e.time == due % WORD
    && (e.rollover && (now + 1) % WORD != 0 <==> due / WORD > (now + 1) / WORD)
  }

  /** An overdue record written at the last counter value is next looked at when the counter
      is zero, and has to wait for a whole turn of the counter. */
  ghost function Settle(due: nat, now: nat): nat {
    if due == now && now % WORD == WORD - 1 then due + WORD else due
  }

  /** The deadline of an alarm started after tick `now`: the longest delay wraps to nothing. */
  ghost function FirstDue(now: nat, n: u32): nat {
    if n == WORD - 1 then Settle(now, now) else now + n + 1
  }

  /** Splits a tick number into turns of the counter and its value. */
  lemma Turns(now: nat, q: nat, c: u32)
    requires now == q * WORD + c
    ensures now / WORD == q && now % WORD == c
  {
  }

  lemma StartCouples(now: nat, n: u32)
    ensures Coupled(StartEntry(now % WORD, n), FirstDue(now, n), now)
  {
    var q, c := now / WORD, now % WORD;
    if n + c + 1 < WORD {
      Turns(now + n + 1, q, n + c + 1);
    } else if n < WORD - 1 {
      Turns(now + n + 1, q + 1, n + c + 1 - WORD);
    }
  }

  /** One tick looks at the alarm: it goes off exactly when its deadline has come. */
  lemma TickIsExact(e: Entry, due: nat, now: nat)
    requires Coupled(e, due, now)
    ensures var nticks := (now + 1) % WORD;
            var e' := Roll(e, nticks);
            && (Expired(e', nticks) <==> due <= now + 1)
            && (due > now + 1 ==> Coupled(e', due, now + 1))
  {
  }

  /** Re-arming adds the period to the deadline, with no drift. */
  lemma RearmCouples(e: Entry, due: nat, now: nat, p: u32)
    requires Coupled(e, due, now) && due <= now + 1 && p > 0
    ensures var nticks := (now + 1) % WORD;
            Coupled(Rearm(Roll(e, nticks), nticks, p), Settle(due + p, now + 1), now + 1)
  {
    var q, c := due / WORD, due % WORD;
    if c + p < WORD {
      Turns(due + p, q, c + p);
    } else {
      Turns(due + p, q + 1, c + p - WORD);
    }
  }

  /** The ticks among now+1 .. now+k at which the alarm goes off, when its callback returns
      the given periods one after the other and then zero. */
  function Firings(e: Entry, now: nat, periods: seq<u32>, k: nat): seq<nat>
    decreases k
  {
    if k == 0 then []
    else
      var nticks := (now + 1) % WORD;
      var e' := Roll(e, nticks);
      if !Expired(e', nticks) then Firings(e', now + 1, periods, k - 1)
      else if periods == [] || periods[0] == 0 then [now + 1]
      else [now + 1] + Firings(Rearm(e', nticks, periods[0]), now + 1, periods[1..], k - 1)
  }

  /** The same on an unbounded clock: the first deadline, then each period later, up to `limit`. */
  function Timetable(due: nat, periods: seq<u32>, limit: nat): seq<nat>
    decreases |periods|
  {
    if due > limit then []
    else if periods == [] || periods[0] == 0 then [due]
    else [due] + Timetable(due + periods[0], periods[1..], limit)
  }

  lemma {:induction false} FiringsFollowTimetable(e: Entry, due: nat, now: nat, periods: seq<u32>, k: nat)
    requires Coupled(e, due, now) && due > now
    ensures Firings(e, now, periods, k) == Timetable(due, periods, now + k)
    decreases k
  {
    if k > 0 {
      var nticks := (now + 1) % WORD;
      var e' := Roll(e, nticks);
      TickIsExact(e, due, now);
      if due != now + 1 {
        FiringsFollowTimetable(e', due, now + 1, periods, k - 1);
      } else if periods != [] && periods[0] != 0 {
        RearmCouples(e, due, now, periods[0]);
        FiringsFollowTimetable(Rearm(e', nticks, periods[0]), due + periods[0], now + 1, periods[1..], k - 1);
      }
    }
  }

  /** An alarm goes off first n+1 ticks after it was started, and then each period later, over
      any number of wraps of the counter ... */
  lemma AlarmsKeepTime(now: nat, n: u32, periods: seq<u32>, k: nat)
    requires n != WORD - 1 || now % WORD == WORD - 1
    ensures Firings(StartEntry(now % WORD, n), now, periods, k) == Timetable(now + n + 1, periods, now + k)
  {
    StartCouples(now, n);
    FiringsFollowTimetable(StartEntry(now % WORD, n), FirstDue(now, n), now, periods, k);
  }

  /** ... and the exception is exact: the longest delay, started anywhere but at the last
      value of the counter, goes off at once. */
  lemma FirstFiringIsExactUnless(now: nat, n: u32)
    ensures (forall k: nat :: Firings(StartEntry(now % WORD, n), now, [], k) == Timetable(now + n + 1, [], now + k))
            <==> (n != WORD - 1 || now % WORD == WORD - 1)
  {
    if n != WORD - 1 || now % WORD == WORD - 1 {
      forall k: nat
        ensures Firings(StartEntry(now % WORD, n), now, [], k) == Timetable(now + n + 1, [], now + k)
      {
        AlarmsKeepTime(now, n, [], k);
      }
    } else {
      StartCouples(now, n);
      TickIsExact(StartEntry(now % WORD, n), now, now);
      assert Firings(StartEntry(now % WORD, n), now, [], 1) == [now + 1];
      assert Timetable(now + n + 1, [], now + 1) == [];
    }
  }

  /** A delay of 2^32 - 1 ticks asked for at boot is over at the first tick. */
  lemma LongestDelayAtBoot()
    ensures Firings(StartEntry(0, WORD - 1), 0, [], 1) == [1]
  {
  }
}
