// Which handler is called, and with which context: told on the history of registrations and
// calls alone, over every run.
module InterruptHistory {
  import opened Interrupts

  /** What was registered last for an id; nothing at the start. */
  function Latest(history: seq<Happening>, id: Id): Entry {
    if history == [] then Entry(0, 0)
    else
      var last := history[|history| - 1];
      if last.Registration? && last.id == id then last.entry else Latest(history[..|history| - 1], id)
  }

  /** Each call goes to the handler registered last for its id, with that handler's context. */
  ghost predicate CallsGoToLatest(history: seq<Happening>) {
    forall k | 0 <= k < |history| && history[k].Dispatch? :: ToLatest(history, k)
  }

  ghost predicate ToLatest(history: seq<Happening>, k: nat)
    requires k < |history| && history[k].Dispatch?
  {
    history[k].call.entry == Latest(history[..k], history[k].call.id)
  }

  ghost predicate TableIsLatest(s: State) { forall id: Id :: s.table[id] == Latest(s.history, id) }

  /** The history is one of the program: its registrations as they are made, and between them
      calls of handlers on top of the right ones, each followed by what that handler does. */
  ghost predicate Follows(h: seq<Happening>, w: Work, under: seq<Id>)
    decreases w
  {
    match w
    case Done => h == []
    case Register(id, e, rest) => h != [] && h[0] == Registration(id, e) && Follows(h[1..], rest, under)
    case Interrupt(turns, rest) =>
      exists k | 0 <= k <= |h| :: FollowsTurns(h[..k], turns, under) && Follows(h[k..], rest, under)
    case Window(inside, rest) =>
      if under == [] then Follows(h, rest, under)
      else exists k | 0 <= k <= |h| :: Follows(h[..k], inside, under) && Follows(h[k..], rest, under)
  }

  ghost predicate FollowsTurns(h: seq<Happening>, turns: Turns, under: seq<Id>)
    decreases turns
  {
    h == [] ||
    (&& turns.Turn? && h[0].Dispatch? && h[0].call.under == under && h[0].call.id in turns.lines
     && h[0].call.pending <= turns.lines
     && exists k | 1 <= k <= |h| ::
          Follows(h[1..k], turns.isr, under + [h[0].call.id]) && FollowsTurns(h[k..], turns.more, under))
  }

  lemma Prefixes(h: seq<Happening>, more: seq<Happening>)
    ensures forall k | 0 <= k <= |h| :: (h + more)[..k] == h[..k]
  {
  }

  lemma RegisteredIsLatest(s: State, id: Id, e: Entry)
    requires TableIsLatest(s) && CallsGoToLatest(s.history)
    ensures TableIsLatest(Registered(s, id, e)) && CallsGoToLatest(Registered(s, id, e).history)
  {
    var h := s.history + [Registration(id, e)];
    Prefixes(s.history, [Registration(id, e)]);
    assert h[..|s.history|] == s.history;
    forall k | 0 <= k < |h| && h[k].Dispatch? ensures ToLatest(h, k) {
      assert ToLatest(s.history, k);
    }
  }

  lemma CalledIsLatest(s: State, i: Id, pending: set<Id>, under: seq<Id>)
    requires TableIsLatest(s) && CallsGoToLatest(s.history)
    ensures TableIsLatest(Called(s, i, pending, under)) && CallsGoToLatest(Called(s, i, pending, under).history)
  {
    var c := Dispatch(Call(i, pending, s.table[i], under));
    var h := s.history + [c];
    Prefixes(s.history, [c]);
    assert h[..|s.history|] == s.history;
    forall k | 0 <= k < |h| && h[k].Dispatch? ensures ToLatest(h, k) {
      if k < |s.history| { assert ToLatest(s.history, k); }
    }
  }

  lemma {:induction false} RunIsLatest(s: State, w: Work, under: seq<Id>)
    requires TableIsLatest(s) && CallsGoToLatest(s.history)
    ensures TableIsLatest(Run(s, w, under)) && CallsGoToLatest(Run(s, w, under).history)
    decreases w
  {
    hide CallsGoToLatest;
    match w
    case Done =>
    case Register(id, e, rest) =>
      RegisteredIsLatest(s, id, e);
      RunIsLatest(Registered(s, id, e), rest, under);
    case Interrupt(turns, rest) =>
      if Taken(s, turns) {
        ServeIsLatest(s.(pie := false), turns, under);
        RunIsLatest(Serve(s.(pie := false), turns, under).(pie := true), rest, under);
      } else {
        RunIsLatest(s, rest, under);
      }
    case Window(inside, rest) =>
      if under == [] {
        RunIsLatest(s, rest, under);
      } else {
        var t := Open(s, under[|under| - 1]);
        RunIsLatest(t, inside, under);
        RunIsLatest(Shut(Run(t, inside, under), s.mask), rest, under);
      }
  }

  lemma {:induction false} ServeIsLatest(s: State, turns: Turns, under: seq<Id>)
    requires TableIsLatest(s) && CallsGoToLatest(s.history)
    ensures TableIsLatest(Serve(s, turns, under)) && CallsGoToLatest(Serve(s, turns, under).history)
    decreases turns
  {
    hide CallsGoToLatest;
    if turns.Turn? && turns.lines * s.ienable != {} {
      var pending := turns.lines * s.ienable;
      Some(pending);
      var i := Lowest(pending, 0);
      CalledIsLatest(s, i, pending, under);
      var t := Called(s, i, pending, under);
      RunIsLatest(t, turns.isr, under + [i]);
      ServeIsLatest(Run(t, turns.isr, under + [i]), turns.more, under);
    }
  }

  lemma JoinsRegister(id: Id, e: Entry, b: seq<Happening>, rest: Work, under: seq<Id>)
    requires Follows(b, rest, under)
    ensures Follows([Registration(id, e)] + b, Register(id, e, rest), under)
  {
    assert ([Registration(id, e)] + b)[1..] == b;
  }

  lemma JoinsInterrupt(a: seq<Happening>, b: seq<Happening>, turns: Turns, rest: Work, under: seq<Id>)
    requires FollowsTurns(a, turns, under) && Follows(b, rest, under)
    ensures Follows(a + b, Interrupt(turns, rest), under)
  {
    hide FollowsTurns;
    assert (a + b)[..|a|] == a && (a + b)[|a|..] == b;
  }

  lemma JoinsWindow(a: seq<Happening>, b: seq<Happening>, inside: Work, rest: Work, under: seq<Id>)
    requires under != [] && Follows(a, inside, under) && Follows(b, rest, under)
    ensures Follows(a + b, Window(inside, rest), under)
  {
    assert (a + b)[..|a|] == a && (a + b)[|a|..] == b;
  }

  lemma JoinsTurn(c: Call, a: seq<Happening>, b: seq<Happening>, turns: Turns, under: seq<Id>)
    requires turns.Turn? && c.under == under && c.id in turns.lines && c.pending <= turns.lines
    requires Follows(a, turns.isr, under + [c.id]) && FollowsTurns(b, turns.more, under)
    ensures FollowsTurns([Dispatch(c)] + a + b, turns, under)
  {
    hide Follows;
    var h := [Dispatch(c)] + a + b;
    assert h[1..1 + |a|] == a && h[1 + |a|..] == b;
  }

  /** What a run adds to the history. */
  lemma {:induction false} RunFollows(s: State, w: Work, under: seq<Id>) returns (h: seq<Happening>)
    ensures Run(s, w, under).history == s.history + h && Follows(h, w, under)
    decreases w
  {
    hide FollowsTurns, Follows, Open, Shut, Registered;
    match w
    case Done =>
      h := [];
      FollowsSimply(w, h, under);
    case Register(id, e, rest) =>
      var r := RunFollows(Registered(s, id, e), rest, under);
      h := [Registration(id, e)] + r;
      RegistrationIsRecorded(s, id, e);
      JoinsRegister(id, e, r, rest, under);
    case Interrupt(turns, rest) =>
      var a := [];
      var t := s;
      if Taken(s, turns) {
        a := ServeFollows(s.(pie := false), turns, under);
        t := Serve(s.(pie := false), turns, under).(pie := true);
      } else {
        NoTurns(turns, under);
      }
      var b := RunFollows(t, rest, under);
      h := a + b;
      JoinsInterrupt(a, b, turns, rest, under);
    case Window(inside, rest) =>
      if under == [] {
        h := RunFollows(s, rest, under);
        FollowsSimply(w, h, under);
      } else {
        var t := Open(s, under[|under| - 1]);
        var a := RunFollows(t, inside, under);
        var u := Shut(Run(t, inside, under), s.mask);
        var b := RunFollows(u, rest, under);
        h := a + b;
        Unrecorded(s, under[|under| - 1], Run(t, inside, under), s.mask);
        JoinsWindow(a, b, inside, rest, under);
      }
  }

  lemma RegistrationIsRecorded(s: State, id: Id, e: Entry)
    ensures Registered(s, id, e).history == s.history + [Registration(id, e)]
  {
  }

  lemma FollowsSimply(w: Work, h: seq<Happening>, under: seq<Id>)
    ensures w.Done? ==> (Follows(h, w, under) <==> h == [])
    ensures w.Window? && under == [] ==> (Follows(h, w, under) <==> Follows(h, w.rest, under))
  {
  }

  lemma Unrecorded(s: State, p: Id, t: State, mask: set<Id>)
    ensures Open(s, p).history == s.history && Shut(t, mask).history == t.history
  {
  }

  lemma NoTurns(turns: Turns, under: seq<Id>)
    ensures FollowsTurns([], turns, under)
  {
  }

  lemma {:induction false} ServeFollows(s: State, turns: Turns, under: seq<Id>) returns (h: seq<Happening>)
    ensures Serve(s, turns, under).history == s.history + h && FollowsTurns(h, turns, under)
    decreases turns
  {
    hide Follows, FollowsTurns, Run;
    h := [];
    NoTurns(turns, under);
    if turns.Turn? && turns.lines * s.ienable != {} {
      var pending := turns.lines * s.ienable;
      Some(pending);
      var i := Lowest(pending, 0);
      var t := Called(s, i, pending, under);
      var a := RunFollows(t, turns.isr, under + [i]);
      var b := ServeFollows(Run(t, turns.isr, under + [i]), turns.more, under);
      h := [Dispatch(Call(i, pending, s.table[i], under))] + a + b;
      JoinsTurn(Call(i, pending, s.table[i], under), a, b, turns, under);
    }
  }

  /** Over every run: the history is one of the program, each call in it goes to the handler and
      context registered last for its id, and so does the table hold them at the end. */
  lemma CallsFollowRegistrations(w: Work, on: bool)
    ensures var s := Run(BOOT.(pie := on), w, []);
            && Follows(s.history, w, [])
            && (forall k | 0 <= k < |s.history| && s.history[k].Dispatch? ::
                  ToLatest(s.history, k) && s.history[k].call.entry.handler != 0)
            && forall id: Id :: s.table[id] == Latest(s.history, id)
  {
    hide Run, Follows;
    var s := Run(BOOT.(pie := on), w, []);
    RunIsLatest(BOOT.(pie := on), w, []);
    var h := RunFollows(BOOT.(pie := on), w, []);
    assert s.history == h;
    RunKeeps(BOOT.(pie := on), w, []);
    forall k | 0 <= k < |s.history| && s.history[k].Dispatch?
      ensures ToLatest(s.history, k) && s.history[k].call.entry.handler != 0
    {
      DispatchIsCall(s.history, k);
      assert s.history[k].call in Calls(s);
      assert GoodCall(s.history[k].call);
    }
  }

  lemma {:induction false} DispatchIsCall(h: seq<Happening>, k: nat)
    requires k < |h| && h[k].Dispatch?
    ensures h[k].call in Dispatches(h)
  {
    if k < |h| - 1 { DispatchIsCall(h[..|h| - 1], k); }
  }

  // ---------------------------------------------------------------- which lines are served

  /** Ids among the raised lines that have a handler. */
  ghost function Ready(lines: set<Id>, history: seq<Happening>): set<Id> {
    set i: Id | i in lines && Latest(history, i).handler != 0
  }

  /** The next happening is the call of the least of these ids. */
  ghost predicate CallsLeast(s: State, t: State, ready: set<Id>, under: seq<Id>) {
    && |s.history| < |t.history| && t.history[..|s.history|] == s.history
    && var h := t.history[|s.history|];
       h.Dispatch? && h.call.id in ready && (forall i <- ready :: h.call.id <= i)
       && h.call.pending == ready && h.call.under == under
  }

  lemma ServesLeast(s: State, lines: set<Id>, isr: Work, more: Turns, ready: set<Id>, under: seq<Id>)
    requires lines * s.ienable == ready != {}
    ensures CallsLeast(s, Serve(s, Turn(lines, isr, more), under), ready, under)
  {
    Some(ready);
    var i := Lowest(ready, 0);
    var t := Called(s, i, ready, under);
    var a := RunFollows(t, isr, under + [i]);
    var b := ServeFollows(Run(t, isr, under + [i]), more, under);
    assert Serve(s, Turn(lines, isr, more), under).history == t.history + a + b;
  }

  /** Outside handlers, with interrupts on, raised lines are served if and only if one of them
      has a handler; the least one that has is called first. */
  lemma RaisedLinesAreServed(w: Work, lines: set<Id>, isr: Work, more: Turns)
    ensures var s := Run(BOOT.(pie := true), w, []);
            var t := Run(s, Interrupt(Turn(lines, isr, more), Done), []);
            if Ready(lines, s.history) == {} then t == s else CallsLeast(s, t, Ready(lines, s.history), [])
  {
    hide Serve, Run, Inv, GoodCalls, CallsLeast;
    var s := Run(BOOT.(pie := true), w, []);
    RunIsLatest(BOOT.(pie := true), w, []);
    MasksFollowTheTable(w, true);
    var turns := Turn(lines, isr, more);
    assert lines * s.ienable == Ready(lines, s.history);
    hide Latest, Ready, TableIsLatest;
    RunsInterrupt(s, turns, []);
    if lines * s.ienable != {} {
      ServesLeast(s.(pie := false), lines, isr, more, Ready(lines, s.history), []);
      var u := Serve(s.(pie := false), turns, []);
      SameHistory(s.(pie := false), u, s, u.(pie := true), Ready(lines, s.history), []);
    }
  }

  lemma SameHistory(s: State, t: State, s': State, t': State, ready: set<Id>, under: seq<Id>)
    requires s.history == s'.history && t.history == t'.history && CallsLeast(s, t, ready, under)
    ensures CallsLeast(s', t', ready, under)
  {
  }

  /** A handler that lets others interrupt it is interrupted by a line if and only if the line
      has a smaller id and a handler. */
  lemma StretchAdmitsExactlyWhen(s: State, q: Id, isr: Work, more: Turns, under: seq<Id>)
    requires Inv(s) && TableIsLatest(s) && under != []
    ensures var t := Run(s, Window(Interrupt(Turn({q}, isr, more), Done), Done), under);
            if q < under[|under| - 1] && Latest(s.history, q).handler != 0 then CallsLeast(s, t, {q}, under)
            else t.history == s.history
  {
    hide Serve, CallsLeast;
    var p := under[|under| - 1];
    var turns := Turn({q}, isr, more);
    var t := Open(s, p);
    RunsWindow(s, Interrupt(turns, Done), under);
    RunsInterrupt(t, turns, under);
    assert q in ALL;
    assert q in t.ienable <==> q < p && Latest(s.history, q).handler != 0;
    if q in t.ienable {
      assert {q} * t.ienable == {q};
      var u := Serve(t.(pie := false), turns, under);
      ServesLeast(t.(pie := false), {q}, isr, more, {q}, under);
      SameHistory(t.(pie := false), u, s, Shut(u.(pie := true), s.mask), {q}, under);
    } else {
      assert {q} * t.ienable == {};
    }
  }

  /** Passes of the loop that find these lines raised, with handlers that do nothing. */
  function Idle(lines: seq<set<Id>>): Turns {
    if lines == [] then End else Turn(lines[0], Work.Done, Idle(lines[1..]))
  }

  /** The call of the least id among the raised lines that has a handler. */
  ghost predicate IsCallOf(h: Happening, lines: set<Id>, history: seq<Happening>) {
    h.Dispatch? && h.call.id in Ready(lines, history) && forall i <- Ready(lines, history) :: h.call.id <= i
  }

  lemma IdleTurn(s: State, lines: set<Id>, more: Turns, under: seq<Id>) returns (t: State, call: Call)
    requires lines * s.ienable != {}
    ensures Serve(s, Turn(lines, Work.Done, more), under) == Serve(t, more, under)
    ensures t == s.(history := s.history + [Dispatch(call)])
    ensures call.id in lines * s.ienable && forall i <- lines * s.ienable :: call.id <= i
  {
    var pending := lines * s.ienable;
    Some(pending);
    var i := Lowest(pending, 0);
    t, call := Called(s, i, pending, under), Call(i, pending, s.table[i], under);
    assert Run(t, Work.Done, under + [i]) == t;
  }

  ghost predicate AreCallsOf(c: seq<Happening>, lines: seq<set<Id>>, history: seq<Happening>) {
    && |c| <= |lines|
    && (forall k | 0 <= k < |c| :: IsCallOf(c[k], lines[k], history))
    && (|c| < |lines| ==> Ready(lines[|c|], history) == {})
  }

  lemma OneMoreCall(h: Happening, r: seq<Happening>, lines: seq<set<Id>>, history: seq<Happening>)
    requires lines != [] && IsCallOf(h, lines[0], history) && AreCallsOf(r, lines[1..], history)
    ensures AreCallsOf([h] + r, lines, history)
  {
    forall k | 0 < k < 1 + |r| ensures IsCallOf(([h] + r)[k], lines[k], history) {
      assert IsCallOf(r[k - 1], lines[1..][k - 1], history);
    }
  }

  lemma ReadyAmong(s: State, lines: set<Id>, history: seq<Happening>)
    requires s.ienable == Ready(ALL, history)
    ensures lines * s.ienable == Ready(lines, history)
  {
    hide Latest;
    assert lines <= ALL;
  }

  lemma NothingReady(s: State, lines: seq<set<Id>>, history: seq<Happening>, under: seq<Id>)
    requires lines == [] || lines[0] * s.ienable == Ready(lines[0], history) == {}
    ensures Serve(s, Idle(lines), under) == s && AreCallsOf([], lines, history)
  {
  }

  lemma {:induction false} ServesInTurn(s: State, lines: seq<set<Id>>, history: seq<Happening>, under: seq<Id>)
    returns (c: seq<Happening>)
    requires s.ienable == Ready(ALL, history)
    ensures Serve(s, Idle(lines), under).history == s.history + c && AreCallsOf(c, lines, history)
    decreases |lines|
  {
    hide Serve, AreCallsOf, Ready;
    if lines != [] { ReadyAmong(s, lines[0], history); }
    if lines != [] && lines[0] * s.ienable != {} {
      var t, call := IdleTurn(s, lines[0], Idle(lines[1..]), under);
      var r := ServesInTurn(t, lines[1..], history, under);
      c := [Dispatch(call)] + r;
      OneMoreCall(Dispatch(call), r, lines, history);
    } else {
      c := [];
      NothingReady(s, lines, history, under);
    }
  }

  /** The loop goes on until it finds nothing that has a handler: pass by pass it calls the least
      id that is raised and has one. */
  lemma LoopServesUntilNothingIsReady(w: Work, lines: seq<set<Id>>) returns (c: seq<Happening>)
    ensures var s := Run(BOOT.(pie := true), w, []);
            && Run(s, Interrupt(Idle(lines), Work.Done), []).history == s.history + c && |c| <= |lines|
            && (forall k | 0 <= k < |c| :: IsCallOf(c[k], lines[k], s.history))
            && (|c| < |lines| ==> Ready(lines[|c|], s.history) == {})
  {
    hide Serve, Run, Inv, GoodCalls, IsCallOf;
    var s := Run(BOOT.(pie := true), w, []);
    RunIsLatest(BOOT.(pie := true), w, []);
    MasksFollowTheTable(w, true);
    RunsInterrupt(s, Idle(lines), []);
    assert s.ienable == Ready(ALL, s.history) by { assert forall i: Id :: i in ALL; }
    if Taken(s, Idle(lines)) {
      c := ServesInTurn(s.(pie := false), lines, s.history, []);
    } else {
      c := [];
      if lines != [] { assert lines[0] * s.ienable == Ready(lines[0], s.history); }
    }
  }
}
