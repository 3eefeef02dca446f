// Interrupt registration and dispatch without a vectored controller: the handler table, the
// two enable masks, the dispatch loop, and handlers that let others interrupt them.
// A 32-bit mask is modelled as the set of its one bits.
module Interrupts {

  const NIRQ := 32
  const EINVAL := 22   // newlib

  type Id = i: nat | i < 32

  const ALL: set<Id> := set i: Id | true

  /** A row of the handler table; handler 0 is NULL. */
  datatype Entry = Entry(handler: nat, context: nat)

  type Table = t: seq<Entry> | |t| == 32 witness seq(32, _ => Entry(0, 0))

  /** A call from the dispatch loop: which handler, what was pending, and the ids of the
      handlers it interrupts, oldest first. */
  datatype Call = Call(id: Id, pending: set<Id>, entry: Entry, under: seq<Id>)

  /** What has happened, in order: registrations that were made, calls of handlers. */
  datatype Happening = Registration(id: Id, entry: Entry) | Dispatch(call: Call)

  datatype State = State(pie: bool, ienable: set<Id>, active: set<Id>, mask: set<Id>, table: Table,
                         history: seq<Happening>)

  function Dispatches(history: seq<Happening>): seq<Call> {
    if history == [] then []
    else
      var last := history[|history| - 1];
      Dispatches(history[..|history| - 1]) + (if last.Dispatch? then [last.call] else [])
  }

  function Calls(s: State): seq<Call> { Dispatches(s.history) }

  /** What the processor executes from some point on: registrations, interrupts that the
      hardware raises, and a handler's interruptible stretches. */
  datatype Work =
    | Done
    | Register(id: Id, entry: Entry, rest: Work)
    | Interrupt(turns: Turns, rest: Work)
    | Window(inside: Work, rest: Work)

  /** Passes of the dispatch loop: the lines that are raised when it looks, and what the
      handler it then calls does. */
  datatype Turns = End | Turn(lines: set<Id>, isr: Work, more: Turns)

  const BOOT := State(false, {}, {}, ALL, seq(32, _ => Entry(0, 0)), [])

  function Below(p: Id): set<Id> { set i: Id | i in ALL && i < p }

  // ---------------------------------------------------------------- operations

  function Registered(s: State, id: Id, e: Entry): (t: State)
    ensures Calls(t) == Calls(s)
  {
    assert (s.history + [Registration(id, e)])[..|s.history|] == s.history;
    var active := if e.handler != 0 then s.active + {id} else s.active - {id};
    s.(table := s.table[id := e], active := active, ienable := active,
       history := s.history + [Registration(id, e)])
  }

  /** alt_irq_interruptible */
  function Open(s: State, priority: Id): State {
    s.(mask := Below(priority), ienable := s.active * Below(priority), pie := true)
  }

  /** alt_irq_non_interruptible */
  function Shut(s: State, mask: set<Id>): State {
    s.(pie := false, mask := mask, ienable := mask * s.active)
  }

  /** The lowest id that is pending. */
  function Lowest(pending: set<Id>, from: nat): (i: Id)
    requires exists j <- pending :: j >= from
    ensures i in pending && forall j <- pending :: j >= from ==> i <= j
    decreases 32 - from
  {
    if from in pending then from else Lowest(pending, from + 1)
  }

  predicate Taken(s: State, turns: Turns) { s.pie && turns.Turn? && turns.lines * s.ienable != {} }

  function Run(s: State, w: Work, under: seq<Id>): State
    decreases w
  {
    match w
    case Done => s
    case Register(id, e, rest) => Run(Registered(s, id, e), rest, under)
    case Interrupt(turns, rest) =>
      Run(if Taken(s, turns) then Serve(s.(pie := false), turns, under).(pie := true) else s, rest, under)
    case Window(inside, rest) =>
      if under == [] then Run(s, rest, under)
      else Run(Shut(Run(Open(s, under[|under| - 1]), inside, under), s.mask), rest, under)
  }

  /** alt_irq_handler */
  function Serve(s: State, turns: Turns, under: seq<Id>): State
    decreases turns
  {
    match turns
    case End => s
    case Turn(lines, isr, more) =>
      var pending := lines * s.ienable;
      if pending == {} then s
      else
        Some(pending);
        var i := Lowest(pending, 0);
        Serve(Run(Called(s, i, pending, under), isr, under + [i]), more, under)
  }

  function Called(s: State, i: Id, pending: set<Id>, under: seq<Id>): (t: State)
    ensures Calls(t) == Calls(s) + [Call(i, pending, s.table[i], under)]
  {
    var c := Dispatch(Call(i, pending, s.table[i], under));
    assert (s.history + [c])[..|s.history|] == s.history;
    s.(history := s.history + [c])
  }

  lemma Some(pending: set<Id>)
    requires pending != {}
    ensures exists j <- pending :: j >= 0
  {
    var j :| j in pending;
    assert j >= 0;
  }

  // ---------------------------------------------------------------- what every run keeps

  /** The enabled ids are those with a handler, or, while a handler lets others interrupt it,
      those of them that the priority mask lets through. */
  ghost predicate Inv(s: State) {
    && (forall i: Id :: i in s.active <==> s.table[i].handler != 0)
    && (s.ienable == s.active || s.ienable == s.active * s.mask)
  }

  /** The dispatch loop called the lowest pending id, and that one had a handler. */
  predicate GoodCall(c: Call) {
    c.id in c.pending && (forall j <- c.pending :: c.id <= j) && c.entry.handler != 0
  }

  ghost predicate GoodCalls(s: State) { forall c <- Calls(s) :: GoodCall(c) }

  lemma {:induction false} RunKeeps(s: State, w: Work, under: seq<Id>)
    requires Inv(s) && GoodCalls(s)
    ensures Inv(Run(s, w, under)) && GoodCalls(Run(s, w, under)) && Run(s, w, under).mask == s.mask
    ensures !s.pie || under == [] ==> Run(s, w, under).pie == s.pie
    decreases w
  {
    match w
    case Done =>
    case Register(id, e, rest) =>
      RunKeeps(Registered(s, id, e), rest, under);
    case Interrupt(turns, rest) =>
      if Taken(s, turns) {
        ServeKeeps(s.(pie := false), turns, under);
        RunKeeps(Serve(s.(pie := false), turns, under).(pie := true), rest, under);
      } else {
        RunKeeps(s, rest, under);
      }
    case Window(inside, rest) =>
      if under == [] {
        RunKeeps(s, rest, under);
      } else {
        var t := Open(s, under[|under| - 1]);
        RunKeeps(t, inside, under);
        RunKeeps(Shut(Run(t, inside, under), s.mask), rest, under);
      }
  }

  lemma {:induction false} ServeKeeps(s: State, turns: Turns, under: seq<Id>)
    requires Inv(s) && GoodCalls(s) && !s.pie
    ensures Inv(Serve(s, turns, under)) && GoodCalls(Serve(s, turns, under))
    ensures Serve(s, turns, under).mask == s.mask && !Serve(s, turns, under).pie
    decreases turns
  {
    if turns.Turn? && turns.lines * s.ienable != {} {
      var pending := turns.lines * s.ienable;
      Some(pending);
      var i := Lowest(pending, 0);
      var t := Called(s, i, pending, under);
      assert GoodCall(Call(i, pending, s.table[i], under));
      RunKeeps(t, turns.isr, under + [i]);
      ServeKeeps(Run(t, turns.isr, under + [i]), turns.more, under);
    }
  }

  /** Outside handlers the hardware mask is the software mask, bit by bit the rows of the
      table that are not NULL, whatever registrations and interrupts have happened; and every
      call went to a registered handler, the first in order of priority. */
  lemma MasksFollowTheTable(w: Work, on: bool)
    ensures var s := Run(BOOT.(pie := on), w, []);
            && s.ienable == s.active && s.mask == ALL && s.pie == on
            && (forall i: Id :: i in s.ienable <==> s.table[i].handler != 0)
            && GoodCalls(s)
  {
    hide Run;
    RunKeeps(BOOT.(pie := on), w, []);
  }

  // ---------------------------------------------------------------- nesting

  /** Each handler interrupts handlers of larger ids only. */
  predicate Falling(ids: seq<Id>) { forall i, j | 0 <= i < j < |ids| :: ids[i] > ids[j] }

  ghost predicate AllFall(s: State) { forall c <- Calls(s) :: Falling(c.under + [c.id]) }

  /** The ids that may run on top of a stack of handlers. */
  function Guard(under: seq<Id>): set<Id> { if under == [] then ALL else Below(under[|under| - 1]) }

  function Front(under: seq<Id>): seq<Id> { if under == [] then [] else under[..|under| - 1] }

  /** The stack on top of which the next handler will run: with interrupts on the present one;
      otherwise the dispatch loop looks again when the running handler has returned. */
  function Next(pie: bool, under: seq<Id>): seq<Id> { if pie then under else Front(under) }

  /** A registration may leave no handler at an id that must not run next.  (With interrupts
      off inside an interruptible stretch, after another one that was nested in it, nothing can
      run before the stretch ends and takes the old mask back.) */
  predicate Allowed(t: State, under: seq<Id>, inside: bool) {
    (!t.pie && inside) || forall q: Id :: t.table[q].handler != 0 ==> q in Guard(Next(t.pie, under))
  }

  /** Every registration that is made is allowed where it is made. */
  predicate Careful(s: State, w: Work, under: seq<Id>, inside: bool)
    decreases w
  {
    match w
    case Done => true
    case Register(id, e, rest) =>
      var t := Registered(s, id, e);
      Allowed(t, under, inside) && Careful(t, rest, under, inside)
    case Interrupt(turns, rest) =>
      if Taken(s, turns) then
        && CarefulTurns(s.(pie := false), turns, under)
        && Careful(Serve(s.(pie := false), turns, under).(pie := true), rest, under, inside)
      else Careful(s, rest, under, inside)
    case Window(within, rest) =>
      if under == [] then Careful(s, rest, under, inside)
      else
        var t := Open(s, under[|under| - 1]);
        && Careful(t, within, under, true)
        && Careful(Shut(Run(t, within, under), s.mask), rest, under, inside)
  }

  predicate CarefulTurns(s: State, turns: Turns, under: seq<Id>)
    decreases turns
  {
    match turns
    case End => true
    case Turn(lines, isr, more) =>
      var pending := lines * s.ienable;
      pending == {} ||
      (Some(pending);
       var i := Lowest(pending, 0);
       var t := Called(s, i, pending, under);
       Careful(t, isr, under + [i], false) && CarefulTurns(Run(t, isr, under + [i]), more, under))
  }

  /** The invariant: what is enabled may run next, and so may what the mask lets through. */
  ghost predicate Nested(s: State, under: seq<Id>, inside: bool) {
    && Inv(s) && GoodCalls(s) && AllFall(s) && Falling(under)
    && s.mask <= Guard(Next(s.pie, under))
    && (s.pie || !inside ==> s.ienable <= Guard(Next(s.pie, under)))
  }

  lemma {:induction false} RunNests(s: State, w: Work, under: seq<Id>, inside: bool)
    requires Nested(s, under, inside) && Careful(s, w, under, inside)
    ensures Nested(Run(s, w, under), under, inside) && Run(s, w, under).mask == s.mask
    ensures !s.pie || under == [] ==> Run(s, w, under).pie == s.pie
    decreases w
  {
    hide Falling, AllFall, GoodCalls;
    RunKeeps(s, w, under);
    match w
    case Done =>
    case Register(id, e, rest) =>
      RegisterNests(s, id, e, under, inside);
      RunNests(Registered(s, id, e), rest, under, inside);
    case Interrupt(turns, rest) =>
      if Taken(s, turns) {
        ServeNests(s.(pie := false), turns, under);
        RunNests(Serve(s.(pie := false), turns, under).(pie := true), rest, under, inside);
      } else {
        RunNests(s, rest, under, inside);
      }
    case Window(within, rest) =>
      if under == [] {
        RunNests(s, rest, under, inside);
      } else {
        var t := Open(s, under[|under| - 1]);
        OpenNests(s, under, inside);
        RunNests(t, within, under, true);
        RunKeeps(t, within, under);
        ShutNests(s, Run(t, within, under), under, inside);
        RunNests(Shut(Run(t, within, under), s.mask), rest, under, inside);
      }
  }

  lemma RegisterNests(s: State, id: Id, e: Entry, under: seq<Id>, inside: bool)
    requires Nested(s, under, inside) && Allowed(Registered(s, id, e), under, inside)
    ensures Nested(Registered(s, id, e), under, inside)
  {
    hide AllFall, GoodCalls, Falling, Guard;
    SameCalls(s, Registered(s, id, e));
  }

  lemma OpenNests(s: State, under: seq<Id>, inside: bool)
    requires Nested(s, under, inside) && under != []
    ensures Nested(Open(s, under[|under| - 1]), under, true)
  {
    hide Falling, AllFall, GoodCalls;
    SameCalls(s, Open(s, under[|under| - 1]));
  }

  lemma SameCalls(s: State, t: State)
    requires Calls(s) == Calls(t)
    ensures AllFall(s) <==> AllFall(t)
    ensures GoodCalls(s) <==> GoodCalls(t)
  {
  }

  /** At the end of a stretch the mask from before it is good for what may run next. */
  lemma ShutNests(s: State, t: State, under: seq<Id>, inside: bool)
    requires Nested(s, under, inside) && Nested(t, under, true) && under != []
    ensures Nested(Shut(t, s.mask), under, inside)
  {
    hide AllFall, GoodCalls;
    SameCalls(t, Shut(t, s.mask));
    FrontGuards(under);
  }

  lemma FrontGuards(under: seq<Id>)
    requires Falling(under)
    ensures Guard(under) <= Guard(Front(under))
  {
  }

  lemma {:induction false} ServeNests(s: State, turns: Turns, under: seq<Id>)
    requires !s.pie && Nested(s.(pie := true), under, true) && CarefulTurns(s, turns, under)
    ensures Nested(Serve(s, turns, under).(pie := true), under, true)
    ensures Serve(s, turns, under).mask == s.mask && !Serve(s, turns, under).pie
    decreases turns
  {
    hide Falling, AllFall, GoodCalls;
    if turns.Turn? && turns.lines * s.ienable != {} {
      var pending := turns.lines * s.ienable;
      Some(pending);
      var i := Lowest(pending, 0);
      var t := Called(s, i, pending, under);
      CallNests(s, i, pending, under);
      RunNests(t, turns.isr, under + [i], false);
      ReturnNests(Run(t, turns.isr, under + [i]), i, under);
      ServeNests(Run(t, turns.isr, under + [i]), turns.more, under);
    }
  }

  /** A call that the dispatch loop makes on top of `under`. */
  lemma CallNests(s: State, i: Id, pending: set<Id>, under: seq<Id>)
    requires !s.pie && Nested(s.(pie := true), under, true)
    requires pending <= s.ienable && i in pending && forall j <- pending :: i <= j
    ensures Nested(Called(s, i, pending, under), under + [i], false)
  {
    FallsFurther(under, i);
    assert Front(under + [i]) == under;
    assert s.table[i].handler != 0;
    var t := Called(s, i, pending, under);
    assert forall c <- Calls(t) :: c in Calls(s) || c == Call(i, pending, s.table[i], under);
  }

  lemma ReturnNests(s: State, i: Id, under: seq<Id>)
    requires Nested(s, under + [i], false) && !s.pie && Falling(under)
    ensures Nested(s.(pie := true), under, true)
  {
    hide AllFall, GoodCalls, Falling;
    assert Front(under + [i]) == under;
    SameCalls(s, s.(pie := true));
  }

  lemma FallsFurther(under: seq<Id>, i: Id)
    requires Falling(under) && (under != [] ==> i < under[|under| - 1])
    ensures Falling(under + [i])
  {
  }

  lemma FallingOnto(under: seq<Id>, i: Id)
    requires Falling(under + [i])
    ensures i !in under
  {
    forall k | 0 <= k < |under| ensures under[k] != i {
      assert (under + [i])[k] > (under + [i])[|under|];
    }
  }

  lemma BootNests(on: bool)
    ensures Nested(BOOT.(pie := on), [], false)
  {
  }

  /** If every registration is allowed where it is made, a handler is interrupted by handlers
      of smaller ids only, and no handler runs on top of itself. */
  lemma NestingFollowsPriority(w: Work)
    requires Careful(BOOT.(pie := true), w, [], false)
    ensures forall c <- Calls(Run(BOOT.(pie := true), w, [])) :: Falling(c.under + [c.id]) && c.id !in c.under
  {
    hide Run, Careful;
    BootNests(true);
    RunNests(BOOT.(pie := true), w, [], false);
    forall c <- Calls(Run(BOOT.(pie := true), w, [])) ensures c.id !in c.under {
      FallingOnto(c.under, c.id);
    }
  }

  // ---------------------------------------------------------------- and only then

  /** `cut` does what w does up to one of its registrations, after which the hardware raises
      line q; a handler that was cut short returns, and its stretches end. */
  predicate Cut(w: Work, cut: Work, q: Id)
    decreases w
  {
    match w
    case Done => false
    case Register(id, e, rest) =>
      && cut.Register? && cut.id == id && cut.entry == e
      && (cut.rest == Interrupt(Turn({q}, Done, End), Done) || Cut(rest, cut.rest, q))
    case Interrupt(turns, rest) =>
      && cut.Interrupt?
      && ((cut.turns == turns && Cut(rest, cut.rest, q)) || (CutTurns(turns, cut.turns, q) && cut.rest == Done))
    case Window(within, rest) =>
      && cut.Window?
      && ((cut.inside == within && Cut(rest, cut.rest, q)) || (Cut(within, cut.inside, q) && cut.rest == Done))
  }

  predicate CutTurns(turns: Turns, cut: Turns, q: Id)
    decreases turns
  {
    && turns.Turn? && cut.Turn? && cut.lines == turns.lines
    && ((cut.isr == turns.isr && CutTurns(turns.more, cut.more, q))
        || (Cut(turns.isr, cut.isr, q) && cut.more == Turn({q}, Done, End)))
  }

  /** A call on the log that breaks the order. */
  ghost predicate Breaks(s: State) { exists c <- Calls(s) :: !Falling(c.under + [c.id]) }

  lemma {:induction false} RunKeepsCalls(s: State, w: Work, under: seq<Id>)
    ensures Calls(s) <= Calls(Run(s, w, under))
    decreases w
  {
    match w
    case Done =>
    case Register(id, e, rest) => RunKeepsCalls(Registered(s, id, e), rest, under);
    case Interrupt(turns, rest) =>
      if Taken(s, turns) {
        ServeKeepsCalls(s.(pie := false), turns, under);
        RunKeepsCalls(Serve(s.(pie := false), turns, under).(pie := true), rest, under);
      } else {
        RunKeepsCalls(s, rest, under);
      }
    case Window(within, rest) =>
      if under == [] {
        RunKeepsCalls(s, rest, under);
      } else {
        var t := Open(s, under[|under| - 1]);
        RunKeepsCalls(t, within, under);
        RunKeepsCalls(Shut(Run(t, within, under), s.mask), rest, under);
      }
  }

  lemma {:induction false} ServeKeepsCalls(s: State, turns: Turns, under: seq<Id>)
    ensures Calls(s) <= Calls(Serve(s, turns, under))
    decreases turns
  {
    if turns.Turn? && turns.lines * s.ienable != {} {
      var pending := turns.lines * s.ienable;
      Some(pending);
      var i := Lowest(pending, 0);
      var t := Called(s, i, pending, under);
      RunKeepsCalls(t, turns.isr, under + [i]);
      ServeKeepsCalls(Run(t, turns.isr, under + [i]), turns.more, under);
    }
  }

  lemma BreaksOn(s: State, t: State)
    requires Breaks(s) && Calls(s) <= Calls(t)
    ensures Breaks(t)
  {
    var c :| c in Calls(s) && !Falling(c.under + [c.id]);
    assert c in Calls(t);
  }

  /** With line q raised and enabled the dispatch loop calls q on top of `under`. */
  lemma RaisedIsServed(s: State, q: Id, under: seq<Id>)
    requires q in s.ienable
    ensures Serve(s, Turn({q}, Done, End), under) == Called(s, q, {q}, under)
    ensures q !in Guard(under) ==> Breaks(Serve(s, Turn({q}, Done, End), under))
  {
    assert {q} * s.ienable == {q};
    Some({q});
    assert Lowest({q}, 0) == q;
    var t := Called(s, q, {q}, under);
    if q !in Guard(under) {
      var c := Call(q, {q}, s.table[q], under);
      assert Calls(t)[|Calls(s)|] == c;
      assert c in Calls(t);
      NotFalling(under, q);
    }
  }

  lemma NotFalling(under: seq<Id>, q: Id)
    requires q !in Guard(under)
    ensures !Falling(under + [q])
  {
    assert q in ALL;
    assert under != [];
    var ids := under + [q];
    assert ids[|under| - 1] == under[|under| - 1] && ids[|under|] == q;
  }

  /** After a registration that is not allowed, the hardware can break the order: at once if
      interrupts are on, and otherwise as soon as the handler has returned. */
  lemma {:induction false} Exposed(s: State, w: Work, under: seq<Id>, inside: bool) returns (cut: Work, q: Id)
    requires Nested(s, under, inside) && !Careful(s, w, under, inside)
    ensures Cut(w, cut, q)
    ensures Breaks(Run(s, cut, under))
            || (var t := Run(s, cut, under); !inside && !t.pie && q in t.ienable && q !in Guard(Front(under)))
    decreases w
  {
    hide Falling, AllFall, GoodCalls, Breaks;
    match w
    case Register(id, e, rest) =>
      var t := Registered(s, id, e);
      SameCalls(s, t);
      if Allowed(t, under, inside) {
        var r;
        r, q := Exposed(t, rest, under, inside);
        cut := Register(id, e, r);
      } else {
        cut, q := ExposedHere(s, id, e, rest, under, inside);
      }
    case Interrupt(turns, rest) =>
      if Taken(s, turns) {
        if CarefulTurns(s.(pie := false), turns, under) {
          ServeNests(s.(pie := false), turns, under);
          var r;
          r, q := Exposed(Serve(s.(pie := false), turns, under).(pie := true), rest, under, inside);
          cut := Interrupt(turns, r);
        } else {
          var ts;
          ts, q := ExposedTurns(s.(pie := false), turns, under);
          cut := Interrupt(ts, Done);
          RunsInterrupt(s, ts, under);
          BreaksOn(Serve(s.(pie := false), ts, under), Run(s, cut, under));
        }
      } else {
        var r;
        r, q := Exposed(s, rest, under, inside);
        cut := Interrupt(turns, r);
      }
    case Window(within, rest) =>
      if under == [] {
        var r;
        r, q := Exposed(s, rest, under, inside);
        cut := Window(within, r);
      } else {
        var t := Open(s, under[|under| - 1]);
        OpenNests(s, under, inside);
        if Careful(t, within, under, true) {
          RunNests(t, within, under, true);
          RunKeeps(t, within, under);
          ShutNests(s, Run(t, within, under), under, inside);
          var r;
          r, q := Exposed(Shut(Run(t, within, under), s.mask), rest, under, inside);
          cut := Window(within, r);
        } else {
          var r;
          r, q := Exposed(t, within, under, true);
          cut := Window(r, Done);
          RunsWindow(s, r, under);
          BreaksOn(Run(t, r, under), Run(s, cut, under));
        }
      }
  }

  lemma RunsInterrupt(s: State, turns: Turns, under: seq<Id>)
    ensures Run(s, Interrupt(turns, Done), under) ==
            if Taken(s, turns) then Serve(s.(pie := false), turns, under).(pie := true) else s
  {
  }

  lemma RunsWindow(s: State, within: Work, under: seq<Id>)
    requires under != []
    ensures Run(s, Window(within, Done), under) == Shut(Run(Open(s, under[|under| - 1]), within, under), s.mask)
  {
    hide Open, Shut, Registered, Serve, Taken;
  }

  lemma ExposedHere(s: State, id: Id, e: Entry, rest: Work, under: seq<Id>, inside: bool) returns (cut: Work, q: Id)
    requires Nested(s, under, inside) && !Allowed(Registered(s, id, e), under, inside)
    ensures Cut(Register(id, e, rest), cut, q)
    ensures Breaks(Run(s, cut, under))
            || (var t := Run(s, cut, under); !inside && !t.pie && q in t.ienable && q !in Guard(Front(under)))
  {
    hide Falling, AllFall, GoodCalls, Breaks;
    var t := Registered(s, id, e);
    q :| t.table[q].handler != 0 && q !in Guard(Next(t.pie, under));
    var raised := Turn({q}, Done, End);
    cut := Register(id, e, Interrupt(raised, Done));
    assert q in t.ienable;
    assert {q} * t.ienable != {} by { assert q in {q} * t.ienable; }
    assert Run(s, cut, under) == Run(t, cut.rest, under);
    RunsInterrupt(t, raised, under);
    if t.pie {
      RaisedIsServed(t.(pie := false), q, under);
      BreaksOn(Serve(t.(pie := false), raised, under), Run(s, cut, under));
    }
  }

  lemma {:induction false} ExposedTurns(s: State, turns: Turns, under: seq<Id>) returns (cut: Turns, q: Id)
    requires !s.pie && Nested(s.(pie := true), under, true) && !CarefulTurns(s, turns, under)
    ensures CutTurns(turns, cut, q) && Breaks(Serve(s, cut, under))
    decreases turns
  {
    hide Falling, AllFall, GoodCalls, Breaks;
    var pending := turns.lines * s.ienable;
    Some(pending);
    var i := Lowest(pending, 0);
    var t := Called(s, i, pending, under);
    CallNests(s, i, pending, under);
    if Careful(t, turns.isr, under + [i], false) {
      RunNests(t, turns.isr, under + [i], false);
      ReturnNests(Run(t, turns.isr, under + [i]), i, under);
      var ts;
      ts, q := ExposedTurns(Run(t, turns.isr, under + [i]), turns.more, under);
      cut := Turn(turns.lines, turns.isr, ts);
    } else {
      var r;
      r, q := Exposed(t, turns.isr, under + [i], false);
      cut := Turn(turns.lines, r, Turn({q}, Done, End));
      var u := Run(t, r, under + [i]);
      assert Front(under + [i]) == under;
      if Breaks(u) {
        ServeKeepsCalls(u, Turn({q}, Done, End), under);
        BreaksOn(u, Serve(s, cut, under));
      } else {
        RaisedIsServed(u, q, under);
      }
    }
  }

  /** Cutting a careful program leaves it careful. */
  lemma {:induction false} CutIsCareful(s: State, w: Work, cut: Work, q: Id, under: seq<Id>, inside: bool)
    requires Careful(s, w, under, inside) && Cut(w, cut, q)
    ensures Careful(s, cut, under, inside)
    decreases w
  {
    match w
    case Register(id, e, rest) =>
      if Cut(rest, cut.rest, q) {
        CutIsCareful(Registered(s, id, e), rest, cut.rest, q, under, inside);
      } else {
        OneIdleInterrupt(Registered(s, id, e), q, under, inside);
      }
    case Interrupt(turns, rest) =>
      if Taken(s, turns) {
        if cut.turns == turns && Cut(rest, cut.rest, q) {
          CutIsCareful(Serve(s.(pie := false), turns, under).(pie := true), rest, cut.rest, q, under, inside);
        } else {
          CutTurnsAreCareful(s.(pie := false), turns, cut.turns, q, under);
        }
      } else if cut.turns == turns && Cut(rest, cut.rest, q) {
        CutIsCareful(s, rest, cut.rest, q, under, inside);
      }
    case Window(within, rest) =>
      if cut.inside == within && Cut(rest, cut.rest, q) {
        if under == [] {
          CutIsCareful(s, rest, cut.rest, q, under, inside);
        } else {
          var t := Open(s, under[|under| - 1]);
          CutIsCareful(Shut(Run(t, within, under), s.mask), rest, cut.rest, q, under, inside);
        }
      } else if under != [] {
        CutIsCareful(Open(s, under[|under| - 1]), within, cut.inside, q, under, true);
      }
  }

  lemma OneIdleInterrupt(s: State, q: Id, under: seq<Id>, inside: bool)
    ensures Careful(s, Interrupt(Turn({q}, Done, End), Done), under, inside)
    ensures CarefulTurns(s, Turn({q}, Done, End), under)
  {
    OneIdleTurn(s, q, under);
    OneIdleTurn(s.(pie := false), q, under);
  }

  lemma OneIdleTurn(s: State, q: Id, under: seq<Id>)
    ensures CarefulTurns(s, Turn({q}, Done, End), under)
  {
    var pending := {q} * s.ienable;
    if pending != {} {
      Some(pending);
      var i := Lowest(pending, 0);
      var t := Called(s, i, pending, under);
      assert Careful(t, Done, under + [i], false);
      assert CarefulTurns(Run(t, Done, under + [i]), End, under);
    }
  }

  lemma {:induction false} CutTurnsAreCareful(s: State, turns: Turns, cut: Turns, q: Id, under: seq<Id>)
    requires CarefulTurns(s, turns, under) && CutTurns(turns, cut, q)
    ensures CarefulTurns(s, cut, under)
    decreases turns
  {
    var pending := turns.lines * s.ienable;
    if pending != {} {
      Some(pending);
      var i := Lowest(pending, 0);
      var t := Called(s, i, pending, under);
      if cut.isr == turns.isr && CutTurns(turns.more, cut.more, q) {
        CutTurnsAreCareful(Run(t, turns.isr, under + [i]), turns.more, cut.more, q, under);
      } else {
        CutIsCareful(t, turns.isr, cut.isr, q, under + [i], false);
        OneIdleInterrupt(Run(t, cut.isr, under + [i]), q, under, false);
      }
    }
  }

  /** A program keeps to the priorities whatever single interrupt the hardware raises after one
      of its registrations, if and only if every registration is allowed where it is made. */
  lemma NestingFollowsPriorityExactlyWhen(w: Work)
    ensures (AllFall(Run(BOOT.(pie := true), w, []))
             && forall cut, q: Id | Cut(w, cut, q) :: AllFall(Run(BOOT.(pie := true), cut, [])))
            <==> Careful(BOOT.(pie := true), w, [], false)
  {
    hide Run, Careful, Cut;
    var s := BOOT.(pie := true);
    BootNests(true);
    if Careful(s, w, [], false) {
      RunNests(s, w, [], false);
      forall cut, q: Id | Cut(w, cut, q) ensures AllFall(Run(s, cut, [])) {
        CutIsCareful(s, w, cut, q, [], false);
        RunNests(s, cut, [], false);
      }
    } else {
      var cut, q := Exposed(s, w, [], false);
      assert q in ALL;
      assert Breaks(Run(s, cut, []));
    }
  }

  /** A registration inside the stretch writes the whole software mask to the hardware, so
      that the priority of the running handler still counts exactly when no id from its own
      upwards is registered. */
  lemma RegisteringInAWindow(s: State, p: Id, id: Id, e: Entry)
    requires Inv(s)
    ensures var t := Registered(Open(s, p), id, e);
            t.ienable <= Below(p) <==> forall q: Id | q >= p :: t.table[q].handler == 0
  {
    var t := Registered(Open(s, p), id, e);
    assert forall i: Id :: i in t.ienable <==> t.table[i].handler != 0;
  }

  /** So a handler can be entered again while it is running. */
  lemma HandlerRunsOnTopOfItself()
    ensures var again := Interrupt(Turn({3}, Done, End), Done);
            var isr := Window(Register(7, Entry(2, 0), again), Done);
            var w := Register(3, Entry(1, 0), Interrupt(Turn({3}, isr, End), Done));
            var s := Run(BOOT.(pie := true), w, []);
            |Calls(s)| == 2 && Calls(s)[1].id == 3 && Calls(s)[1].under == [3]
  {
    var again := Interrupt(Turn({3}, Done, End), Done);
    var isr := Window(Register(7, Entry(2, 0), again), Done);
    var s := Registered(BOOT.(pie := true), 3, Entry(1, 0));
    assert {3} * s.ienable == {3};
    Some({3});
    assert Lowest({3}, 0) == 3;
    var t := Open(Called(s.(pie := false), 3, {3}, []), 3);
    var u := Registered(t, 7, Entry(2, 0));
    assert {3} * u.ienable == {3};
    assert Serve(u.(pie := false), Turn({3}, Done, End), [3]) == Called(u.(pie := false), 3, {3}, [3]);
  }

  /** A handler of a smaller id, without a stretch of its own, can take the priority away from
      the handler underneath: 3 interrupts 5 and registers 7, which then interrupts 5. */
  lemma PriorityLostFromAbove()
    ensures var isr3 := Register(7, Entry(3, 0), Done);
            var isr5 := Window(Interrupt(Turn({3}, isr3, Turn({7}, Done, End)), Done), Done);
            var w := Register(3, Entry(1, 0), Register(5, Entry(2, 0), Interrupt(Turn({5}, isr5, End), Done)));
            var s := Run(BOOT.(pie := true), w, []);
            |Calls(s)| == 3 && Calls(s)[2].id == 7 && Calls(s)[2].under == [5] && !Falling([5, 7])
  {
    var isr3 := Register(7, Entry(3, 0), Done);
    var within := Interrupt(Turn({3}, isr3, Turn({7}, Done, End)), Done);
    var isr5 := Window(within, Done);
    var s := Registered(Registered(BOOT.(pie := true), 3, Entry(1, 0)), 5, Entry(2, 0));
    assert {5} * s.ienable == {5};
    OnlyLine(5, {5});
    var t := Open(Called(s.(pie := false), 5, {5}, []), 5);
    InterruptedFromAbove(t);
    RunsInterrupt(t, within.turns, [5]);
    RunsWindow(Called(s.(pie := false), 5, {5}, []), within, [5]);
    assert [] + [5] == [5];
    var x := Run(Called(s.(pie := false), 5, {5}, []), isr5, [5]);
    assert Serve(s.(pie := false), Turn({5}, isr5, End), []) == x by { assert Serve(x, End, []) == x; }
    RunsInterrupt(s, Turn({5}, isr5, End), []);
    assert [5, 7][0] == 5 && [5, 7][1] == 7;
  }

  /** The middle of it: in its stretch handler 5 is interrupted by 3, and then by 7. */
  lemma InterruptedFromAbove(t: State)
    requires 3 in t.ienable
    ensures var turns := Turn({3}, Register(7, Entry(3, 0), Done), Turn({7}, Done, End));
            var u := Called(t.(pie := false), 3, {3}, [5]);
            Serve(t.(pie := false), turns, [5]) == Called(Registered(u, 7, Entry(3, 0)), 7, {7}, [5])
  {
    var isr3 := Register(7, Entry(3, 0), Done);
    var turns := Turn({3}, isr3, Turn({7}, Done, End));
    OnlyLine(3, {3});
    assert {3} * t.ienable == {3};
    var u := Called(t.(pie := false), 3, {3}, [5]);
    var v := Registered(u, 7, Entry(3, 0));
    assert Run(u, isr3, [5, 3]) == v by { assert Run(v, Done, [5, 3]) == v; }
    assert [5] + [3] == [5, 3];
    RaisedIsServed(v, 7, [5]);
  }

  lemma OnlyLine(q: Id, pending: set<Id>)
    requires pending == {q}
    ensures (exists j <- pending :: j >= 0) && Lowest(pending, 0) == q
  {
    Some(pending);
    assert Lowest(pending, 0) in pending;
  }

  // ---------------------------------------------------------------- the code

  class Cpu {
    var pie: bool                  // the PIE bit of the status register
    var ienable: set<Id>           // the IENABLE register
    var alt_irq_active: set<Id>
    var alt_priority_mask: set<Id>
    const alt_irq: array<Entry>
    ghost var history: seq<Happening>

    ghost predicate Valid()
      reads this
    {
      alt_irq.Length == NIRQ
    }

    ghost function Now(): State
      reads this, alt_irq
      requires Valid()
    {
      State(pie, ienable, alt_irq_active, alt_priority_mask, alt_irq[..], history)
    }

    constructor ()
      ensures Valid() && Now() == BOOT && fresh(alt_irq)
    {
      pie, ienable, alt_irq_active, alt_priority_mask := false, {}, {}, ALL;
      alt_irq := new Entry[32](_ => Entry(0, 0));
      history := [];
    }

    method DisableAll() returns (context: bool)
      modifies this`pie
      ensures context == old(pie) && !pie
    {
      context := pie;
      pie := false;
    }

    method EnableAll(context: bool)
      modifies this`pie
      ensures pie == context
    {
      pie := context;
    }

    method IrqEnable(id: Id)
      modifies this`pie, this`ienable, this`alt_irq_active
      ensures pie == old(pie) && alt_irq_active == ienable == old(alt_irq_active) + {id}
    {
      var context := DisableAll();
      alt_irq_active := alt_irq_active + {id};
      ienable := alt_irq_active;
      EnableAll(context);
    }

    method IrqDisable(id: Id)
      modifies this`pie, this`ienable, this`alt_irq_active
      ensures pie == old(pie) && alt_irq_active == ienable == old(alt_irq_active) - {id}
    {
      var context := DisableAll();
      alt_irq_active := alt_irq_active - {id};
      ienable := alt_irq_active;
      EnableAll(context);
    }

    /** alt_iic_isr_register, which compares the id as a signed number. */
    method Register(irq: nat, e: Entry) returns (rc: int)
      requires Valid() && irq < 0x8000_0000
      modifies this`pie, this`ienable, this`alt_irq_active, this`history, alt_irq
      ensures Valid()
      ensures if irq < NIRQ then rc == 0 && Now() == Registered(old(Now()), irq, e)
              else rc == -EINVAL && Now() == old(Now())
    {
      rc := -EINVAL;
      if irq < NIRQ {
        var context := DisableAll();
        alt_irq[irq] := e;
        history := history + [Registration(irq, e)];
        if e.handler != 0 { IrqEnable(irq); } else { IrqDisable(irq); }
        rc := 0;
        EnableAll(context);
      }
    }

    method Interruptible(priority: Id) returns (oldPriority: set<Id>)
      requires Valid()
      modifies this`pie, this`ienable, this`alt_priority_mask
      ensures Valid() && oldPriority == old(alt_priority_mask) && Now() == Open(old(Now()), priority)
    {
      oldPriority := alt_priority_mask;
      alt_priority_mask := Below(priority);
      ienable := alt_irq_active * alt_priority_mask;
      pie := true;
    }

    method NonInterruptible(mask: set<Id>)
      requires Valid()
      modifies this`pie, this`ienable, this`alt_priority_mask
      ensures Valid() && Now() == Shut(old(Now()), mask)
    {
      pie := false;
      alt_priority_mask := mask;
      ienable := mask * alt_irq_active;
    }

    /** alt_irq_handler: entered with something pending. */
    method Handler(turns: Turns, under: seq<Id>)
      requires Valid() && turns.Turn? && turns.lines * ienable != {}
      modifies this, alt_irq
      ensures Valid() && Now() == Serve(old(Now()), turns, under)
      decreases turns, 0
    {
      hide Run, Lowest;
      var more := turns;
      var pending := more.lines * ienable;
      while true
        invariant Valid() && more.Turn? && pending == more.lines * ienable != {}
        invariant Serve(Now(), more, under) == Serve(old(Now()), turns, under)
        invariant more == turns || more < turns
        decreases more
      {
        Some(pending);
        var i := Scan(pending);
        ghost var was := Now();
        history := history + [Dispatch(Call(i, pending, alt_irq[i], under))];
        assert Now() == Called(was, i, pending, under);
        Execute(more.isr, under + [i]);
        more := more.more;
        if more.End? { break; }
        pending := more.lines * ienable;
        if pending == {} { break; }
      }
    }

    /** Tests each bit in turn. */
    static method Scan(active: set<Id>) returns (i: Id)
      requires active != {}
      ensures (exists j <- active :: j >= 0) && i == Lowest(active, 0)
    {
      Some(active);
      var k := 0;
      while k !in active
        invariant exists j <- active :: j >= k
        invariant Lowest(active, 0) == Lowest(active, k)
        decreases 32 - k
      {
        k := k + 1;
      }
      i := k;
    }

    method Execute(w: Work, under: seq<Id>)
      requires Valid()
      modifies this, alt_irq
      ensures Valid() && Now() == Run(old(Now()), w, under)
      decreases w, 1
    {
      hide Serve, Lowest;
      match w
      case Done =>
      case Register(id, e, rest) =>
        var _ := this.Register(id, e);
        Execute(rest, under);
      case Interrupt(turns, rest) =>
        if pie && turns.Turn? && turns.lines * ienable != {} {
          pie := false;
          Handler(turns, under);
          pie := true;
        }
        Execute(rest, under);
      case Window(inside, rest) =>
        if under != [] {
          var oldPriority := Interruptible(under[|under| - 1]);
          Execute(inside, under);
          NonInterruptible(oldPriority);
          Execute(rest, under);
        } else {
          Execute(rest, under);
        }
    }
  }
}
