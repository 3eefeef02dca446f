// What ends a wait besides work: blocking calls stay as long as the host is there, and are over
// a bounded number of statements after it is given up; and what close answers.
module UartWaiting {
  import opened Ring
  import opened UartMachine
  import opened UartSafety
  import opened UartLiveness
  import opened UartExact
  import opened Words

  // ---------------------------------------------------------------- with the host there

  /** A blocking read that does not give up. */
  ghost predicate Waits(s: State, t: State, space: int) {
    && Inv(t) && t.u.hostInactive == 0 < t.u.timeout && space > 0
    && if t.th.Idle? then |t.log| == |s.log| + 1 && t.log[|s.log|].GotBytes? && t.log[|s.log|].result > 0
       else
         && t.log == s.log && t.th.Reading? && t.th.r.space == space && !t.th.r.nonblock
         && (t.th.r.pos == 0 ==> t.th.r.pc !in {REnable, RDone})
         && (t.th.r.pc == RCheckIn ==> RxRing(t.u) != [])
  }

  lemma StillWaits(s: State, t: State, e: Event, space: int)
    requires Waits(s, t, space) && Calm(e)
    ensures Waits(s, Apply(t, e), space)
  {
    hide Isr, WriteStep, ReadStep, CloseStep, Inv, Contents;
    ApplyKeepsInv(t, e);
    Fits(t);
    match e
    case Step =>
      if t.th.Reading? {
        ReadKeepsInv(t);
        StepWaits(s, t, space);
      }
    case Interrupt(passes) =>
      IsrRely(t.u, passes);
      IsrKeepsHost(t.u, passes);
    case Second(_) =>
    case Arrive(_) =>
  }

  lemma StepWaits(s: State, t: State, space: int)
    requires Waits(s, t, space) && t.th.Reading? && Inv(ReadStep(t))
    ensures Waits(s, ReadStep(t), space)
  {
    hide Inv, Contents, ReadStep, Waits;
    if t.th.r.pc in {RAfter, RSpinIn, RSpinHost, RCheckIn} {
      SpinWaits(s, t, space);
    } else if t.th.r.pc in {RLoop, RLoadIn, RLoadOut} {
      LookWaits(s, t, space);
    } else {
      MoveWaits(s, t, space);
    }
  }

  lemma SpinWaits(s: State, t: State, space: int)
    requires Waits(s, t, space) && t.th.Reading? && t.th.r.pc in {RAfter, RSpinIn, RSpinHost, RCheckIn}
    requires Inv(ReadStep(t))
    ensures Waits(s, ReadStep(t), space)
  {
    hide Inv, Contents;
    Fits(t);
    EmptyRing(t.u);
  }

  lemma LookWaits(s: State, t: State, space: int)
    requires Waits(s, t, space) && t.th.Reading? && t.th.r.pc in {RLoop, RLoadIn, RLoadOut} && Inv(ReadStep(t))
    ensures Waits(s, ReadStep(t), space)
  {
    hide Inv, Contents;
    Fits(t);
  }

  lemma MoveWaits(s: State, t: State, space: int)
    requires Waits(s, t, space) && t.th.Reading? && Inv(ReadStep(t))
    requires t.th.r.pc !in {RAfter, RSpinIn, RSpinHost, RCheckIn, RLoop, RLoadIn, RLoadOut}
    ensures Waits(s, ReadStep(t), space)
  {
    hide Inv, Contents;
    Fits(t);
  }

  /** While the host is there a blocking read returns with data or not at all. */
  lemma {:induction false} BlockingReadWaits(s: State, events: seq<Event>, space: int)
    requires Waits(s, s, space) && s.th.Reading? && forall e <- events :: Calm(e)
    ensures Shape(s.u) && Waits(s, Run(s, events), space)
  {
    hide Apply, Inv;
    Fits(s);
    if events != [] {
      var before, e := events[..|events| - 1], events[|events| - 1];
      BlockingReadWaits(s, before, space);
      StillWaits(s, Run(s, before), e, space);
    }
  }

  lemma BlockingReadReturnsData(s: State, events: seq<Event>, space: int)
    requires Inv(s) && s.th == Begin(CallRead(space, false)) && space > 0
    requires s.u.hostInactive == 0 < s.u.timeout && forall e <- events :: Calm(e)
    ensures Shape(s.u)
    ensures var t := Run(s, events);
            t.th.Idle? ==> |t.log| == |s.log| + 1 && t.log[|s.log|].GotBytes? && t.log[|s.log|].result > 0
  {
    hide Run, Inv;
    BlockingReadWaits(s, events, space);
  }

  /** While the host is there a blocking write returns with everything written or not at all. */
  lemma {:induction false} BlockingWriteWritesAll(s: State, events: seq<Event>, data: seq<byte>)
    requires Writes(s, data) && forall e <- events :: Calm(e)
    ensures Shape(s.u)
    ensures var t := Run(s, events); Written(t, s.log, data) || (Writes(t, data) && t.log == s.log)
  {
    hide Apply, Inv;
    StepIsForeground(s);
    if events != [] {
      var before, e := events[..|events| - 1], events[|events| - 1];
      BlockingWriteWritesAll(s, before, data);
      var t := Run(s, before);
      if t.th.Idle? {
        IdleStays(t, e);
      } else if e.Step? {
        StepIsForeground(t);
        WriteGoesOn(t, data);
      } else {
        HardwareKeepsWrite(t, e, data);
      }
    }
  }

  // ---------------------------------------------------------------- with the host given up

  /** Events during a call that show no sign of the host. */
  predicate Silent(e: Event) { !e.Enter? && (e.Second? ==> !e.ac) }

  ghost predicate GivenUp(u: Uart) { u.hostInactive >= u.timeout && u.hostInactive > 0 }

  lemma StaysGivenUp(t: State, e: Event)
    requires Inv(t) && GivenUp(t.u) && Silent(e)
    ensures Inv(Apply(t, e)) && GivenUp(Apply(t, e).u)
  {
    hide Isr, Inv, WriteStep, ReadStep, CloseStep, Contents;
    ApplyKeepsInv(t, e);
    Fits(t);
    match e
    case Step => StepKeepsHost(t);
    case Interrupt(passes) =>
      IsrKeepsHost(t.u, passes);
      IsrRely(t.u, passes);
    case Second(_) =>
    case Arrive(_) =>
  }

  lemma StepKeepsHost(t: State)
    requires Shape(t.u)
    ensures Foreground(t).u.hostInactive == t.u.hostInactive && Foreground(t).u.timeout == t.u.timeout
  {
    hide ReadStep, WriteStep, CloseStep, Contents;
    match t.th
    case Idle =>
    case Writing(_) => WriteStepKeepsHost(t);
    case Reading(_) => ReadStepKeepsHost(t);
    case Closing(_) => CloseStepKeepsHost(t);
  }

  lemma WriteStepKeepsHost(t: State)
    requires Shape(t.u) && t.th.Writing?
    ensures WriteStep(t).u.hostInactive == t.u.hostInactive && WriteStep(t).u.timeout == t.u.timeout
  {
    hide Contents;
  }

  lemma ReadStepKeepsHost(t: State)
    requires Shape(t.u) && t.th.Reading?
    ensures ReadStep(t).u.hostInactive == t.u.hostInactive && ReadStep(t).u.timeout == t.u.timeout
  {
    hide Contents;
  }

  lemma CloseStepKeepsHost(t: State)
    requires Shape(t.u) && t.th.Closing?
    ensures CloseStep(t).u == t.u
  {
  }

  /** Statements to the end of a write, whoever takes bytes meanwhile. */
  function LastWriteRank(w: Writer, len: nat): int {
    (|w.data| - w.pos) * (len + 14) +
    match w.pc
    case WLoop => len + 13
    case WLoadIn => len + 12
    case WLoadOut => len + 11
    case WCopy => w.n - w.k + 8
    case WPublish => 7
    case WEnable => 5
    case WSpinOut => 4
    case WSpinHost => 3
    case WCheckHost => 2
    case WDone => 1
  }

  lemma WriteStepEnds(t: State)
    requires Inv(t) && GivenUp(t.u) && t.th.Writing?
    ensures Inv(Foreground(t)) && |Foreground(t).u.txBuf| == |t.u.txBuf|
    ensures LastWriteRank(t.th.w, |t.u.txBuf|) >= 1
    ensures var v := Foreground(t);
            if v.th.Idle? then |v.log| == |t.log| + 1 && v.log[|t.log|].Wrote?
            else v.th.Writing? && v.th.w.data == t.th.w.data && v.log == t.log
                 && LastWriteRank(v.th.w, |v.u.txBuf|) < LastWriteRank(t.th.w, |t.u.txBuf|)
  {
    hide Inv, WriteStep;
    Fits(t);
    WriteKeepsInv(t);
    WriteRankPositive(t);
    if t.th.w.pc == WPublish {
      PublishEnds(t);
    } else {
      MoveEnds(t);
    }
  }

  lemma WriteRankPositive(t: State)
    requires Inv(t) && t.th.Writing?
    ensures LastWriteRank(t.th.w, |t.u.txBuf|) >= 1
  {
    hide Inv, Contents;
    Fits(t);
    NotNegative(|t.th.w.data| - t.th.w.pos, |t.u.txBuf|);
  }

  lemma PublishEnds(t: State)
    requires Inv(t) && t.th.Writing? && t.th.w.pc == WPublish
    ensures Shape(t.u) && var v := WriteStep(t);
            && v.th.Writing? && v.th.w.data == t.th.w.data && v.log == t.log && |v.u.txBuf| == |t.u.txBuf|
            && LastWriteRank(v.th.w, |v.u.txBuf|) < LastWriteRank(t.th.w, |t.u.txBuf|)
  {
    hide Inv, Contents;
    Fits(t);
    FewerToGo(|t.th.w.data| - t.th.w.pos, t.th.w.n, |t.u.txBuf|);
  }

  lemma MoveEnds(t: State)
    requires Inv(t) && GivenUp(t.u) && t.th.Writing? && t.th.w.pc != WPublish
    ensures Shape(t.u) && var v := WriteStep(t);
            && |v.u.txBuf| == |t.u.txBuf|
            && if v.th.Idle? then |v.log| == |t.log| + 1 && v.log[|t.log|].Wrote?
               else v.th.Writing? && v.th.w.data == t.th.w.data && v.log == t.log
                    && LastWriteRank(v.th.w, |v.u.txBuf|) < LastWriteRank(t.th.w, |t.u.txBuf|)
  {
    hide Inv, Contents;
    Fits(t);
    RoomFits(t.u);
  }

  /** Statements to the end of a read, whatever arrives meanwhile. */
  ghost function LastReadRank(u: Uart, r: Reader): int requires Shape(u) {
    if r.pos > 0 || RxRing(u) != [] then ReadRank(u, r)
    else
      (r.space - r.pos) * (|u.rxBuf| + 14) +
      match r.pc
      case RLoop => |u.rxBuf| + 23
      case RLoadIn => |u.rxBuf| + 22
      case RLoadOut => |u.rxBuf| + 21
      case RAfter => |u.rxBuf| + 20
      case RSpinIn => |u.rxBuf| + 19
      case RSpinHost => |u.rxBuf| + 18
      case RCheckIn => |u.rxBuf| + 17
      case REnable => 2
      case RDone => 1
      case _ => 0
  }

  lemma ReadStepEnds(t: State, space: int)
    requires Inv(t) && GivenUp(t.u) && t.th.Reading? && t.th.r.space == space > 0
    ensures Inv(Foreground(t)) && |Foreground(t).u.rxBuf| == |t.u.rxBuf|
    ensures Shape(t.u) && LastReadRank(t.u, t.th.r) >= 1
    ensures var v := Foreground(t);
            if v.th.Idle? then |v.log| == |t.log| + 1 && v.log[|t.log|].GotBytes?
            else v.th.Reading? && v.th.r.space == space && v.log == t.log
                 && LastReadRank(v.u, v.th.r) < LastReadRank(t.u, t.th.r)
  {
    hide Inv, ReadStep, Contents;
    Fits(t);
    ReadKeepsInv(t);
    ReadRankPositive(t, space);
    if t.th.r.pc in {RCopy, RPublish} {
      TakeEnds(t, space);
    } else if t.th.r.pc in {RLoadIn, RLoadOut} {
      LookEnds(t, space);
    } else {
      PassOnEnds(t, space);
    }
  }

  lemma ReadRankPositive(t: State, space: int)
    requires Inv(t) && t.th.Reading? && t.th.r.space == space > 0
    ensures Shape(t.u) && LastReadRank(t.u, t.th.r) >= 1
  {
    hide Inv, Contents;
    Fits(t);
    NotNegative(space - t.th.r.pos, |t.u.rxBuf|);
  }

  lemma TakeEnds(t: State, space: int)
    requires Inv(t) && t.th.Reading? && t.th.r.space == space > 0 && t.th.r.pc in {RCopy, RPublish}
    requires Shape(t.u) && Inv(ReadStep(t))
    ensures var v := ReadStep(t);
            && |v.u.rxBuf| == |t.u.rxBuf|
            && v.th.Reading? && v.th.r.space == space && v.log == t.log
            && LastReadRank(v.u, v.th.r) < LastReadRank(t.u, t.th.r)
  {
    hide Inv, Contents;
    Fits(t);
    if t.th.r.pc == RPublish { FewerToGo(space - t.th.r.pos, t.th.r.n, |t.u.rxBuf|); }
  }

  lemma LookEnds(t: State, space: int)
    requires Inv(t) && t.th.Reading? && t.th.r.space == space > 0 && t.th.r.pc in {RLoadIn, RLoadOut}
    requires Shape(t.u) && Inv(ReadStep(t))
    ensures var v := ReadStep(t);
            && |v.u.rxBuf| == |t.u.rxBuf|
            && v.th.Reading? && v.th.r.space == space && v.log == t.log
            && LastReadRank(v.u, v.th.r) < LastReadRank(t.u, t.th.r)
  {
    hide Inv, Contents;
    Fits(t);
    EmptyRing(t.u);
    if t.th.r.pc == RLoadOut { AvailFits(t.u, t.th.r.inn); }
  }

  lemma PassOnEnds(t: State, space: int)
    requires Inv(t) && GivenUp(t.u) && t.th.Reading? && t.th.r.space == space > 0
    requires t.th.r.pc !in {RCopy, RPublish, RLoadIn, RLoadOut} && Shape(t.u) && Inv(ReadStep(t))
    ensures var v := ReadStep(t);
            && |v.u.rxBuf| == |t.u.rxBuf|
            && if v.th.Idle? then |v.log| == |t.log| + 1 && v.log[|t.log|].GotBytes?
               else v.th.Reading? && v.th.r.space == space && v.log == t.log
                    && LastReadRank(v.u, v.th.r) < LastReadRank(t.u, t.th.r)
  {
    hide Inv, Contents;
    Fits(t);
    EmptyRing(t.u);
  }

  /** Hardware events do not put the end of a call off. */
  lemma HardwareKeepsRanks(t: State, e: Event)
    requires Inv(t) && !e.Enter? && !e.Step?
    ensures var v := Apply(t, e);
            && Inv(v) && v.th == t.th && v.log == t.log && |v.u.txBuf| == |t.u.txBuf| && |v.u.rxBuf| == |t.u.rxBuf|
            && Shape(t.u) && Shape(v.u)
            && (t.th.Reading? && t.th.r.space > 0 ==> LastReadRank(v.u, t.th.r) <= LastReadRank(t.u, t.th.r))
  {
    hide Isr, Inv, Contents;
    ApplyKeepsInv(t, e);
    Fits(t);
    match e
    case Interrupt(passes) => IsrRely(t.u, passes);
    case Second(_) =>
    case Arrive(_) =>
  }

  /** Once the host is given up a write is over after a bounded number of statements. */
  lemma {:induction false} WriteEndsWithoutHost(s: State, events: seq<Event>)
    requires Inv(s) && GivenUp(s.u) && s.th.Writing? && forall e <- events :: Silent(e)
    ensures Shape(s.u)
    ensures var t := Run(s, events);
            && Inv(t) && GivenUp(t.u) && |t.u.txBuf| == |s.u.txBuf|
            && if t.th.Idle? then |t.log| == |s.log| + 1 && t.log[|s.log|].Wrote?
               else t.th.Writing? && t.log == s.log
                    && LastWriteRank(t.th.w, |t.u.txBuf|) + StepCount(events) <= LastWriteRank(s.th.w, |s.u.txBuf|)
  {
    hide Apply, Inv, GivenUp, LastWriteRank;
    StepIsForeground(s);
    if events != [] {
      var before, e := events[..|events| - 1], events[|events| - 1];
      WriteEndsWithoutHost(s, before);
      var t := Run(s, before);
      StaysGivenUp(t, e);
      if !e.Step? {
        HardwareKeepsRanks(t, e);
      } else {
        StepIsForeground(t);
        if t.th.Writing? { WriteStepEnds(t); } else { IdleStep(t); }
      }
    }
  }

  lemma IdleStep(t: State)
    requires Shape(t.u) && t.th == Idle
    ensures Foreground(t) == t
  {
  }

  /** So many statements, and it has returned: with the host given up nobody waits for ever. */
  lemma WriteIsOverWithoutHost(s: State, events: seq<Event>)
    requires Inv(s) && GivenUp(s.u) && s.th.Writing? && forall e <- events :: Silent(e)
    requires StepCount(events) >= |s.th.w.data| * (|s.u.txBuf| + 14) + |s.u.txBuf| + 13
    ensures Shape(s.u) && Run(s, events).th.Idle?
  {
    hide Run, Inv, GivenUp;
    WriteEndsWithoutHost(s, events);
    var t := Run(s, events);
    if t.th.Writing? { WriteRankPositive(t); }
    WriteRankBound(s);
  }

  lemma WriteRankBound(s: State)
    requires Inv(s) && s.th.Writing?
    ensures LastWriteRank(s.th.w, |s.u.txBuf|) <= |s.th.w.data| * (|s.u.txBuf| + 14) + |s.u.txBuf| + 13
  {
    hide Inv, Contents;
    Fits(s);
    Scale(|s.th.w.data| - s.th.w.pos, |s.th.w.data|, |s.u.txBuf| + 14);
  }

  /** Once the host is given up a read is over after a bounded number of statements. */
  lemma {:induction false} ReadEndsWithoutHost(s: State, events: seq<Event>, space: int)
    requires Inv(s) && GivenUp(s.u) && s.th.Reading? && s.th.r.space == space > 0 && forall e <- events :: Silent(e)
    ensures Shape(s.u)
    ensures var t := Run(s, events);
            && Inv(t) && GivenUp(t.u) && |t.u.rxBuf| == |s.u.rxBuf|
            && if t.th.Idle? then |t.log| == |s.log| + 1 && t.log[|s.log|].GotBytes?
               else t.th.Reading? && t.th.r.space == space && t.log == s.log
                    && LastReadRank(t.u, t.th.r) + StepCount(events) <= LastReadRank(s.u, s.th.r)
  {
    hide Apply, Inv, GivenUp, LastReadRank;
    StepIsForeground(s);
    if events != [] {
      var before, e := events[..|events| - 1], events[|events| - 1];
      ReadEndsWithoutHost(s, before, space);
      var t := Run(s, before);
      StaysGivenUp(t, e);
      if !e.Step? {
        HardwareKeepsRanks(t, e);
      } else {
        StepIsForeground(t);
        if t.th.Reading? { ReadStepEnds(t, space); } else { IdleStep(t); }
      }
    }
  }

  /** The same for a read, in either mode. */
  lemma ReadIsOverWithoutHost(s: State, events: seq<Event>, space: int)
    requires Inv(s) && GivenUp(s.u) && s.th.Reading? && s.th.r.space == space > 0 && forall e <- events :: Silent(e)
    requires StepCount(events) >= space * (|s.u.rxBuf| + 14) + |s.u.rxBuf| + 23
    ensures Shape(s.u) && Run(s, events).th.Idle?
  {
    hide Run, Inv, GivenUp, LastReadRank;
    ReadEndsWithoutHost(s, events, space);
    var t := Run(s, events);
    if t.th.Reading? { ReadRankPositive(t, space); }
    LastReadRankBound(s, space);
  }

  lemma LastReadRankBound(s: State, space: int)
    requires Inv(s) && s.th.Reading? && s.th.r.space == space > 0
    ensures Shape(s.u) && LastReadRank(s.u, s.th.r) <= space * (|s.u.rxBuf| + 14) + |s.u.rxBuf| + 23
  {
    hide Inv, Contents;
    Fits(s);
    Scale(space - s.th.r.pos, space, |s.u.rxBuf| + 14);
  }

  // ---------------------------------------------------------------- close

  /** Close by itself: three statements decide.  It succeeds if the ring is empty or the host
      given up; otherwise a non-blocking close is refused, and a blocking one looks again. */
  lemma CloseAnswers(s: State, nonblock: bool)
    requires Inv(s) && s.th == Begin(CallClose(nonblock))
    ensures Shape(s.u)
    ensures var t := Run(s, [Step, Step, Step]);
            t.u == s.u &&
            if TxRing(s.u) == [] || s.u.hostInactive >= s.u.timeout then
              t.th == Idle && t.log == s.log + [Closed(nonblock, 0)]
            else if nonblock then t.th == Idle && t.log == s.log + [Closed(true, -EWOULDBLOCK)]
            else t == s
  {
    hide Inv, Contents;
    Fits(s);
    EqualIndicesMeanEmpty(s.u);
    assert [Step][..0] == [] && [Step, Step][..1] == [Step] && [Step, Step, Step][..2] == [Step, Step];
    assert Run(s, []) == s;
    assert Run(s, [Step]) == CloseStep(s);
    var a := CloseStep(s);
    assert Run(s, [Step, Step]) == Foreground(a);
    assert Run(s, [Step, Step, Step]) == Foreground(Foreground(a));
  }
}
