// How long calls of the driver take: a waiting call is over after a bounded number of
// interrupts that find work, whatever else happens between the thread's statements.
module UartLiveness {
  import opened Ring
  import opened UartMachine
  import opened UartSafety
  import opened UartTheorems
  import opened Words

  /** Events during a call while the host is there: no other call, no idle second. */
  predicate Calm(e: Event) { !e.Enter? && (e.Second? ==> e.ac) }

  function StepCount(events: seq<Event>): nat {
    if events == [] then 0
    else StepCount(events[..|events| - 1]) + (if events[|events| - 1].Step? then 1 else 0)
  }

  // ---------------------------------------------------------------- a blocking write

  /** A blocking write is under way, and has not given the host up. */
  ghost predicate Writes(s: State, data: seq<byte>) {
    && Inv(s) && s.u.hostInactive == 0
    && s.th.Writing? && s.th.w.data == data && !s.th.w.nonblock
    && (s.th.w.pc == WDone ==> s.th.w.pos == |data|)
  }

  /** Its next byte has a free cell in the ring. */
  ghost predicate HasRoom(s: State) requires Inv(s) && s.th.Writing? {
    s.th.w.pos < |s.th.w.data| ==> !Full(s.u.txBuf, s.u.txOut, s.u.txIn)
  }

  ghost predicate Written(s: State, log: seq<Done>, data: seq<byte>) {
    Inv(s) && s.th == Idle && s.log == log + [Wrote(data, false, Outcome(|data|, false))]
  }

  /** An upper bound on the statements to the next published byte and, if that is the last
      one, to the return. */
  function WriteRank(w: Writer, len: nat): int {
    if w.pos == |w.data| then
      match w.pc
      case WLoop => 3
      case WEnable => 2
      case _ => 1
    else
      match w.pc
      case WEnable => len + 12
      case WSpinHost => len + 11
      case WSpinOut => len + 10
      case WCheckHost => len + 9
      case WLoop => len + 8
      case WLoadIn => len + 7
      case WLoadOut => len + 6
      case WCopy => w.n - w.k + 5
      case _ => 4
  }

  lemma InvFits(s: State)
    requires Inv(s)
    ensures Shape(s.u) && LocalsFit(s.u, s.th)
  {
  }

  /** Nearer to a published byte, or to the return. */
  ghost predicate WriteNearer(s: State, t: State, data: seq<byte>)
    requires Inv(s) && s.th.Writing? && Inv(t)
  {
    var w := s.th.w;
    || Written(t, s.log, data)
    || (&& Writes(t, data) && t.log == s.log && |t.u.txBuf| == |s.u.txBuf|
        && (|| (w.pos < t.th.w.pos < |data| && w.pos + 2 <= |data|)
            || (t.th.w.pos in {w.pos, |data|} && HasRoom(t)
                && WriteRank(t.th.w, |t.u.txBuf|) < WriteRank(w, |s.u.txBuf|))))
  }

  /** A statement of the thread returns, publishes, or brings one of these nearer. */
  lemma WriteStepAdvances(s: State, data: seq<byte>)
    requires Writes(s, data) && HasRoom(s)
    ensures Inv(Foreground(s)) && WriteNearer(s, Foreground(s), data)
    ensures WriteRank(s.th.w, |s.u.txBuf|) >= 1
  {
    hide Inv, WriteNearer, WriteStep, HasRoom;
    StepIsForeground(s);
    WriteKeepsInv(s);
    if s.th.w.pc in {WLoop, WLoadIn, WEnable, WSpinOut, WSpinHost, WCheckHost, WDone} {
      MoveAdvances(s, data);
    } else if s.th.w.pc == WLoadOut {
      LoadAdvances(s, data);
    } else {
      CopyAdvances(s, data);
    }
    PositiveRank(s, data);
  }

  lemma PositiveRank(s: State, data: seq<byte>)
    requires Writes(s, data)
    ensures WriteRank(s.th.w, |s.u.txBuf|) >= 1
  {
    hide Contents, Accepted, Delivered, Honest;
  }

  lemma MoveAdvances(s: State, data: seq<byte>)
    requires Writes(s, data) && HasRoom(s)
    requires s.th.w.pc in {WLoop, WLoadIn, WEnable, WSpinOut, WSpinHost, WCheckHost, WDone}
    requires Inv(WriteStep(s))
    ensures WriteNearer(s, WriteStep(s), data)
  {
    hide Contents, Inv;
    InvFits(s);
    FullIffNextIsOut(s.u.txBuf, s.u.txOut, s.u.txIn);
  }

  lemma LoadAdvances(s: State, data: seq<byte>)
    requires Writes(s, data) && HasRoom(s) && s.th.w.pc == WLoadOut && Inv(WriteStep(s))
    ensures WriteNearer(s, WriteStep(s), data)
  {
    hide Contents, Inv;
    InvFits(s);
    FullIffNextIsOut(s.u.txBuf, s.u.txOut, s.u.txIn);
    RoomFits(s.u);
  }

  lemma CopyAdvances(s: State, data: seq<byte>)
    requires Writes(s, data) && HasRoom(s) && s.th.w.pc in {WCopy, WPublish} && Inv(WriteStep(s))
    ensures WriteNearer(s, WriteStep(s), data)
  {
    hide Contents, Inv;
    InvFits(s);
    if s.th.w.pc == WCopy && s.th.w.k < s.th.w.n {
      StoreIsInvisible(s.u.txBuf, s.u.txOut, s.u.txIn, s.th.w.k, s.th.w.data[s.th.w.pos + s.th.w.k]);
    }
  }

  /** Hardware events change neither the call nor the room it has. */
  lemma HardwareKeepsWrite(s: State, e: Event, data: seq<byte>)
    requires Writes(s, data) && Calm(e) && !e.Step?
    ensures var t := Apply(s, e);
            && Writes(t, data) && t.th == s.th && t.log == s.log && |t.u.txBuf| == |s.u.txBuf|
            && (HasRoom(s) ==> HasRoom(t))
  {
    hide Contents, Isr, Accepted, Delivered, Honest;
    ApplyKeepsInv(s, e);
    match e
    case Interrupt(passes) =>
      IsrRely(s.u, passes);
      IsrKeepsHost(s.u, passes);
    case Second(_) =>
    case Arrive(_) =>
  }

  lemma {:induction false} IsrKeepsHost(u: Uart, passes: seq<Pass>)
    requires Shape(u)
    ensures Isr(u, passes).hostInactive == u.hostInactive
    decreases |passes|
  {
    hide RxDrain, TxDrain, RxPass, TxPass;
    if passes != [] && (passes[0].ri || passes[0].wi) {
      var r := if passes[0].ri then RxPass(u, passes[0].arrivals) else u;
      if passes[0].ri { RxPassKeepsHost(u, passes[0].arrivals); }
      if passes[0].wi { TxPassKeepsHost(r, passes[0].space); }
      IsrKeepsHost(OnePass(u, passes[0]), passes[1..]);
    }
  }

  lemma RxPassKeepsHost(u: Uart, arrivals: seq<seq<byte>>)
    requires Shape(u)
    ensures RxPass(u, arrivals).hostInactive == u.hostInactive
  {
    hide RxDrain;
    RxDrainKeepsHost(u, true, arrivals);
  }

  lemma {:induction false} RxDrainKeepsHost(u: Uart, avail: bool, arrivals: seq<seq<byte>>)
    requires Shape(u)
    ensures RxDrain(u, avail, arrivals).0.hostInactive == u.hostInactive
    decreases |u.rxBuf| - |RxRing(u)|
  {
    hide Contents;
    var fifo := u.fifo + (if arrivals == [] then [] else arrivals[0]);
    FullIffNextIsOut(u.rxBuf, u.rxOut, u.rxIn);
    if (u.rxIn + 1) % |u.rxBuf| != u.rxOut && fifo != [] {
      RxDrainKeepsHost(TakeByte(u, fifo), |fifo| > 1, if arrivals == [] then [] else arrivals[1..]);
    }
  }

  lemma TxPassKeepsHost(u: Uart, space: nat)
    requires Shape(u)
    ensures TxPass(u, space).hostInactive == u.hostInactive
  {
    hide TxDrain;
    TxDrainKeepsHost(u, space);
  }

  lemma {:induction false} TxDrainKeepsHost(u: Uart, space: nat)
    requires Shape(u)
    ensures TxDrain(u, space).0.hostInactive == u.hostInactive
    decreases space
  {
    if space > 0 && u.txOut != u.txIn { TxDrainKeepsHost(SendByte(u), space - 1); }
  }

  /** A finished call stays finished. */
  lemma IdleStays(s: State, e: Event)
    requires Inv(s) && s.th == Idle && Calm(e)
    ensures var t := Apply(s, e); Inv(t) && t.th == Idle && t.log == s.log
  {
    hide Inv, Isr;
    ApplyKeepsInv(s, e);
  }

  /** Any statement of a write that is under way: it returns or goes on, never backwards. */
  lemma WriteGoesOn(s: State, data: seq<byte>)
    requires Writes(s, data)
    ensures var t := Foreground(s);
            || Written(t, s.log, data)
            || (Writes(t, data) && t.log == s.log && |t.u.txBuf| == |s.u.txBuf| && s.th.w.pos <= t.th.w.pos)
  {
    hide Contents, Accepted, Delivered, Honest;
    WriteKeepsInv(s);
  }

  /** Where a write that had room at s can be some events later. */
  ghost predicate OnItsWay(s: State, t: State, steps: nat, data: seq<byte>)
    requires Writes(s, data)
  {
    || Written(t, s.log, data)
    || (&& Writes(t, data) && t.log == s.log && |t.u.txBuf| == |s.u.txBuf|
        && (|| (s.th.w.pos < t.th.w.pos && s.th.w.pos + 2 <= |data|)
            || (&& t.th.w.pos in {s.th.w.pos, |data|} && HasRoom(t)
                && WriteRank(t.th.w, |t.u.txBuf|) + steps <= WriteRank(s.th.w, |s.u.txBuf|))))
  }

  lemma StaysOnItsWay(s: State, t: State, steps: nat, e: Event, data: seq<byte>)
    requires Writes(s, data) && OnItsWay(s, t, steps, data) && Calm(e)
    ensures OnItsWay(s, Apply(t, e), if e.Step? then steps + 1 else steps, data)
  {
    hide Inv, HasRoom, WriteRank, WriteStep, Apply;
    if t.th.Idle? {
      IdleStays(t, e);
    } else if !e.Step? {
      HardwareKeepsWrite(t, e, data);
    } else {
      StepIsForeground(t);
      if HasRoom(t) { WriteStepAdvances(t, data); }
      WriteGoesOn(t, data);
    }
  }

  lemma StepIsForeground(s: State)
    requires Inv(s)
    ensures Shape(s.u) && Apply(s, Step) == Foreground(s)
  {
  }

  /** With room in the ring, enough statements of the thread publish a byte, and return if it
      was the last one. */
  lemma {:induction false} WriteAdvances(s: State, events: seq<Event>, data: seq<byte>)
    requires Writes(s, data) && HasRoom(s) && forall e <- events :: Calm(e)
    ensures OnItsWay(s, Run(s, events), StepCount(events), data)
  {
    hide Inv, HasRoom, WriteRank, Apply;
    StepIsForeground(s);
    if events != [] {
      var before, e := events[..|events| - 1], events[|events| - 1];
      WriteAdvances(s, before, data);
      StaysOnItsWay(s, Run(s, before), StepCount(before), e, data);
    }
  }

  // ---------------------------------------------------------------- rounds of a write

  lemma {:induction false} RunFront(s: State, e: Event, rest: seq<Event>)
    requires Shape(s.u)
    ensures Run(s, [e] + rest) == Run(Apply(s, e), rest)
  {
    hide Apply;
    var events := [e] + rest;
    if rest == [] {
      assert events[..0] == [] && events == [e];
    } else {
      assert events[..|events| - 1] == [e] + rest[..|rest| - 1];
      RunFront(s, e, rest[..|rest| - 1]);
    }
  }

  lemma {:induction false} CountFront(e: Event, rest: seq<Event>)
    ensures StepCount([e] + rest) == StepCount(rest) + (if e.Step? then 1 else 0)
  {
    var events := [e] + rest;
    if rest == [] {
      assert events[..0] == [] && events == [e];
    } else {
      assert events[..|events| - 1] == [e] + rest[..|rest| - 1];
      CountFront(e, rest[..|rest| - 1]);
    }
  }

  /** An interrupt that finds room in the hardware. */
  predicate Sends(e: Event) { e.Interrupt? && e.passes != [] && e.passes[0].wi && e.passes[0].space > 0 }

  lemma SendingMakesRoom(s: State, e: Event, data: seq<byte>)
    requires Writes(s, data) && Sends(e)
    ensures var t := Apply(s, e);
            Writes(t, data) && HasRoom(t) && t.th == s.th && t.log == s.log && |t.u.txBuf| == |s.u.txBuf|
  {
    hide Contents, OnePass, Accepted, Delivered, TransmitFifo, ReceiveFifo, Honest;
    HardwareKeepsWrite(s, e, data);
    var u, v := s.u, OnePass(s.u, e.passes[0]);
    OnePassRely(u, e.passes[0]);
    if TxRing(u) != [] { PassSends(u, e.passes[0]); }
    IsrRely(v, e.passes[1..]);
  }

  /** A round: an interrupt that finds room, and time for the thread. */
  predicate WriteRound(r: seq<Event>, len: nat) {
    r != [] && Sends(r[0]) && (forall e <- r :: Calm(e)) && StepCount(r) >= len + 12
  }

  lemma RankBound(s: State, data: seq<byte>)
    requires Writes(s, data)
    ensures WriteRank(s.th.w, |s.u.txBuf|) <= |s.u.txBuf| + 12
  {
    hide Contents, Accepted, Delivered, Honest;
  }

  /** Each round of a write publishes a byte, and the round of its last byte ends it. */
  lemma RoundAdvances(s: State, r: seq<Event>, data: seq<byte>)
    requires Writes(s, data) && WriteRound(r, |s.u.txBuf|)
    ensures Shape(s.u)
    ensures var t := Run(s, r);
            || Written(t, s.log, data)
            || (&& Writes(t, data) && t.log == s.log && |t.u.txBuf| == |s.u.txBuf|
                && s.th.w.pos < t.th.w.pos && s.th.w.pos + 2 <= |data|)
  {
    hide Inv, Run, Apply, HasRoom, WriteRank;
    StepIsForeground(s);
    var s1, rest := Apply(s, r[0]), r[1..];
    assert r == [r[0]] + rest;
    SendingMakesRoom(s, r[0], data);
    RunFront(s, r[0], rest);
    CountFront(r[0], rest);
    WriteAdvances(s1, rest, data);
    RankBound(s1, data);
    var t := Run(s1, rest);
    if t.th.Writing? && HasRoom(t) { WriteStepAdvances(t, data); }
  }

  ghost function RunRounds(s: State, rounds: seq<seq<Event>>): (s': State)
    requires Shape(s.u)
    ensures Shape(s'.u)
  {
    if rounds == [] then s else Run(RunRounds(s, rounds[..|rounds| - 1]), rounds[|rounds| - 1])
  }

  /** A blocking write of n bytes is over after n interrupts that find room in the hardware,
      wherever it stands, with any calm events in between; it has written everything. */
  lemma WriteIsOver(s: State, rounds: seq<seq<Event>>, data: seq<byte>)
    requires Writes(s, data) && (forall r <- rounds :: WriteRound(r, |s.u.txBuf|))
    requires |rounds| >= 1 && |rounds| >= |data| - s.th.w.pos
    ensures Shape(s.u) && Written(RunRounds(s, rounds), s.log, data)
  {
    hide Inv;
    StepIsForeground(s);
    RoundsAdvance(s, rounds, |rounds|, data);
  }

  lemma {:induction false} RoundsAdvance(s: State, rounds: seq<seq<Event>>, budget: nat, data: seq<byte>)
    requires Writes(s, data) && Shape(s.u) && (forall r <- rounds :: WriteRound(r, |s.u.txBuf|))
    requires |rounds| <= budget && 1 <= budget && |data| - s.th.w.pos <= budget
    ensures var t := RunRounds(s, rounds);
            || Written(t, s.log, data)
            || (&& Writes(t, data) && t.log == s.log && |t.u.txBuf| == |s.u.txBuf|
                && |rounds| < budget && |data| - t.th.w.pos <= budget - |rounds|)
  {
    hide Inv, Run, WriteRound;
    if rounds != [] {
      var before, r := rounds[..|rounds| - 1], rounds[|rounds| - 1];
      RoundsAdvance(s, before, budget, data);
      var t := RunRounds(s, before);
      if t.th.Idle? {
        assert r in rounds;
        RoundIsCalm(r, |s.u.txBuf|);
        StaysIdle(t, r);
      } else {
        RoundAdvances(t, r, data);
      }
    }
  }

  lemma RoundIsCalm(r: seq<Event>, len: nat)
    requires WriteRound(r, len)
    ensures forall e <- r :: Calm(e)
  {
  }

  lemma {:induction false} StaysIdle(s: State, events: seq<Event>)
    requires Inv(s) && s.th == Idle && forall e <- events :: Calm(e)
    ensures Shape(s.u)
    ensures var t := Run(s, events); Inv(t) && t.th == Idle && t.log == s.log
  {
    hide Inv, Apply;
    StepIsForeground(s);
    if events != [] {
      StaysIdle(s, events[..|events| - 1]);
      IdleStays(Run(s, events[..|events| - 1]), events[|events| - 1]);
    }
  }

  // ---------------------------------------------------------------- a blocking read

  /** A blocking read for at least one byte is under way, and has not given the host up. */
  ghost predicate Reads(s: State, space: int) {
    && Inv(s) && s.u.hostInactive == 0 && space > 0
    && s.th.Reading? && s.th.r.space == space && !s.th.r.nonblock
    && (s.th.r.pos == 0 ==> s.th.r.pc !in {REnable, RDone})
  }

  /** It has a byte, or there is one for it. */
  ghost predicate HasByte(s: State) requires Inv(s) && s.th.Reading? { s.th.r.pos > 0 || RxRing(s.u) != [] }

  ghost predicate Got(s: State, log: seq<Done>, space: int) {
    && Inv(s) && s.th == Idle && |s.log| == |log| + 1 && s.log[..|log|] == log
    && var d := s.log[|log|];
       d.GotBytes? && d.space == space && !d.nonblock && 0 < d.result == |d.bytes| <= space
  }

  /** An upper bound on the statements to the return. */
  function ReadRank(u: Uart, r: Reader): int {
    var len := |u.rxBuf|;
    (r.space - r.pos) * (len + 14) +
    match r.pc
    case RLoadOut => if r.pos == 0 && r.inn == u.rxOut then len + 14 else len + 7
    case RAfter => if r.pos == 0 then len + 13 else 3
    case RSpinHost => len + 12
    case RSpinIn => len + 11
    case RCheckIn => len + 10
    case RLoop => len + 9
    case RLoadIn => len + 8
    case RCopy => r.n - r.k + 6
    case RPublish => 5
    case REnable => 2
    case RDone => 1
  }

  lemma FewerToGo(left: int, n: int, len: nat)
    requires 1 <= n <= left
    ensures (left - n) * (len + 14) + (len + 14) <= left * (len + 14)
  {
    Scale(left - n + 1, left, len + 14);
  }

  lemma NotNegative(left: int, len: nat)
    requires left >= 0
    ensures left * (len + 14) >= 0
  {
  }

  /** Nearer to the return with data. */
  ghost predicate ReadNearer(s: State, t: State, space: int)
    requires Inv(s) && s.th.Reading? && Inv(t)
  {
    || Got(t, s.log, space)
    || (&& Reads(t, space) && HasByte(t) && t.log == s.log && |t.u.rxBuf| == |s.u.rxBuf|
        && ReadRank(t.u, t.th.r) < ReadRank(s.u, s.th.r))
  }

  /** A statement of the thread returns with data, or brings that nearer. */
  lemma ReadStepAdvances(s: State, space: int)
    requires Reads(s, space) && HasByte(s)
    ensures Inv(Foreground(s)) && ReadNearer(s, Foreground(s), space)
    ensures ReadRank(s.u, s.th.r) >= 1
  {
    hide Inv, ReadNearer, ReadStep, HasByte;
    StepIsForeground(s);
    ReadKeepsInv(s);
    if s.th.r.pc in {RLoop, RLoadIn, RAfter, RSpinIn, RSpinHost, RCheckIn} {
      PassOnAdvances(s, space);
    } else if s.th.r.pc in {REnable, RDone} {
      ReturnAdvances(s, space);
    } else if s.th.r.pc == RLoadOut {
      FetchAdvances(s, space);
    } else {
      TakeAdvances(s, space);
    }
    PositiveReadRank(s, space);
  }

  lemma PositiveReadRank(s: State, space: int)
    requires Reads(s, space)
    ensures ReadRank(s.u, s.th.r) >= 1
  {
    hide Contents, Accepted, Delivered, Honest;
    NotNegative(s.th.r.space - s.th.r.pos, |s.u.rxBuf|);
  }

  lemma PassOnAdvances(s: State, space: int)
    requires Reads(s, space) && HasByte(s) && s.th.r.pc in {RLoop, RLoadIn, RAfter, RSpinIn, RSpinHost, RCheckIn}
    requires Inv(ReadStep(s))
    ensures ReadNearer(s, ReadStep(s), space)
  {
    hide Contents, Inv;
    InvFits(s);
    EmptyRing(s.u);
  }

  lemma ReturnAdvances(s: State, space: int)
    requires Reads(s, space) && HasByte(s) && s.th.r.pc in {REnable, RDone} && Inv(ReadStep(s))
    ensures ReadNearer(s, ReadStep(s), space)
  {
    hide Contents, Inv;
    InvFits(s);
  }

  lemma FetchAdvances(s: State, space: int)
    requires Reads(s, space) && HasByte(s) && s.th.r.pc == RLoadOut && Inv(ReadStep(s))
    ensures ReadNearer(s, ReadStep(s), space)
  {
    hide Contents, Inv;
    InvFits(s);
    AvailFits(s.u, s.th.r.inn);
  }

  lemma TakeAdvances(s: State, space: int)
    requires Reads(s, space) && HasByte(s) && s.th.r.pc in {RCopy, RPublish} && Inv(ReadStep(s))
    ensures ReadNearer(s, ReadStep(s), space)
  {
    hide Contents, Inv;
    InvFits(s);
    if s.th.r.pc == RPublish { FewerToGo(s.th.r.space - s.th.r.pos, s.th.r.n, |s.u.rxBuf|); }
  }

  lemma EmptyRing(u: Uart)
    requires Shape(u)
    ensures RxRing(u) == [] <==> u.rxIn == u.rxOut
  {
  }

  lemma HardwareKeepsRead(s: State, e: Event, space: int)
    requires Reads(s, space) && Calm(e) && !e.Step?
    ensures var t := Apply(s, e);
            && Reads(t, space) && t.th == s.th && t.log == s.log && |t.u.rxBuf| == |s.u.rxBuf|
            && t.u.rxOut == s.u.rxOut && (HasByte(s) ==> HasByte(t))
  {
    hide Contents, Isr, Accepted, Delivered, Honest;
    ApplyKeepsInv(s, e);
    match e
    case Interrupt(passes) =>
      IsrRely(s.u, passes);
      IsrKeepsHost(s.u, passes);
    case Second(_) =>
    case Arrive(_) =>
  }

  /** With a byte in the ring a read is over after a bounded number of statements. */
  lemma {:induction false} ReadAdvances(s: State, events: seq<Event>, space: int)
    requires Reads(s, space) && HasByte(s) && forall e <- events :: Calm(e)
    ensures Shape(s.u)
    ensures var t := Run(s, events);
            || Got(t, s.log, space)
            || (&& Reads(t, space) && HasByte(t) && t.log == s.log && |t.u.rxBuf| == |s.u.rxBuf|
                && ReadRank(t.u, t.th.r) + StepCount(events) <= ReadRank(s.u, s.th.r))
  {
    hide Inv, HasByte, Apply, ReadRank;
    StepIsForeground(s);
    if events != [] {
      var before, e := events[..|events| - 1], events[|events| - 1];
      ReadAdvances(s, before, space);
      var t := Run(s, before);
      if t.th.Idle? {
        IdleStays(t, e);
      } else if e.Step? {
        StepIsForeground(t);
        ReadStepAdvances(t, space);
      } else {
        HardwareKeepsRead(t, e, space);
        SameRank(t.u, Apply(t, e).u, t.th.r);
      }
    }
  }

  lemma SameRank(u: Uart, v: Uart, r: Reader)
    requires |u.rxBuf| == |v.rxBuf| && u.rxOut == v.rxOut
    ensures ReadRank(u, r) == ReadRank(v, r)
  {
  }

  /** An interrupt that finds a byte in the hardware. */
  predicate Receives(u: Uart, e: Event) {
    && e.Interrupt? && e.passes != [] && e.passes[0].ri
    && (u.fifo != [] || (e.passes[0].arrivals != [] && e.passes[0].arrivals[0] != []))
  }

  lemma ReceivingGivesByte(s: State, e: Event, space: int)
    requires Reads(s, space) && Receives(s.u, e)
    ensures var t := Apply(s, e);
            Reads(t, space) && HasByte(t) && t.th == s.th && t.log == s.log && |t.u.rxBuf| == |s.u.rxBuf|
  {
    hide Contents, OnePass, Accepted, Delivered, TransmitFifo, ReceiveFifo, Honest;
    HardwareKeepsRead(s, e, space);
    var u, v := s.u, OnePass(s.u, e.passes[0]);
    OnePassRely(u, e.passes[0]);
    if RxRing(u) == [] { PassReceives(u, e.passes[0]); }
    IsrRely(v, e.passes[1..]);
  }

  lemma ReadRankBound(s: State, space: int)
    requires Reads(s, space)
    ensures ReadRank(s.u, s.th.r) <= space * (|s.u.rxBuf| + 14) + |s.u.rxBuf| + 14
  {
    hide Contents, Accepted, Delivered, Honest;
    Scale(space - s.th.r.pos, space, |s.u.rxBuf| + 14);
  }

  /** A blocking read is over after one interrupt that finds a byte, wherever it stands, with
      any calm events in between; it returns at least one byte. */
  lemma ReadIsOver(s: State, e: Event, events: seq<Event>, space: int)
    requires Reads(s, space) && (Receives(s.u, e) || (HasByte(s) && Calm(e) && !e.Step?))
    requires forall x <- events :: Calm(x)
    requires StepCount(events) >= space * (|s.u.rxBuf| + 14) + |s.u.rxBuf| + 14
    ensures Shape(s.u) && Got(Run(s, [e] + events), s.log, space)
  {
    hide Inv, Run, Apply, HasByte, ReadRank;
    StepIsForeground(s);
    RunFront(s, e, events);
    if Receives(s.u, e) { ReceivingGivesByte(s, e, space); } else { HardwareKeepsRead(s, e, space); }
    var s1 := Apply(s, e);
    ReadAdvances(s1, events, space);
    ReadRankBound(s1, space);
    var t := Run(s1, events);
    if t.th.Reading? { ReadStepAdvances(t, space); }
  }

  // ---------------------------------------------------------------- when a write fails

  /** A write that found room when it was called: it will succeed, or has. */
  ghost predicate Succeeds(s: State, t: State, data: seq<byte>, nonblock: bool) {
    && Inv(t)
    && if t.th.Idle? then
         && |t.log| > 0 && t.log[|t.log| - 1].result > 0
         && t.log == s.log + [Wrote(data, nonblock, t.log[|t.log| - 1].result)]
       else
         && t.log == s.log && t.th.Writing? && t.th.w.data == data && t.th.w.nonblock == nonblock
         && (t.th.w.pos > 0
             || (!Full(t.u.txBuf, t.u.txOut, t.u.txIn) && t.th.w.pc in {WLoop, WLoadIn, WLoadOut, WCopy, WPublish}))
  }

  predicate DuringCall(e: Event) { !e.Enter? }

  lemma StillSucceeds(s: State, t: State, e: Event, data: seq<byte>, nonblock: bool)
    requires Succeeds(s, t, data, nonblock) && DuringCall(e) && data != []
    ensures Succeeds(s, Apply(t, e), data, nonblock)
  {
    hide Contents, Isr, WriteStep, ReadStep, CloseStep, Inv;
    ApplyKeepsInv(t, e);
    match e
    case Step =>
      if t.th.Writing? {
        StepIsForeground(t);
        StepSucceeds(s, t, data, nonblock);
      }
    case Interrupt(passes) =>
      StepIsForeground(t);
      IsrRely(t.u, passes);
    case Second(_) =>
    case Arrive(_) =>
  }

  lemma StepSucceeds(s: State, t: State, data: seq<byte>, nonblock: bool)
    requires Succeeds(s, t, data, nonblock) && t.th.Writing? && data != []
    ensures Succeeds(s, Foreground(t), data, nonblock)
  {
    hide Inv, WriteStep;
    WriteKeepsInv(t);
    if t.th.w.pc in {WLoop, WLoadIn, WLoadOut} {
      LoadSucceeds(s, t, data, nonblock);
    } else {
      MoveSucceeds(s, t, data, nonblock);
    }
  }

  lemma LoadSucceeds(s: State, t: State, data: seq<byte>, nonblock: bool)
    requires Succeeds(s, t, data, nonblock) && t.th.Writing? && data != []
    requires t.th.w.pc in {WLoop, WLoadIn, WLoadOut} && Inv(WriteStep(t))
    ensures Succeeds(s, WriteStep(t), data, nonblock)
  {
    hide Contents, Inv;
    InvFits(t);
    FullIffNextIsOut(t.u.txBuf, t.u.txOut, t.u.txIn);
    RoomFits(t.u);
  }

  lemma MoveSucceeds(s: State, t: State, data: seq<byte>, nonblock: bool)
    requires Succeeds(s, t, data, nonblock) && t.th.Writing? && data != []
    requires t.th.w.pc !in {WLoop, WLoadIn, WLoadOut} && Inv(WriteStep(t))
    ensures Succeeds(s, WriteStep(t), data, nonblock)
  {
    hide Contents, Inv;
    InvFits(t);
  }

  lemma {:induction false} WriteSucceeds(s: State, events: seq<Event>, data: seq<byte>, nonblock: bool)
    requires Succeeds(s, s, data, nonblock) && s.th.Writing? && data != [] && forall e <- events :: DuringCall(e)
    ensures Shape(s.u) && Succeeds(s, Run(s, events), data, nonblock)
  {
    hide Inv, Apply;
    StepIsForeground(s);
    if events != [] {
      var before, e := events[..|events| - 1], events[|events| - 1];
      WriteSucceeds(s, before, data, nonblock);
      StillSucceeds(s, Run(s, before), e, data, nonblock);
    }
  }

  /** A write that is called with room in the ring fails if and only if it has no data, in
      whatever mode, with whatever interrupts, and whether or not the host is there. */
  lemma WriteIntoRoomFailsExactlyWhen(s: State, events: seq<Event>, data: seq<byte>, nonblock: bool)
    requires Inv(s) && s.th == Begin(CallWrite(data, nonblock)) && !Full(s.u.txBuf, s.u.txOut, s.u.txIn)
    requires forall e <- events :: DuringCall(e)
    ensures Shape(s.u)
    ensures var t := Run(s, events);
            t.th.Idle? ==>
              |t.log| > 0 && var d := t.log[|t.log| - 1];
              t.log == s.log + [d] && d.Wrote? && d.data == data && (d.result < 0 <==> data == [])
  {
    hide Contents, Accepted, Delivered;
    StepIsForeground(s);
    if data != [] {
      WriteSucceeds(s, events, data, nonblock);
    } else {
      EmptyWriteRuns(s, events, nonblock);
    }
  }

  ghost predicate WritesNothing(s: State, t: State, nonblock: bool) {
    && Inv(t)
    && if t.th.Idle? then t.log == s.log + [Wrote([], nonblock, Outcome(0, nonblock))]
       else t.log == s.log && t.th.Writing? && t.th.w.data == [] && t.th.w.nonblock == nonblock
  }

  lemma {:induction false} EmptyWriteRuns(s: State, events: seq<Event>, nonblock: bool)
    requires WritesNothing(s, s, nonblock) && s.th.Writing? && forall e <- events :: DuringCall(e)
    ensures Shape(s.u) && WritesNothing(s, Run(s, events), nonblock)
  {
    hide Inv, Apply;
    StepIsForeground(s);
    if events != [] {
      var before, e := events[..|events| - 1], events[|events| - 1];
      EmptyWriteRuns(s, before, nonblock);
      StillNothing(s, Run(s, before), e, nonblock);
    }
  }

  lemma StillNothing(s: State, t: State, e: Event, nonblock: bool)
    requires WritesNothing(s, t, nonblock) && DuringCall(e)
    ensures WritesNothing(s, Apply(t, e), nonblock)
  {
    hide Contents, Isr, Accepted, Delivered, Honest;
    ApplyKeepsInv(t, e);
  }
}
