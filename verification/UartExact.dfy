// What calls and interrupts of the driver move, to the byte: a read takes what the ring holds,
// a write fills the room it finds, an interrupt empties and fills as far as it can, and a call
// gives up exactly when the host is gone.
module UartExact {
  import opened Ring
  import opened UartMachine
  import opened UartSafety
  import opened UartLiveness
  import opened Words

  function Min(a: int, b: int): int { if a <= b then a else b }

  /** Shape and the thread's locals, for proofs that need no more of the invariant. */
  lemma Fits(s: State)
    requires Inv(s)
    ensures Shape(s.u) && LocalsFit(s.u, s.th)
  {
  }

  // ---------------------------------------------------------------- a read takes what is there

  /** Where a read that was called at s stands at t: it has not passed over any byte. */
  ghost predicate Takes(s: State, t: State, space: int, nonblock: bool) {
    && Shape(s.u) && Inv(t) && s.u.taken <= t.u.taken
    && var n := |RxRing(s.u)|;
       if t.th.Idle? then
         && |t.log| == |s.log| + 1 && t.log[..|s.log|] == s.log
         && var d := t.log[|s.log|];
            d.GotBytes? && d.space == space && d.nonblock == nonblock && |d.bytes| >= Min(space, n)
       else
         && t.log == s.log && t.th.Reading? && t.th.r.space == space && t.th.r.nonblock == nonblock
         && t.th.r.pos + |RxRing(t.u)| >= n
         && (t.th.r.pc == RLoadOut ==>
               t.th.r.inn < |t.u.rxBuf| && t.th.r.pos + |Contents(t.u.rxBuf, t.u.rxOut, t.th.r.inn)| >= n)
         && (t.th.r.pc !in {RLoop, RLoadIn, RLoadOut, RCopy, RPublish} ==> t.th.r.pos >= Min(space, n))
  }

  lemma StillTakes(s: State, t: State, e: Event, space: int, nonblock: bool)
    requires Takes(s, t, space, nonblock) && DuringCall(e)
    ensures Takes(s, Apply(t, e), space, nonblock)
  {
    hide Isr, WriteStep, ReadStep, CloseStep, Inv, Contents, Takes, HostCheck, Rely, Grows;
    InvOfTakes(s, t, space, nonblock);
    ApplyKeepsInv(t, e);
    match e
    case Step =>
      if t.th.Reading? {
        StepTakes(s, t, space, nonblock);
      } else {
        NoStep(s, t, space, nonblock);
      }
    case Interrupt(passes) =>
      IsrRely(t.u, passes);
      RelyGrows(t.u, Isr(t.u, passes));
      HardwareTakes(s, t, Isr(t.u, passes), space, nonblock);
    case Second(ac) =>
      OthersGrow(t.u, ac, []);
      HardwareTakes(s, t, HostCheck(t.u, ac), space, nonblock);
    case Arrive(bytes) =>
      OthersGrow(t.u, true, bytes);
      HardwareTakes(s, t, t.u.(fifo := t.u.fifo + bytes), space, nonblock);
  }

  lemma InvOfTakes(s: State, t: State, space: int, nonblock: bool)
    requires Takes(s, t, space, nonblock)
    ensures Inv(t) && Shape(t.u) && (t.th.Idle? || t.th.Reading?)
  {
  }

  lemma NoStep(s: State, t: State, space: int, nonblock: bool)
    requires Takes(s, t, space, nonblock) && t.th.Idle?
    ensures Shape(t.u) && Takes(s, Foreground(t), space, nonblock)
  {
    hide Contents, Inv;
    InvOfTakes(s, t, space, nonblock);
  }

  /** The receive ring has not lost a byte, nor the consumer moved. */
  ghost predicate Grows(u: Uart, v: Uart) requires Shape(u) && Shape(v) {
    && u.taken <= v.taken && |v.rxBuf| == |u.rxBuf| && v.rxOut == u.rxOut
    && |RxRing(u)| <= |RxRing(v)|
  }

  lemma RelyGrows(u: Uart, v: Uart)
    requires Shape(u) && Rely(u, v)
    ensures Shape(v) && Grows(u, v)
  {
    hide Contents;
  }

  lemma OthersGrow(u: Uart, ac: bool, bytes: seq<byte>)
    requires Shape(u)
    ensures Shape(HostCheck(u, ac)) && Grows(u, HostCheck(u, ac))
    ensures Shape(u.(fifo := u.fifo + bytes)) && Grows(u, u.(fifo := u.fifo + bytes))
  {
  }

  /** What the hardware and its interrupts do passes over no byte. */
  lemma HardwareTakes(s: State, t: State, v: Uart, space: int, nonblock: bool)
    requires Takes(s, t, space, nonblock) && Shape(t.u) && Shape(v) && Grows(t.u, v) && Inv(t.(u := v))
    ensures Takes(s, t.(u := v), space, nonblock)
  {
    hide Contents, Inv;
  }

  lemma StepTakes(s: State, t: State, space: int, nonblock: bool)
    requires Takes(s, t, space, nonblock) && t.th.Reading?
    ensures Takes(s, Foreground(t), space, nonblock)
  {
    hide Inv, Contents, ReadStep, Takes;
    Reader(s, t, space, nonblock);
    ReadKeepsInv(t);
    if t.th.r.pc in {RLoadIn, RLoadOut} {
      LookTakes(s, t, space, nonblock);
    } else if t.th.r.pc in {RCopy, RPublish} {
      CopyTakes(s, t, space, nonblock);
    } else {
      MoveTakes(s, t, space, nonblock);
    }
  }

  lemma Reader(s: State, t: State, space: int, nonblock: bool)
    requires Takes(s, t, space, nonblock) && t.th.Reading?
    ensures Inv(t) && Shape(t.u)
  {
  }

  lemma LookTakes(s: State, t: State, space: int, nonblock: bool)
    requires Takes(s, t, space, nonblock) && t.th.Reading? && t.th.r.pc in {RLoadIn, RLoadOut} && Inv(ReadStep(t))
    ensures Takes(s, ReadStep(t), space, nonblock)
  {
    hide Inv, Contents;
    Fits(t);
    if t.th.r.pc == RLoadOut { AvailFits(t.u, t.th.r.inn); }
  }

  lemma CopyTakes(s: State, t: State, space: int, nonblock: bool)
    requires Takes(s, t, space, nonblock) && t.th.Reading? && t.th.r.pc in {RCopy, RPublish} && Inv(ReadStep(t))
    ensures Takes(s, ReadStep(t), space, nonblock)
  {
    hide Inv, Contents;
    Fits(t);
    if t.th.r.pc == RPublish { PopMany(t.u.rxBuf, t.u.rxOut, t.u.rxIn, t.th.r.n); }
  }

  lemma MoveTakes(s: State, t: State, space: int, nonblock: bool)
    requires Takes(s, t, space, nonblock) && t.th.Reading?
    requires t.th.r.pc !in {RLoadIn, RLoadOut, RCopy, RPublish} && Shape(t.u) && Inv(ReadStep(t))
    ensures Takes(s, ReadStep(t), space, nonblock)
  {
    hide Inv, Contents, ReadStep, Takes;
    if t.th.r.pc == RDone { ReturnTakes(s, t, space, nonblock); } else { SpinTakes(s, t, space, nonblock); }
  }

  lemma ReturnTakes(s: State, t: State, space: int, nonblock: bool)
    requires Takes(s, t, space, nonblock) && t.th.Reading? && t.th.r.pc == RDone && Inv(ReadStep(t))
    ensures Takes(s, ReadStep(t), space, nonblock)
  {
    hide Inv, Contents;
    Fits(t);
  }

  lemma SpinTakes(s: State, t: State, space: int, nonblock: bool)
    requires Takes(s, t, space, nonblock) && t.th.Reading?
    requires t.th.r.pc !in {RLoadIn, RLoadOut, RCopy, RPublish, RDone} && Inv(ReadStep(t))
    ensures Takes(s, ReadStep(t), space, nonblock)
  {
    hide Inv, Contents;
    Fits(t);
  }

  lemma {:induction false} ReadTakes(s: State, events: seq<Event>, space: int, nonblock: bool)
    requires Takes(s, s, space, nonblock) && s.th.Reading? && forall e <- events :: DuringCall(e)
    ensures Takes(s, Run(s, events), space, nonblock)
  {
    hide Apply, Takes;
    Reader(s, s, space, nonblock);
    if events != [] {
      var before, e := events[..|events| - 1], events[|events| - 1];
      ReadTakes(s, before, space, nonblock);
      StillTakes(s, Run(s, before), e, space, nonblock);
    }
  }

  /** A read for `space` bytes, in either mode and with any interrupts, returns at least what
      the ring held when it was called, as far as the caller has space, and these bytes first:
      with what is left in the ring, nothing that was there is passed over. */
  lemma ReadTakesWhatIsThere(s: State, events: seq<Event>, space: int, nonblock: bool)
    requires Inv(s) && s.th == Begin(CallRead(space, nonblock)) && forall e <- events :: DuringCall(e)
    ensures Shape(s.u)
    ensures var t, ring := Run(s, events), RxRing(s.u);
            t.th.Idle? ==>
              && |t.log| == |s.log| + 1 && t.log[..|s.log|] == s.log
              && var d := t.log[|s.log|];
                 && d.GotBytes? && d.space == space && d.nonblock == nonblock
                 && |d.bytes| >= Min(space, |ring|)
                 && ring <= d.bytes + RxRing(t.u)
                 && (space > 0 ==> d.bytes[..Min(space, |ring|)] == ring[..Min(space, |ring|)])
  {
    hide Contents, Run, Inv, Delivered;
    Fits(s);
    ReadTakes(s, events, space, nonblock);
    var t := Run(s, events);
    AllTaken(s);
    if t.th.Idle? {
      var d := t.log[|s.log|];
      assert t.log == s.log + [d];
      LogSteps(s.log, d);
      AllTaken(t);
      OldestFirst(Delivered(s.log), RxRing(s.u), d.bytes, RxRing(t.u), space);
    }
  }

  /** Between calls every byte taken has been delivered or is in the ring. */
  lemma AllTaken(s: State)
    requires Inv(s) && (s.th.Idle? || (s.th.Reading? && s.th.r.pos == 0))
    ensures Shape(s.u) && s.u.taken == Delivered(s.log) + RxRing(s.u)
  {
    hide Contents, TransmitFifo, TransmitWakes, ReceiveWakes, AllHonest, LocalsFit, Delivered;
    assert Consuming(s.th) == [];
    assert Delivered(s.log) + [] == Delivered(s.log);
  }

  lemma OldestFirst(front: seq<byte>, ring: seq<byte>, bytes: seq<byte>, rest: seq<byte>, space: int)
    requires front + ring <= front + bytes + rest && |bytes| >= Min(space, |ring|)
    ensures ring <= bytes + rest
    ensures space > 0 ==> bytes[..Min(space, |ring|)] == ring[..Min(space, |ring|)]
  {
    assert front + bytes + rest == front + (bytes + rest);
    Behind(front, ring, bytes + rest);
    if space > 0 {
      var m := Min(space, |ring|);
      assert (bytes + rest)[..m] == bytes[..m] && ring == (bytes + rest)[..|ring|];
    }
  }

  lemma Behind(front: seq<byte>, a: seq<byte>, b: seq<byte>)
    ensures front + a <= front + b <==> a <= b
  {
    if front + a <= front + b {
      assert a == (front + a)[|front|..] == (front + b)[|front|..][..|a|];
    }
    if a <= b {
      assert front + b == front + a + b[|a|..];
    }
  }

  // ---------------------------------------------------------------- when a non-blocking read fails

  /** The thread is about to look for the first time whether the ring holds anything. */
  ghost predicate Looks(t: State) { t.th.Reading? && t.th.r.pc == RLoadIn && t.th.r.pos == 0 }

  /** At some step of the run the read looked and the ring was empty. */
  ghost predicate SawNothing(s: State, events: seq<Event>) requires Shape(s.u) {
    exists k :: 0 <= k < |events| && events[k].Step? && LookedAtNothing(Run(s, events[..k]))
  }

  ghost predicate LookedAtNothing(t: State) requires Shape(t.u) { Looks(t) && RxRing(t.u) == [] }

  lemma SawMore(s: State, before: seq<Event>, e: Event)
    requires Shape(s.u)
    ensures SawNothing(s, before + [e]) <==> SawNothing(s, before) || (e.Step? && LookedAtNothing(Run(s, before)))
  {
    hide Run, LookedAtNothing, SawNothing;
    if SawNothing(s, before + [e]) { SawAtSomeTime(s, before, e); }
    if SawNothing(s, before) { SawBefore(s, before, e); }
    if e.Step? && LookedAtNothing(Run(s, before)) { SeesNow(s, before, e); }
  }

  lemma SawAtSomeTime(s: State, before: seq<Event>, e: Event)
    requires Shape(s.u) && SawNothing(s, before + [e])
    ensures SawNothing(s, before) || (e.Step? && LookedAtNothing(Run(s, before)))
  {
    hide Run, LookedAtNothing;
    var events := before + [e];
    var k :| 0 <= k < |events| && events[k].Step? && LookedAtNothing(Run(s, events[..k]));
    if k < |before| {
      assert before[..k] == events[..k] && before[k] == events[k];
    } else {
      assert events[..k] == before;
    }
  }

  lemma SawBefore(s: State, before: seq<Event>, e: Event)
    requires Shape(s.u) && SawNothing(s, before)
    ensures SawNothing(s, before + [e])
  {
    hide Run, LookedAtNothing;
    var events := before + [e];
    var k :| 0 <= k < |before| && before[k].Step? && LookedAtNothing(Run(s, before[..k]));
    assert before[..k] == events[..k] && before[k] == events[k];
  }

  lemma SeesNow(s: State, before: seq<Event>, e: Event)
    requires Shape(s.u) && e.Step? && LookedAtNothing(Run(s, before))
    ensures SawNothing(s, before + [e])
  {
    hide Run, LookedAtNothing;
    var events := before + [e];
    assert events[..|before|] == before && events[|before|] == e;
  }

  /** Where a non-blocking read is, given whether it has seen an empty ring. */
  ghost predicate Polls(s: State, t: State, space: int, saw: bool) {
    && Inv(t)
    && if t.th.Idle? then
         && |t.log| == |s.log| + 1 && t.log[..|s.log|] == s.log
         && var d := t.log[|s.log|];
            d.GotBytes? && d.space == space && d.nonblock && (d.result < 0 <==> saw || space <= 0)
       else
         && t.log == s.log && t.th.Reading? && t.th.r.space == space && t.th.r.nonblock
         && var r := t.th.r;
            if r.pos > 0 then !saw && space > 0
            else if r.pc in {RLoop, RLoadIn} then !saw
            else if r.pc == RLoadOut then space > 0 && (saw <==> r.inn == t.u.rxOut)
            else if r.pc in {RCopy, RPublish} then !saw && space > 0
            else saw || space <= 0
  }

  lemma StillPolls(s: State, t: State, e: Event, space: int, saw: bool)
    requires Shape(s.u) && Polls(s, t, space, saw) && DuringCall(e)
    ensures Shape(t.u) && Polls(s, Apply(t, e), space, saw || (e.Step? && LookedAtNothing(t)))
  {
    hide Isr, WriteStep, ReadStep, CloseStep, Inv, Contents;
    ApplyKeepsInv(t, e);
    Fits(t);
    match e
    case Step =>
      if t.th.Reading? {
        ReadKeepsInv(t);
        if t.th.r.pc in {RLoadIn, RLoadOut} { LookPolls(s, t, space, saw); } else { MovePolls(s, t, space, saw); }
      }
    case Interrupt(passes) =>
      IsrRely(t.u, passes);
    case Second(_) =>
    case Arrive(_) =>
  }

  lemma LookPolls(s: State, t: State, space: int, saw: bool)
    requires Polls(s, t, space, saw) && t.th.Reading? && t.th.r.pc in {RLoadIn, RLoadOut} && Inv(ReadStep(t))
    ensures Shape(t.u) && Polls(s, ReadStep(t), space, saw || LookedAtNothing(t))
  {
    hide Inv, Contents;
    Fits(t);
    EmptyRing(t.u);
    if t.th.r.pc == RLoadOut { AvailFits(t.u, t.th.r.inn); }
  }

  lemma MovePolls(s: State, t: State, space: int, saw: bool)
    requires Polls(s, t, space, saw) && t.th.Reading? && t.th.r.pc !in {RLoadIn, RLoadOut} && Inv(ReadStep(t))
    ensures Shape(t.u) && Polls(s, ReadStep(t), space, saw)
  {
    hide Inv, Contents;
    Fits(t);
  }

  lemma {:induction false} ReadPolls(s: State, events: seq<Event>, space: int)
    requires Shape(s.u) && Polls(s, s, space, false) && s.th.Reading? && forall e <- events :: DuringCall(e)
    ensures Polls(s, Run(s, events), space, SawNothing(s, events))
  {
    hide Apply, Polls, LookedAtNothing, SawNothing;
    if events != [] {
      var before, e := events[..|events| - 1], events[|events| - 1];
      ReadPolls(s, before, space);
      assert events == before + [e];
      SawMore(s, before, e);
      StillPolls(s, Run(s, before), e, space, SawNothing(s, before));
    } else {
      NothingSeen(s);
    }
  }

  lemma NothingSeen(s: State)
    requires Shape(s.u)
    ensures !SawNothing(s, [])
  {
  }

  /** A non-blocking read fails if and only if it has no space or the ring was empty when it
      first looked, whatever interrupts there are. */
  lemma NonblockingReadFailsExactlyWhen(s: State, events: seq<Event>, space: int)
    requires Inv(s) && s.th == Begin(CallRead(space, true)) && forall e <- events :: DuringCall(e)
    ensures Shape(s.u)
    ensures var t := Run(s, events);
            t.th.Idle? ==>
              && |t.log| == |s.log| + 1 && t.log[|s.log|].GotBytes?
              && (t.log[|s.log|].result < 0 <==> space <= 0 || SawNothing(s, events))
  {
    hide Run, SawNothing, Inv;
    Fits(s);
    ReadPolls(s, events, space);
  }

  // ---------------------------------------------------------------- a write fills the room there is

  /** The cells a writer may fill. */
  ghost function Free(u: Uart): int requires Shape(u) { |u.txBuf| - 1 - |TxRing(u)| }

  /** Where a write that was called at s stands at t: it has not left room unused. */
  ghost predicate Fills(s: State, t: State, data: seq<byte>, nonblock: bool) {
    && Shape(s.u) && Inv(t) && |t.u.txBuf| == |s.u.txBuf|
    && var n := Min(|data|, Free(s.u));
       if t.th.Idle? then
         && |t.log| == |s.log| + 1 && t.log[..|s.log|] == s.log
         && var d := t.log[|s.log|];
            && d.Wrote? && d.data == data && d.nonblock == nonblock
            && (if d.result < 0 then 0 else d.result) >= n
       else
         && t.log == s.log && t.th.Writing? && t.th.w.data == data && t.th.w.nonblock == nonblock
         && t.th.w.pos + Free(t.u) >= Free(s.u)
         && (t.th.w.pc !in {WLoop, WLoadIn, WLoadOut, WCopy, WPublish} ==> t.th.w.pos >= n)
  }

  lemma StillFills(s: State, t: State, e: Event, data: seq<byte>, nonblock: bool)
    requires Fills(s, t, data, nonblock) && DuringCall(e)
    ensures Fills(s, Apply(t, e), data, nonblock)
  {
    hide Isr, WriteStep, ReadStep, CloseStep, Inv, Contents;
    ApplyKeepsInv(t, e);
    Fits(t);
    match e
    case Step =>
      if t.th.Writing? {
        WriteKeepsInv(t);
        if t.th.w.pc in {WLoop, WLoadIn, WLoadOut} {
          LoadFills(s, t, data, nonblock);
        } else if t.th.w.pc in {WCopy, WPublish} {
          CopyFills(s, t, data, nonblock);
        } else {
          MoveFills(s, t, data, nonblock);
        }
      }
    case Interrupt(passes) =>
      IsrRely(t.u, passes);
    case Second(_) =>
    case Arrive(_) =>
  }

  lemma LoadFills(s: State, t: State, data: seq<byte>, nonblock: bool)
    requires Fills(s, t, data, nonblock) && t.th.Writing? && t.th.w.pc in {WLoop, WLoadIn, WLoadOut}
    requires Inv(WriteStep(t))
    ensures Fills(s, WriteStep(t), data, nonblock)
  {
    hide Inv, Contents;
    Fits(t);
    RoomFits(t.u);
    FullIffNextIsOut(t.u.txBuf, t.u.txOut, t.u.txIn);
  }

  lemma CopyFills(s: State, t: State, data: seq<byte>, nonblock: bool)
    requires Fills(s, t, data, nonblock) && t.th.Writing? && t.th.w.pc in {WCopy, WPublish} && Inv(WriteStep(t))
    ensures Fills(s, WriteStep(t), data, nonblock)
  {
    hide Inv, Contents;
    Fits(t);
    if t.th.w.pc == WPublish { PushMany(t.u.txBuf, t.u.txOut, t.u.txIn, t.th.w.n); }
  }

  lemma MoveFills(s: State, t: State, data: seq<byte>, nonblock: bool)
    requires Fills(s, t, data, nonblock) && t.th.Writing?
    requires t.th.w.pc !in {WLoop, WLoadIn, WLoadOut, WCopy, WPublish} && Inv(WriteStep(t))
    ensures Fills(s, WriteStep(t), data, nonblock)
  {
    hide Inv, Contents;
    Fits(t);
  }

  lemma {:induction false} WriteFills(s: State, events: seq<Event>, data: seq<byte>, nonblock: bool)
    requires Fills(s, s, data, nonblock) && s.th.Writing? && forall e <- events :: DuringCall(e)
    ensures Shape(s.u) && Fills(s, Run(s, events), data, nonblock)
  {
    hide Apply, Inv;
    if events != [] {
      var before, e := events[..|events| - 1], events[|events| - 1];
      WriteFills(s, before, data, nonblock);
      StillFills(s, Run(s, before), e, data, nonblock);
    }
  }

  /** A write, in either mode and with any interrupts, accepts at least as many bytes as the
      ring had room for when it was called. */
  lemma WriteTakesWhatFits(s: State, events: seq<Event>, data: seq<byte>, nonblock: bool)
    requires Inv(s) && s.th == Begin(CallWrite(data, nonblock)) && forall e <- events :: DuringCall(e)
    ensures Shape(s.u)
    ensures var t := Run(s, events);
            t.th.Idle? ==>
              && |t.log| == |s.log| + 1 && t.log[..|s.log|] == s.log
              && var d := t.log[|s.log|];
                 && d.Wrote? && d.data == data && d.nonblock == nonblock
                 && (if d.result < 0 then 0 else d.result) >= Min(|data|, |s.u.txBuf| - 1 - |TxRing(s.u)|)
  {
    hide Run, Inv;
    Fits(s);
    WriteFills(s, events, data, nonblock);
  }
}
