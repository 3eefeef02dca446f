// The promises of the JTAG UART driver, over every run of the step system.
module UartTheorems {
  import opened Ring
  import opened UartMachine
  import opened UartSafety

  /** Transmission is a FIFO: what the hardware was given, then what the ring still holds, is
      exactly what writers handed over, in order, and every call returns the exact count. */
  lemma TransmitInOrder(s: State, events: seq<Event>)
    requires Boot(s)
    ensures var t := Run(s, events);
            && t.u.sent + TxRing(t.u) == Accepted(t.log) + Publishing(t.th)
            && |TxRing(t.u)| < |t.u.txBuf|
            && (forall d <- t.log :: Honest(d))
            && !t.fault
  {
    RunKeepsInv(s, events);
  }

  /** Reception is a FIFO: what readers got, then what the ring still holds, is exactly what
      was taken from the hardware, in order. */
  lemma ReceiveInOrder(s: State, events: seq<Event>)
    requires Boot(s)
    ensures var t := Run(s, events);
            && t.u.taken == Delivered(t.log) + Consuming(t.th) + RxRing(t.u)
            && |RxRing(t.u)| < |t.u.rxBuf|
            && !t.fault
  {
    RunKeepsInv(s, events);
  }

  /** What the spin loops test.  The producer cannot lap the saved index, so an unchanged
      index means that nothing has moved, not that a whole ring of bytes has. */
  lemma SpinTestsAreExact(s: State, events: seq<Event>)
    requires Boot(s)
    ensures var t := Run(s, events);
            && (t.th.Writing? && t.th.w.pc in {WSpinOut, WSpinHost, WCheckHost} ==>
                  (t.th.w.out == t.u.txOut <==> Full(t.u.txBuf, t.u.txOut, t.u.txIn)))
            && (t.th.Reading? && t.th.r.pc in {RSpinIn, RSpinHost, RCheckIn} ==>
                  (t.th.r.inn == t.u.rxIn <==> RxRing(t.u) == []))
  {
    hide Contents, Run, Accepted, Delivered;
    RunKeepsInv(s, events);
    var t := Run(s, events);
    FullIffNextIsOut(t.u.txBuf, t.u.txOut, t.u.txIn);
  }

  /** No lost wake-up: whoever has to wait for an interrupt has that interrupt switched on. */
  lemma NobodyWaitsAsleep(s: State, events: seq<Event>)
    requires Boot(s)
    ensures var t := Run(s, events);
            && (TxRing(t.u) != [] && !t.th.Writing? ==> t.u.ctlWe)
            && (t.th.Writing? && t.th.w.pc in {WSpinOut, WSpinHost} && t.th.w.out == t.u.txOut ==> t.u.ctlWe)
            && (t.th.Reading? && t.th.r.pos == 0 && RxRing(t.u) == [] ==> t.u.ctlRe)
            && (!t.th.Reading? && !Full(t.u.rxBuf, t.u.rxOut, t.u.rxIn) ==> t.u.ctlRe)
  {
    hide Contents, Run, Accepted, Delivered;
    RunKeepsInv(s, events);
    var t := Run(s, events);
    FullIffNextIsOut(t.u.txBuf, t.u.txOut, t.u.txIn);
  }

  /** A pass that finds room in the hardware shortens a non-empty transmit ring. */
  lemma PassSends(u: Uart, p: Pass)
    requires Shape(u) && p.wi && p.space > 0 && TxRing(u) != []
    ensures |TxRing(OnePass(u, p))| < |TxRing(u)|
  {
    hide Contents, RxDrain, TxDrain, RxPass, TxPass;
    var r := if p.ri then RxPass(u, p.arrivals) else u;
    if p.ri { RxPassRely(u, p.arrivals); }
    TxPassRely(r, p.space);
  }

  /** An interrupt that finds room in the hardware ends a writer's wait, and leaves room in
      the ring for at least one byte whatever happens before the writer looks. */
  lemma InterruptReleasesWriter(s: State, passes: seq<Pass>, later: Uart)
    requires Inv(s) && s.th.Writing? && s.th.w.pc in {WSpinOut, WSpinHost}
    requires passes != [] && passes[0].wi && passes[0].space > 0
    requires Rely(Isr(s.u, passes), later)
    ensures s.th.w.out != later.txOut
    ensures Room(later.txIn, later.txOut, |later.txBuf|) > 0
  {
    hide Contents, OnePass, Accepted, Delivered, TransmitFifo, ReceiveFifo;
    var u, v := s.u, OnePass(s.u, passes[0]);
    FullIffNextIsOut(u.txBuf, u.txOut, u.txIn);
    OnePassRely(u, passes[0]);
    if TxRing(u) != [] { PassSends(u, passes[0]); }
    IsrRely(v, passes[1..]);
    assert |TxRing(later)| < |u.txBuf| - 1;
    FullIffNextIsOut(later.txBuf, later.txOut, later.txIn);
    RoomFits(later);
  }

  lemma {:induction false} RxDrainGrows(u: Uart, avail: bool, arrivals: seq<seq<byte>>)
    requires Shape(u) && !Full(u.rxBuf, u.rxOut, u.rxIn)
    requires u.fifo != [] || (arrivals != [] && arrivals[0] != [])
    ensures |RxRing(u)| < |RxRing(RxDrain(u, avail, arrivals).0)|
  {
    FullIffNextIsOut(u.rxBuf, u.rxOut, u.rxIn);
    var fifo := u.fifo + (if arrivals == [] then [] else arrivals[0]);
    RxDrainRely(TakeByte(u, fifo), |fifo| > 1, if arrivals == [] then [] else arrivals[1..]);
  }

  /** A pass that finds a byte in the hardware lengthens the receive ring if it has room. */
  lemma PassReceives(u: Uart, p: Pass)
    requires Shape(u) && p.ri && !Full(u.rxBuf, u.rxOut, u.rxIn)
    requires u.fifo != [] || (p.arrivals != [] && p.arrivals[0] != [])
    ensures |RxRing(u)| < |RxRing(OnePass(u, p))|
  {
    hide Contents, RxDrain, TxDrain, TxPass;
    RxDrainGrows(u, true, p.arrivals);
    if p.wi { TxPassRely(RxPass(u, p.arrivals), p.space); }
  }

  /** An interrupt that finds a byte in the hardware ends a reader's wait, with data to read. */
  lemma InterruptReleasesReader(s: State, passes: seq<Pass>, later: Uart)
    requires Inv(s) && s.th.Reading? && s.th.r.pc in {RSpinIn, RSpinHost} && RxRing(s.u) == []
    requires passes != [] && passes[0].ri
    requires s.u.fifo != [] || (passes[0].arrivals != [] && passes[0].arrivals[0] != [])
    requires Rely(Isr(s.u, passes), later)
    ensures s.th.r.inn != later.rxIn
    ensures Avail(later.rxIn, later.rxOut, |later.rxBuf|) > 0
  {
    hide Contents, OnePass, Accepted, Delivered, TransmitFifo, ReceiveFifo;
    var u, v := s.u, OnePass(s.u, passes[0]);
    OnePassRely(u, passes[0]);
    PassReceives(u, passes[0]);
    IsrRely(v, passes[1..]);
    assert RxRing(later) != [];
    AvailFits(later, later.rxIn);
  }

  /** A close that reports success has drained the ring, or has given the host up. */
  lemma CloseDrains(s: State, events: seq<Event>)
    requires Boot(s)
    ensures var t := Run(s, events);
            var t' := Foreground(t);
            t.th.Closing? && t'.th.Idle? && t'.log[|t.log|].result == 0 ==>
              t.u.sent == Accepted(t.log) || t.u.hostInactive >= t.u.timeout
  {
    hide Contents, Run, Accepted, Delivered;
    RunKeepsInv(s, events);
    var t := Run(s, events);
    if t.th.Closing? && t.u.txOut == t.u.txIn {
      assert t.u.sent + TxRing(t.u) == t.u.sent;
      assert Accepted(t.log) + Publishing(t.th) == Accepted(t.log);
    }
  }

  /** A write of no bytes returns the error for no progress, in every run. */
  lemma EmptyWriteIsRefused(s: State, events: seq<Event>)
    requires Boot(s)
    ensures forall d <- Run(s, events).log :: d.Wrote? && d.data == [] ==>
              d.result == (if d.nonblock then -EWOULDBLOCK else -EIO) && d.result < 0
  {
    hide Contents, Run, Accepted, Delivered;
    RunKeepsInv(s, events);
    forall d <- Run(s, events).log ensures Honest(d) {
    }
  }

  /** The shortest such run. */
  lemma EmptyWriteReturnsError(s: State)
    requires Boot(s)
    ensures Run(s, [Enter(CallWrite([], false)), Step, Step, Step]).log == [Wrote([], false, -EIO)]
  {
    var a, b := [Enter(CallWrite([], false))], [Enter(CallWrite([], false)), Step];
    var c := [Enter(CallWrite([], false)), Step, Step];
    assert a[..0] == [] && Run(s, []) == s;
    assert Run(s, a).th == Begin(CallWrite([], false)) && Run(s, a).log == [];
    assert b[..1] == a && Run(s, b) == WriteStep(Run(s, a)) && Run(s, b).th.w.pc == WEnable;
    assert c[..2] == b && Run(s, c) == WriteStep(Run(s, b)) && Run(s, c).th.w.pc == WDone;
    assert [Enter(CallWrite([], false)), Step, Step, Step][..3] == c;
  }

  /** When a write returns, it fails if and only if it published no byte: the accepted bytes
      are what they were. */
  lemma WriteFailsExactlyWhen(s: State, events: seq<Event>)
    requires Boot(s)
    ensures var t := Run(s, events);
            var t' := Foreground(t);
            t.th.Writing? && t'.th.Idle? ==>
              && |t'.log| == |t.log| + 1 && t'.log[|t.log|].Wrote? && t'.log[|t.log|].data == t.th.w.data
              && (t'.log[|t.log|].result < 0 <==> Publishing(t.th) == [])
              && (t'.log[|t.log|].result < 0 <==> Accepted(t'.log) == Accepted(t.log))
  {
    hide Contents, Run, Accepted, Delivered, Inv, WriteStep;
    RunKeepsInv(s, events);
    var t := Run(s, events);
    if t.th.Writing? && WriteStep(t).th.Idle? {
      OnlyDoneReturns(t);
      ReturnFailsWhen(t);
    }
  }

  lemma OnlyDoneReturns(t: State)
    requires Shape(t.u) && t.th.Writing? && WriteStep(t).th.Idle?
    ensures t.th.w.pc == WDone
  {
  }

  lemma ReturnFailsWhen(t: State)
    requires Inv(t) && t.th.Writing? && t.th.w.pc == WDone
    ensures var t', d := WriteStep(t), Wrote(t.th.w.data, t.th.w.nonblock, Outcome(t.th.w.pos, t.th.w.nonblock));
            && t'.log == t.log + [d]
            && (d.result < 0 <==> Publishing(t.th) == [])
            && (d.result < 0 <==> Accepted(t'.log) == Accepted(t.log))
  {
    hide Contents, Accepted, Delivered;
    LogSteps(t.log, Wrote(t.th.w.data, t.th.w.nonblock, Outcome(t.th.w.pos, t.th.w.nonblock)));
    LongerIfMore(Accepted(t.log), t.th.w.data[..t.th.w.pos]);
  }

  lemma LongerIfMore(a: seq<byte>, b: seq<byte>)
    ensures a + b == a <==> b == []
  {
    assert |a + b| == |a| + |b|;
  }
}
