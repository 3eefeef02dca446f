// What holds in every state of every run of the JTAG UART step system: bytes go through
// both rings in order and none is lost, invented or overwritten, no access leaves a
// buffer, and nobody waits for an interrupt that is switched off.
module UartSafety {
  import opened Ring
  import opened UartMachine

  // ---------------------------------------------------------------- what is promised

  /** The bytes that finished calls of write took over: of each, the prefix its result counts. */
  ghost function Accepted(log: seq<Done>): seq<byte> {
    if log == [] then []
    else
      var d := log[|log| - 1];
      Accepted(log[..|log| - 1])
      + (if d.Wrote? && 0 < d.result <= |d.data| then d.data[..d.result] else [])
  }

  /** The bytes that finished calls of read handed to their callers. */
  ghost function Delivered(log: seq<Done>): seq<byte> {
    if log == [] then []
    else
      var d := log[|log| - 1];
      Delivered(log[..|log| - 1]) + (if d.GotBytes? then d.bytes else [])
  }

  /** A result is the exact number of bytes moved, or the error for none. */
  ghost predicate Honest(d: Done) {
    match d
    case Wrote(data, nonblock, result) =>
      0 < result <= |data| || result == (if nonblock then -EWOULDBLOCK else -EIO)
    case GotBytes(space, nonblock, bytes, result) =>
      (bytes != [] ==> result == |bytes| <= space)
      && (bytes == [] ==> result == if nonblock then -EWOULDBLOCK else -EIO)
    case Closed(nonblock, result) => result == 0 || (nonblock && result == -EWOULDBLOCK)
  }

  /** Bytes the write in progress has already published to the ring. */
  ghost function Publishing(th: Thread): seq<byte> {
    if th.Writing? && th.w.pos <= |th.w.data| then th.w.data[..th.w.pos] else []
  }

  /** Bytes the read in progress has copied and already released from the ring. */
  ghost function Consuming(th: Thread): seq<byte> {
    if th.Reading? && th.r.pos <= |th.r.got| then th.r.got[..th.r.pos] else []
  }

  ghost predicate TransmitFifo(s: State) requires Shape(s.u) {
    s.u.sent + TxRing(s.u) == Accepted(s.log) + Publishing(s.th)
  }

  ghost predicate ReceiveFifo(s: State) requires Shape(s.u) {
    s.u.taken == Delivered(s.log) + Consuming(s.th) + RxRing(s.u)
  }

  /** The writer is on its way to the statement that switches the transmit interrupt on. */
  ghost predicate WillEnableWe(th: Thread) {
    th.Writing? && th.w.pc in {WLoop, WLoadIn, WLoadOut, WCopy, WPublish, WEnable}
  }

  ghost predicate WillEnableRe(th: Thread) {
    th.Reading? && th.r.pos > 0 && th.r.pc != RDone
  }

  /** Data waiting to go out has its interrupt on, or a writer about to switch it on. */
  ghost predicate TransmitWakes(s: State) requires Shape(s.u) {
    TxRing(s.u) != [] ==> s.u.ctlWe || WillEnableWe(s.th)
  }

  /** Receiving is only ever off with the ring full, or a reader about to switch it on. */
  ghost predicate ReceiveWakes(s: State) requires Shape(s.u) {
    !s.u.ctlRe ==> Full(s.u.rxBuf, s.u.rxOut, s.u.rxIn) || WillEnableRe(s.th)
  }

  /** The control register shows what irq_enable records. */
  ghost predicate ControlMatches(u: Uart) { u.ctlRe == u.irqRe && u.ctlWe == u.irqWe }

  // ---------------------------------------------------------------- the thread's locals

  ghost predicate WriterFits(u: Uart, w: Writer) requires Shape(u) {
    && w.pos <= |w.data|
    && (w.pc in {WLoadIn, WLoadOut, WCopy, WPublish} ==> w.pos < |w.data|)
    && (w.pc in {WLoadOut, WCopy, WPublish} ==> w.inn == u.txIn)
    && (w.pc in {WCopy, WPublish} ==>
          && 0 < w.n <= |w.data| - w.pos && w.k <= w.n && w.inn + w.n <= |u.txBuf|
          && |TxRing(u)| + w.n < |u.txBuf|
          && u.txBuf[w.inn..w.inn + w.k] == w.data[w.pos..w.pos + w.k])
    && (w.pc == WPublish ==> w.k == w.n)
    && (w.pc == WEnable && w.pos < |w.data| ==> (u.txIn + 1) % |u.txBuf| == w.out)
    && (w.pc in {WSpinOut, WSpinHost, WCheckHost} ==>
          !w.nonblock && w.pos < |w.data| && (u.txIn + 1) % |u.txBuf| == w.out)
  }

  ghost predicate ReaderFits(u: Uart, r: Reader) requires Shape(u) {
    && r.pos <= |r.got|
    && (r.pos > 0 ==> r.pos <= r.space)
    && (r.pc !in {RCopy, RPublish} ==> |r.got| == r.pos)
    && (r.pc in {RLoadIn, RLoadOut, RCopy, RPublish} ==> r.pos < r.space)
    && (r.pc == RLoadOut ==> InnSnapshot(u, r.inn))
    && (r.pc in {RCopy, RPublish} ==>
          && r.out == u.rxOut
          && 0 < r.n <= r.space - r.pos && r.k <= r.n && r.out + r.n <= |u.rxBuf|
          && r.n <= |RxRing(u)|
          && r.got[r.pos..] == RxRing(u)[..r.k])
    && (r.pc == RPublish ==> r.k == r.n)
    && (r.pc == RAfter && (r.pos == 0 || r.pos < r.space) ==> r.inn == u.rxOut)
    && (r.pc in {RSpinIn, RSpinHost, RCheckIn} ==> !r.nonblock && r.pos == 0 && r.inn == u.rxOut)
    && (r.pc in {RLoop} ==> r.pos == 0)
  }

  /** An index the producer held at some time since the consumer last moved. */
  ghost predicate InnSnapshot(u: Uart, inn: nat) requires Shape(u) {
    inn < |u.rxBuf| && |Contents(u.rxBuf, u.rxOut, inn)| <= |RxRing(u)|
  }

  ghost predicate LocalsFit(u: Uart, th: Thread) requires Shape(u) {
    match th
    case Idle => true
    case Writing(w) => WriterFits(u, w)
    case Reading(r) => ReaderFits(u, r)
    case Closing(_) => true
  }

  ghost predicate AllHonest(log: seq<Done>) { forall d <- log :: Honest(d) }

  ghost predicate Inv(s: State) {
    && Shape(s.u)
    && !s.fault
    && ControlMatches(s.u)
    && TransmitFifo(s) && ReceiveFifo(s)
    && TransmitWakes(s) && ReceiveWakes(s)
    && LocalsFit(s.u, s.th)
    && AllHonest(s.log)
  }

  // ---------------------------------------------------------------- interrupts

  /** All that an interrupt may do, seen from the thread: drain the transmit ring from its
      old end, fill the receive ring at its new end, and switch an interrupt off only when
      it has nothing left to do. */
  ghost predicate Rely(u: Uart, v: Uart) {
    && Shape(u) && Shape(v)
    && |v.rxBuf| == |u.rxBuf| && v.txBuf == u.txBuf
    && v.txIn == u.txIn && v.rxOut == u.rxOut && v.timeout == u.timeout
    && v.sent + TxRing(v) == u.sent + TxRing(u)
    && |TxRing(v)| <= |TxRing(u)|
    && |RxRing(u)| <= |RxRing(v)|
    && RxRing(u) == RxRing(v)[..|RxRing(u)|]
    && v.taken == u.taken + RxRing(v)[|RxRing(u)|..]
    && (ControlMatches(u) ==> ControlMatches(v))
    && (u.irqWe && !v.irqWe ==> TxRing(v) == [])
    && (u.irqRe && !v.irqRe ==> Full(v.rxBuf, v.rxOut, v.rxIn))
    && (v.irqWe ==> u.irqWe) && (v.irqRe ==> u.irqRe)
  }

  lemma RelyCompose(u: Uart, v: Uart, w: Uart)
    requires Rely(u, v) && Rely(v, w)
    ensures Rely(u, w)
  {
    hide Contents;
    assert RxRing(w)[..|RxRing(u)|] == RxRing(w)[..|RxRing(v)|][..|RxRing(u)|];
    assert RxRing(w)[|RxRing(u)|..] == RxRing(v)[|RxRing(u)|..] + RxRing(w)[|RxRing(v)|..];
  }

  lemma RelySelf(u: Uart)
    requires Shape(u)
    ensures Rely(u, u)
  {
  }

  lemma TakeByteRely(u: Uart, fifo: seq<byte>)
    requires Shape(u) && fifo != [] && (u.rxIn + 1) % |u.rxBuf| != u.rxOut
    ensures Rely(u, TakeByte(u, fifo))
  {
    hide Contents;
  }

  lemma {:induction false} RxDrainRely(u: Uart, avail: bool, arrivals: seq<seq<byte>>)
    requires Shape(u)
    ensures Rely(u, RxDrain(u, avail, arrivals).0)
    decreases |u.rxBuf| - |RxRing(u)|
  {
    hide Contents, TakeByte, Rely;
    RelySelf(u);
    if (u.rxIn + 1) % |u.rxBuf| != u.rxOut {
      var fifo := u.fifo + (if arrivals == [] then [] else arrivals[0]);
      if fifo != [] {
        var v, rest := TakeByte(u, fifo), if arrivals == [] then [] else arrivals[1..];
        TakeByteRely(u, fifo);
        RxDrainRely(v, |fifo| > 1, rest);
        RelyCompose(u, v, RxDrain(v, |fifo| > 1, rest).0);
      }
    }
  }

  /** The receive loop reports more bytes waiting only when the ring has no room for them. */
  lemma {:induction false} RxDrainStops(u: Uart, avail: bool, arrivals: seq<seq<byte>>)
    requires Shape(u)
    ensures var (v, more) := RxDrain(u, avail, arrivals);
            v.irqRe == u.irqRe && (more ==> Full(v.rxBuf, v.rxOut, v.rxIn))
    decreases |u.rxBuf| - |RxRing(u)|
  {
    FullIffNextIsOut(u.rxBuf, u.rxOut, u.rxIn);
    if (u.rxIn + 1) % |u.rxBuf| != u.rxOut {
      var fifo := u.fifo + (if arrivals == [] then [] else arrivals[0]);
      if fifo != [] {
        RxDrainStops(TakeByte(u, fifo), |fifo| > 1, if arrivals == [] then [] else arrivals[1..]);
      }
    }
  }

  lemma SendByteRely(u: Uart)
    requires Shape(u) && u.txOut != u.txIn
    ensures Rely(u, SendByte(u)) && |TxRing(SendByte(u))| < |TxRing(u)|
  {
    hide Contents;
    PopMany(u.txBuf, u.txOut, u.txIn, 1);
    var v := SendByte(u);
    OneCell(u.txBuf, u.txOut);
    assert v.sent + TxRing(v) == u.sent + ([u.txBuf[u.txOut]] + TxRing(v));
  }

  lemma {:induction false} TxDrainRely(u: Uart, space: nat)
    requires Shape(u)
    ensures Rely(u, TxDrain(u, space).0)
    decreases space
  {
    hide Contents, SendByte, Rely;
    RelySelf(u);
    if space > 0 && u.txOut != u.txIn {
      SendByteRely(u);
      TxDrainRely(SendByte(u), space - 1);
      RelyCompose(u, SendByte(u), TxDrain(u, space).0);
    }
  }

  lemma TxDrainShrinks(u: Uart, space: nat)
    requires Shape(u) && space > 0 && TxRing(u) != []
    ensures |TxRing(TxDrain(u, space).0)| < |TxRing(u)|
  {
    hide Contents, SendByte;
    EqualIndicesMeanEmpty(u);
    SendByteRely(u);
    TxDrainRely(SendByte(u), space - 1);
  }

  lemma EqualIndicesMeanEmpty(u: Uart)
    requires Shape(u)
    ensures u.txOut == u.txIn <==> TxRing(u) == []
    ensures u.rxOut == u.rxIn <==> RxRing(u) == []
  {
    hide Contents;
  }

  /** The transmit loop leaves room unused in the hardware only when the ring is empty. */
  lemma {:induction false} TxDrainStops(u: Uart, space: nat)
    requires Shape(u)
    ensures var (v, left) := TxDrain(u, space); v.irqWe == u.irqWe && (left > 0 ==> TxRing(v) == [])
    decreases space
  {
    if space > 0 && u.txOut != u.txIn { TxDrainStops(SendByte(u), space - 1); }
  }

  lemma RxPassRely(u: Uart, arrivals: seq<seq<byte>>)
    requires Shape(u)
    ensures Rely(u, RxPass(u, arrivals))
  {
    RxDrainRely(u, true, arrivals);
    RxDrainStops(u, true, arrivals);
    var d := RxDrain(u, true, arrivals).0;
    assert Rely(d, RxPass(u, arrivals));
    RelyCompose(u, d, RxPass(u, arrivals));
  }

  lemma TxPassRely(u: Uart, space: nat)
    requires Shape(u)
    ensures Rely(u, TxPass(u, space))
    ensures space > 0 && TxRing(u) != [] ==> |TxRing(TxPass(u, space))| < |TxRing(u)|
  {
    TxDrainRely(u, space);
    TxDrainStops(u, space);
    if space > 0 && TxRing(u) != [] { TxDrainShrinks(u, space); }
    var d := TxDrain(u, space).0;
    assert Rely(d, TxPass(u, space));
    RelyCompose(u, d, TxPass(u, space));
  }

  lemma OnePassRely(u: Uart, p: Pass)
    requires Shape(u)
    ensures Rely(u, OnePass(u, p))
  {
    hide Contents, RxDrain, TxDrain, RxPass, TxPass, Rely;
    RelySelf(u);
    var r := if p.ri then RxPass(u, p.arrivals) else u;
    if p.ri { RxPassRely(u, p.arrivals); }
    if p.wi {
      TxPassRely(r, p.space);
      RelyCompose(u, r, OnePass(u, p));
    }
  }

  lemma {:induction false} IsrRely(u: Uart, passes: seq<Pass>)
    requires Shape(u)
    ensures Rely(u, Isr(u, passes))
    decreases |passes|
  {
    hide Contents, OnePass, Rely;
    RelySelf(u);
    if passes != [] && (passes[0].ri || passes[0].wi) {
      var v := OnePass(u, passes[0]);
      OnePassRely(u, passes[0]);
      IsrRely(v, passes[1..]);
      RelyCompose(u, v, Isr(v, passes[1..]));
    }
  }

  /** Nothing an interrupt does can break the invariant, wherever the thread stands. */
  lemma RelyKeepsInv(s: State, v: Uart)
    requires Inv(s) && Rely(s.u, v)
    ensures Inv(s.(u := v))
  {
    hide Contents, Accepted, Delivered;
    var u, t := s.u, s.(u := v);
    assert TransmitFifo(t);
    assert RxRing(v) == RxRing(u) + RxRing(v)[|RxRing(u)|..];
    assert ReceiveFifo(t);
    assert LocalsFit(v, s.th) by {
      if s.th.Reading? && s.th.r.pc in {RCopy, RPublish} {
        assert RxRing(v)[..s.th.r.k] == RxRing(u)[..s.th.r.k];
      }
    }
  }

  // ---------------------------------------------------------------- thread statements

  lemma LogSteps(log: seq<Done>, d: Done)
    ensures Accepted(log + [d]) ==
            Accepted(log) + (if d.Wrote? && 0 < d.result <= |d.data| then d.data[..d.result] else [])
    ensures Delivered(log + [d]) == Delivered(log) + (if d.GotBytes? then d.bytes else [])
  {
    assert (log + [d])[..|log|] == log;
  }

  lemma RoomFits(u: Uart)
    requires Shape(u)
    ensures 0 <= Room(u.txIn, u.txOut, |u.txBuf|)
    ensures u.txIn + Room(u.txIn, u.txOut, |u.txBuf|) <= |u.txBuf|
    ensures |TxRing(u)| + Room(u.txIn, u.txOut, |u.txBuf|) < |u.txBuf|
    ensures Room(u.txIn, u.txOut, |u.txBuf|) == 0 <==> (u.txIn + 1) % |u.txBuf| == u.txOut
  {
    hide Contents;
    Wrap(u.txIn + 1, |u.txBuf|);
  }

  lemma AvailFits(u: Uart, inn: nat)
    requires Shape(u) && InnSnapshot(u, inn)
    ensures 0 <= Avail(inn, u.rxOut, |u.rxBuf|) <= |RxRing(u)|
    ensures u.rxOut + Avail(inn, u.rxOut, |u.rxBuf|) <= |u.rxBuf|
    ensures Avail(inn, u.rxOut, |u.rxBuf|) == 0 <==> inn == u.rxOut
  {
    hide Contents;
  }

  lemma CopyKeepsInv(s: State)
    requires Inv(s) && s.th.Writing? && s.th.w.pc == WCopy && s.th.w.k < s.th.w.n
    ensures Inv(WriteStep(s))
  {
    hide Contents, Accepted, Delivered;
    var u, w := s.u, s.th.w;
    StoreIsInvisible(u.txBuf, u.txOut, u.txIn, w.k, w.data[w.pos + w.k]);
    OneMoreByte(u.txBuf, w.inn, w.data, w.pos, w.k);
  }

  lemma OneMoreByte(buf: seq<byte>, inn: nat, data: seq<byte>, pos: nat, k: nat)
    requires inn + k < |buf| && pos + k < |data| && buf[inn..inn + k] == data[pos..pos + k]
    ensures buf[inn + k := data[pos + k]][inn..inn + k + 1] == data[pos..pos + k + 1]
  {
    assert buf[inn + k := data[pos + k]][inn..inn + k + 1] == buf[inn..inn + k] + [data[pos + k]];
    assert data[pos..pos + k + 1] == data[pos..pos + k] + [data[pos + k]];
  }

  lemma PublishInOrder(s: State)
    requires Inv(s) && s.th.Writing? && s.th.w.pc == WPublish
    ensures TransmitFifo(WriteStep(s))
  {
    hide Contents, Accepted, Delivered, ReceiveFifo, TransmitWakes, ReceiveWakes, AllHonest, ControlMatches;
    var u, w := s.u, s.th.w;
    PushMany(u.txBuf, u.txOut, u.txIn, w.n);
    var t := WriteStep(s);
    calc {
      t.u.sent + TxRing(t.u);
      u.sent + (TxRing(u) + u.txBuf[w.inn..w.inn + w.n]);
      (u.sent + TxRing(u)) + w.data[w.pos..w.pos + w.n];
      Accepted(s.log) + w.data[..w.pos] + w.data[w.pos..w.pos + w.n];
      { assert w.data[..w.pos + w.n] == w.data[..w.pos] + w.data[w.pos..w.pos + w.n]; }
      Accepted(t.log) + Publishing(t.th);
    }
  }

  lemma PublishKeepsInv(s: State)
    requires Inv(s) && s.th.Writing? && s.th.w.pc == WPublish
    ensures Inv(WriteStep(s))
  {
    PublishInOrder(s);
  }

  /** Statements that only move the thread's program counter and locals. */
  lemma LocalKeepsInv(s: State, th: Thread)
    requires Inv(s) && LocalsFit(s.u, th)
    requires Publishing(th) == Publishing(s.th) && Consuming(th) == Consuming(s.th)
    requires WillEnableWe(s.th) ==> WillEnableWe(th)
    requires WillEnableRe(s.th) ==> WillEnableRe(th)
    ensures Inv(s.(th := th))
  {
    hide Contents, Accepted, Delivered;
  }

  lemma WriterMoveKeepsInv(s: State)
    requires Inv(s) && s.th.Writing? && s.th.w.pc !in {WPublish, WEnable, WDone}
    requires s.th.w.pc == WCopy ==> s.th.w.k == s.th.w.n
    ensures Inv(WriteStep(s))
  {
    hide Contents, TransmitFifo, ReceiveFifo, TransmitWakes, ReceiveWakes, AllHonest, ControlMatches;
    RoomFits(s.u);
    LocalKeepsInv(s, WriteStep(s).th);
  }

  lemma EnableKeepsInv(s: State)
    requires Inv(s) && s.th.Writing? && s.th.w.pc == WEnable
    ensures Inv(WriteStep(s))
  {
    hide Contents, Accepted, Delivered;
  }

  /** The call in progress has returned d. */
  lemma FinishKeepsInv(s: State, d: Done)
    requires Inv(s) && Honest(d)
    requires !WillEnableWe(s.th) && !WillEnableRe(s.th)
    requires Publishing(s.th) == if d.Wrote? && 0 < d.result <= |d.data| then d.data[..d.result] else []
    requires Consuming(s.th) == if d.GotBytes? then d.bytes else []
    ensures Inv(s.(th := Idle, log := s.log + [d]))
  {
    hide Contents;
    LogSteps(s.log, d);
  }

  lemma WriteKeepsInv(s: State)
    requires Inv(s) && s.th.Writing?
    ensures Inv(WriteStep(s))
  {
    hide Contents, Accepted, Delivered;
    var w := s.th.w;
    if w.pc == WCopy && w.k < w.n {
      CopyKeepsInv(s);
    } else if w.pc == WPublish {
      PublishKeepsInv(s);
    } else if w.pc == WEnable {
      EnableKeepsInv(s);
    } else if w.pc == WDone {
      FinishKeepsInv(s, Wrote(w.data, w.nonblock, Outcome(w.pos, w.nonblock)));
    } else {
      WriterMoveKeepsInv(s);
    }
  }

  lemma LoadKeepsInv(s: State)
    requires Inv(s) && s.th.Reading? && s.th.r.pc == RCopy && s.th.r.k < s.th.r.n
    ensures Inv(ReadStep(s))
  {
    hide Contents, TransmitFifo, ReceiveFifo, TransmitWakes, ReceiveWakes, AllHonest, ControlMatches;
    var u, r := s.u, s.th.r;
    PopMany(u.rxBuf, u.rxOut, u.rxIn, r.n);
    var ring := RxRing(u);
    assert u.rxBuf[r.out + r.k] == u.rxBuf[r.out..r.out + r.n][r.k] == ring[r.k];
    var got := r.got + [ring[r.k]];
    assert got[..r.pos] == r.got[..r.pos];
    assert got[r.pos..] == r.got[r.pos..] + [ring[r.k]] == ring[..r.k + 1];
    LocalKeepsInv(s, Reading(r.(got := got, k := r.k + 1)));
  }

  lemma ReleaseInOrder(s: State)
    requires Inv(s) && s.th.Reading? && s.th.r.pc == RPublish
    ensures ReceiveFifo(ReadStep(s))
  {
    hide Contents, Accepted, Delivered, TransmitFifo, TransmitWakes, ReceiveWakes, AllHonest, ControlMatches;
    var u, r := s.u, s.th.r;
    PopMany(u.rxBuf, u.rxOut, u.rxIn, r.n);
    var t := ReadStep(s);
    assert t.th.r.got[..t.th.r.pos] == r.got == r.got[..r.pos] + r.got[r.pos..];
    assert RxRing(u)[..r.n] == u.rxBuf[r.out..r.out + r.n];
    assert RxRing(u) == r.got[r.pos..] + RxRing(t.u);
    calc {
      u.taken;
      Delivered(s.log) + r.got[..r.pos] + (r.got[r.pos..] + RxRing(t.u));
      Delivered(s.log) + (r.got[..r.pos] + r.got[r.pos..]) + RxRing(t.u);
      Delivered(t.log) + Consuming(t.th) + RxRing(t.u);
    }
  }

  lemma ReleaseKeepsInv(s: State)
    requires Inv(s) && s.th.Reading? && s.th.r.pc == RPublish
    ensures Inv(ReadStep(s))
  {
    ReleaseInOrder(s);
  }

  lemma ReaderMoveKeepsInv(s: State)
    requires Inv(s) && s.th.Reading? && s.th.r.pc !in {RPublish, REnable, RDone}
    requires s.th.r.pc == RCopy ==> s.th.r.k == s.th.r.n
    ensures Inv(ReadStep(s))
  {
    hide Contents, TransmitFifo, ReceiveFifo, TransmitWakes, ReceiveWakes, AllHonest, ControlMatches;
    if s.th.r.pc == RLoadOut { AvailFits(s.u, s.th.r.inn); }
    LocalKeepsInv(s, ReadStep(s).th);
  }

  lemma ReEnableKeepsInv(s: State)
    requires Inv(s) && s.th.Reading? && s.th.r.pc == REnable
    ensures Inv(ReadStep(s))
  {
    hide Contents, Accepted, Delivered;
  }

  lemma ReadKeepsInv(s: State)
    requires Inv(s) && s.th.Reading?
    ensures Inv(ReadStep(s))
  {
    hide Contents, Accepted, Delivered;
    var r := s.th.r;
    if r.pc == RCopy && r.k < r.n {
      LoadKeepsInv(s);
    } else if r.pc == RPublish {
      ReleaseKeepsInv(s);
    } else if r.pc == REnable {
      ReEnableKeepsInv(s);
    } else if r.pc == RDone {
      assert r.got[..r.pos] == r.got;
      FinishKeepsInv(s, GotBytes(r.space, r.nonblock, r.got, Outcome(r.pos, r.nonblock)));
    } else {
      ReaderMoveKeepsInv(s);
    }
  }

  lemma CloseKeepsInv(s: State)
    requires Inv(s) && s.th.Closing?
    ensures Inv(CloseStep(s))
  {
    hide Contents, Accepted, Delivered;
    var t := CloseStep(s);
    if t.th.Idle? {
      FinishKeepsInv(s, t.log[|s.log|]);
    } else {
      LocalKeepsInv(s, t.th);
    }
  }

  lemma ApplyKeepsInv(s: State, e: Event)
    requires Inv(s)
    ensures Inv(Apply(s, e))
  {
    hide WriteStep, ReadStep, CloseStep, Contents, Accepted, Delivered, Isr;
    match e
    case Enter(_) =>
    case Step =>
      match s.th {
        case Idle =>
        case Writing(_) => WriteKeepsInv(s);
        case Reading(_) => ReadKeepsInv(s);
        case Closing(_) => CloseKeepsInv(s);
      }
    case Interrupt(passes) =>
      IsrRely(s.u, passes);
      RelyKeepsInv(s, Isr(s.u, passes));
    case Second(ac) =>
      RelyKeepsInv(s, HostCheck(s.u, ac));
    case Arrive(bytes) =>
      RelyKeepsInv(s, s.u.(fifo := s.u.fifo + bytes));
  }

  /** Every state of every run, whatever the interleaving, satisfies the invariant. */
  lemma {:induction false} RunKeepsInv(s: State, events: seq<Event>)
    requires Boot(s)
    ensures Inv(Run(s, events))
  {
    if events != [] {
      RunKeepsInv(s, events[..|events| - 1]);
      ApplyKeepsInv(Run(s, events[..|events| - 1]), events[|events| - 1]);
    }
  }
}
