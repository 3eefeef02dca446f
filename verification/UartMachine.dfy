// The interrupt-driven JTAG UART driver as a step system.  One foreground thread runs the
// driver's write, read and close routines one statement at a time; between any two of its
// statements the interrupt routine, the one-second host check or the arrival of bytes at
// the hardware may happen.  Both interrupt routines run with interrupts masked, so each is
// a single event.
module UartMachine {
  import opened Ring
  import opened Words

  type byte = b: int | 0 <= b < 256

  const EIO := 5
  const EWOULDBLOCK := 11

  /** What thread and interrupt routine share: the device and the driver's state record. */
  datatype Uart = Uart(
    // the device
    fifo: seq<byte>,      // bytes received and not yet read from the data register
    taken: seq<byte>,     // every byte the data register ever delivered
    sent: seq<byte>,      // every byte ever stored to the data register
    ctlRe: bool,          // read interrupt enable in the control register
    ctlWe: bool,          // write interrupt enable in the control register
    // the driver's record
    rxBuf: seq<byte>, rxIn: nat, rxOut: nat,
    txBuf: seq<byte>, txIn: nat, txOut: nat,
    irqRe: bool, irqWe: bool,           // the two bits of irq_enable
    hostInactive: nat, timeout: nat)

  ghost predicate Shape(u: Uart) {
    Indices(u.rxBuf, u.rxOut, u.rxIn) && Indices(u.txBuf, u.txOut, u.txIn)
  }

  ghost function RxRing(u: Uart): seq<byte> requires Shape(u) { Contents(u.rxBuf, u.rxOut, u.rxIn) }

  ghost function TxRing(u: Uart): seq<byte> requires Shape(u) { Contents(u.txBuf, u.txOut, u.txIn) }

  // ---------------------------------------------------------------- interrupt routines

  /** One turn of the interrupt routine's outer loop: what the control register shows, and
      the bytes that reach the hardware just before each read of the data register. */
  datatype Pass = Pass(ri: bool, wi: bool, space: nat, arrivals: seq<seq<byte>>)

  /** One byte from the head of the hardware FIFO into the receive ring. */
  ghost function TakeByte(u: Uart, fifo: seq<byte>): (u': Uart)
    requires Shape(u) && fifo != [] && (u.rxIn + 1) % |u.rxBuf| != u.rxOut
    ensures Shape(u') && |u'.rxBuf| == |u.rxBuf|
    ensures RxRing(u') == RxRing(u) + [fifo[0]]
  {
    FullIffNextIsOut(u.rxBuf, u.rxOut, u.rxIn);
    StoreIsInvisible(u.rxBuf, u.rxOut, u.rxIn, 0, fifo[0]);
    PushMany(u.rxBuf[u.rxIn := fifo[0]], u.rxOut, u.rxIn, 1);
    u.(fifo := fifo[1..], taken := u.taken + [fifo[0]],
       rxBuf := u.rxBuf[u.rxIn := fifo[0]], rxIn := (u.rxIn + 1) % |u.rxBuf|)
  }

  /** The inner receive loop; `avail` is whether the last data read announced more bytes. */
  ghost function RxDrain(u: Uart, avail: bool, arrivals: seq<seq<byte>>): (r: (Uart, bool))
    requires Shape(u)
    ensures Shape(r.0)
    decreases |u.rxBuf| - |RxRing(u)|
  {
    if (u.rxIn + 1) % |u.rxBuf| == u.rxOut then (u, avail)
    else
      var fifo := u.fifo + (if arrivals == [] then [] else arrivals[0]);
      if fifo == [] then (u, false)
      else RxDrain(TakeByte(u, fifo), |fifo| > 1, if arrivals == [] then [] else arrivals[1..])
  }

  ghost function RxPass(u: Uart, arrivals: seq<seq<byte>>): (u': Uart)
    requires Shape(u)
    ensures Shape(u')
  {
    var (d, avail) := RxDrain(u, true, arrivals);
    if avail then d.(irqRe := false, ctlRe := false, ctlWe := d.irqWe) else d
  }

  /** One byte from the old end of the transmit ring into the data register. */
  ghost function SendByte(u: Uart): (u': Uart)
    requires Shape(u)
    ensures Shape(u')
  {
    u.(sent := u.sent + [u.txBuf[u.txOut]], txOut := (u.txOut + 1) % |u.txBuf|)
  }

  /** The inner transmit loop; the second result is the space left in the hardware. */
  ghost function TxDrain(u: Uart, space: nat): (r: (Uart, nat))
    requires Shape(u)
    ensures Shape(r.0)
    decreases space
  {
    if space > 0 && u.txOut != u.txIn then TxDrain(SendByte(u), space - 1) else (u, space)
  }

  ghost function TxPass(u: Uart, space: nat): (u': Uart)
    requires Shape(u)
    ensures Shape(u')
  {
    var (d, left) := TxDrain(u, space);
    if left > 0 then d.(irqWe := false, ctlWe := false, ctlRe := d.irqRe) else d
  }

  ghost function OnePass(u: Uart, p: Pass): (u': Uart)
    requires Shape(u)
    ensures Shape(u')
  {
    var r := if p.ri then RxPass(u, p.arrivals) else u;
    if p.wi then TxPass(r, p.space) else r
  }

  /** The interrupt routine; it returns at the first pass that shows nothing pending. */
  ghost function Isr(u: Uart, passes: seq<Pass>): (u': Uart)
    requires Shape(u)
    ensures Shape(u')
    decreases |passes|
  {
    if passes == [] || (!passes[0].ri && !passes[0].wi) then u
    else Isr(OnePass(u, passes[0]), passes[1..])
  }

  /** The alarm callback that runs every second: `ac` says the host touched the device. */
  ghost function HostCheck(u: Uart, ac: bool): (u': Uart) {
    if ac then u.(ctlRe := u.irqRe, ctlWe := u.irqWe, hostInactive := 0)
    else if u.hostInactive < INT_MAX - 2 then u.(hostInactive := u.hostInactive + 1)
    else u
  }

  // ---------------------------------------------------------------- foreground thread

  datatype Call =
    | CallWrite(data: seq<byte>, nonblock: bool)
    | CallRead(space: int, nonblock: bool)
    | CallClose(nonblock: bool)

  datatype WritePc = WLoop | WLoadIn | WLoadOut | WCopy | WPublish | WEnable | WSpinOut | WSpinHost | WCheckHost | WDone

  datatype ReadPc =
    RLoop | RLoadIn | RLoadOut | RCopy | RPublish | RAfter | RSpinIn | RSpinHost | RCheckIn | REnable | RDone

  datatype ClosePc = CLoadOut | CLoadHost | CFlags

  // The routines' local variables.  `pos` is how far ptr has moved, `k` how many bytes of
  // the current memcpy are done, `got` what the caller's read buffer holds.
  datatype Writer = Writer(pc: WritePc, data: seq<byte>, pos: nat, nonblock: bool, inn: nat, out: nat, n: nat, k: nat)

  datatype Reader =
    Reader(pc: ReadPc, space: int, got: seq<byte>, pos: nat, nonblock: bool, inn: nat, out: nat, n: nat, k: nat)

  datatype Closer = Closer(pc: ClosePc, nonblock: bool)

  datatype Thread = Idle | Writing(w: Writer) | Reading(r: Reader) | Closing(c: Closer)

  /** A finished call: what it was asked for and what it returned. */
  datatype Done =
    | Wrote(data: seq<byte>, nonblock: bool, result: int)
    | GotBytes(space: int, nonblock: bool, bytes: seq<byte>, result: int)
    | Closed(nonblock: bool, result: int)

  /** `fault` records an access outside a ring buffer or outside the caller's data. */
  datatype State = State(u: Uart, th: Thread, log: seq<Done>, fault: bool)

  /** Contiguous free cells from the producer index, as the write routine computes them. */
  ghost function Room(inn: nat, out: nat, len: nat): int {
    if inn < out then out - 1 - inn else if out > 0 then len - inn else len - 1 - inn
  }

  /** Contiguous stored cells from the consumer index, as the read routine computes them. */
  ghost function Avail(inn: nat, out: nat, len: nat): int {
    if inn >= out then inn - out else len - out
  }

  ghost function Outcome(moved: nat, nonblock: bool): int {
    if moved > 0 then moved else if nonblock then -EWOULDBLOCK else -EIO
  }

  ghost function WriteStep(s: State): (s': State)
    requires Shape(s.u) && s.th.Writing?
    ensures Shape(s'.u)
  {
    var u, t := s.u, s.th.w;
    var len := |u.txBuf|;
    match t.pc
    case WLoop => s.(th := Writing(t.(pc := if t.pos < |t.data| then WLoadIn else WEnable)))
    case WLoadIn => s.(th := Writing(t.(pc := WLoadOut, inn := u.txIn)))
    case WLoadOut =>
      var room := Room(t.inn, u.txOut, len);
      var left := |t.data| - t.pos;
      if room <= 0 then s.(th := Writing(t.(pc := WEnable, out := u.txOut, n := 0)), fault := s.fault || room < 0)
      else if left < 0 then s.(fault := true)
      else s.(th := Writing(t.(pc := WCopy, out := u.txOut, n := if room > left then left else room, k := 0)))
    case WCopy =>
      if t.k == t.n then s.(th := Writing(t.(pc := WPublish)))
      else if t.inn + t.k < len && t.pos + t.k < |t.data| then
        s.(u := u.(txBuf := u.txBuf[t.inn + t.k := t.data[t.pos + t.k]]), th := Writing(t.(k := t.k + 1)))
      else s.(fault := true)
    case WPublish => s.(u := u.(txIn := (t.inn + t.n) % len), th := Writing(t.(pc := WLoop, pos := t.pos + t.n)))
    case WEnable =>
      s.(u := u.(irqWe := true, ctlWe := true, ctlRe := u.irqRe),
         th := Writing(t.(pc := if t.pos < |t.data| && !t.nonblock then WSpinOut else WDone)))
    case WSpinOut => s.(th := Writing(t.(pc := if t.out == u.txOut then WSpinHost else WCheckHost)))
    case WSpinHost => s.(th := Writing(t.(pc := if u.hostInactive < u.timeout then WSpinOut else WCheckHost)))
    case WCheckHost => s.(th := Writing(t.(pc := if u.hostInactive != 0 then WDone else WLoop)))
    case WDone => s.(th := Idle, log := s.log + [Wrote(t.data, t.nonblock, Outcome(t.pos, t.nonblock))])
  }

  ghost function ReadStep(s: State): (s': State)
    requires Shape(s.u) && s.th.Reading?
    ensures Shape(s'.u)
  {
    var u, t := s.u, s.th.r;
    var len := |u.rxBuf|;
    match t.pc
    case RLoop => s.(th := Reading(t.(pc := if t.pos < t.space then RLoadIn else REnable)))
    case RLoadIn => s.(th := Reading(t.(pc := RLoadOut, inn := u.rxIn)))
    case RLoadOut =>
      var avail := Avail(t.inn, u.rxOut, len);
      var left := t.space - t.pos;
      if avail <= 0 then s.(th := Reading(t.(pc := RAfter, out := u.rxOut, n := 0)), fault := s.fault || avail < 0)
      else if left < 0 then s.(fault := true)
      else s.(th := Reading(t.(pc := RCopy, out := u.rxOut, n := if avail > left then left else avail, k := 0)))
    case RCopy =>
      if t.k == t.n then s.(th := Reading(t.(pc := RPublish)))
      else if t.out + t.k < len && |t.got| < t.space then
        s.(th := Reading(t.(got := t.got + [u.rxBuf[t.out + t.k]], k := t.k + 1)))
      else s.(fault := true)
    case RPublish =>
      s.(u := u.(rxOut := (t.out + t.n) % len),
         th := Reading(t.(pc := if t.pos + t.n < t.space then RLoadIn else RAfter, pos := t.pos + t.n)))
    case RAfter => s.(th := Reading(t.(pc := if t.pos > 0 || t.nonblock then REnable else RSpinIn)))
    case RSpinIn => s.(th := Reading(t.(pc := if t.inn == u.rxIn then RSpinHost else RCheckIn)))
    case RSpinHost => s.(th := Reading(t.(pc := if u.hostInactive < u.timeout then RSpinIn else RCheckIn)))
    case RCheckIn => s.(th := Reading(t.(pc := if t.inn == u.rxIn then REnable else RLoop)))
    case REnable =>
      s.(u := if t.pos > 0 then u.(irqRe := true, ctlRe := true, ctlWe := u.irqWe) else u,
         th := Reading(t.(pc := RDone)))
    case RDone =>
      s.(th := Idle, log := s.log + [GotBytes(t.space, t.nonblock, t.got, Outcome(t.pos, t.nonblock))])
  }

  ghost function CloseStep(s: State): (s': State)
    requires Shape(s.u) && s.th.Closing?
    ensures Shape(s'.u)
  {
    var u, t := s.u, s.th.c;
    match t.pc
    case CLoadOut =>
      if u.txOut != u.txIn then s.(th := Closing(t.(pc := CLoadHost)))
      else s.(th := Idle, log := s.log + [Closed(t.nonblock, 0)])
    case CLoadHost =>
      if u.hostInactive < u.timeout then s.(th := Closing(t.(pc := CFlags)))
      else s.(th := Idle, log := s.log + [Closed(t.nonblock, 0)])
    case CFlags =>
      if t.nonblock then s.(th := Idle, log := s.log + [Closed(t.nonblock, -EWOULDBLOCK)])
      else s.(th := Closing(t.(pc := CLoadOut)))
  }

  ghost function Begin(c: Call): Thread {
    match c
    case CallWrite(data, nonblock) => Writing(Writer(WLoop, data, 0, nonblock, 0, 0, 0, 0))
    case CallRead(space, nonblock) => Reading(Reader(RLoop, space, [], 0, nonblock, 0, 0, 0, 0))
    case CallClose(nonblock) => Closing(Closer(CLoadOut, nonblock))
  }

  // ---------------------------------------------------------------- runs

  datatype Event =
    | Enter(call: Call)           // the idle thread calls a driver routine
    | Step                        // the thread executes its next statement
    | Interrupt(passes: seq<Pass>)
    | Second(ac: bool)            // the host check's alarm goes off
    | Arrive(bytes: seq<byte>)    // bytes reach the hardware

  ghost function Foreground(s: State): (s': State)
    requires Shape(s.u)
    ensures Shape(s'.u)
  {
    match s.th
    case Idle => s
    case Writing(_) => WriteStep(s)
    case Reading(_) => ReadStep(s)
    case Closing(_) => CloseStep(s)
  }

  ghost function Apply(s: State, e: Event): (s': State)
    requires Shape(s.u)
    ensures Shape(s'.u)
  {
    match e
    case Enter(call) => if s.th.Idle? then s.(th := Begin(call)) else s
    case Step => Foreground(s)
    case Interrupt(passes) => s.(u := Isr(s.u, passes))
    case Second(ac) => s.(u := HostCheck(s.u, ac))
    case Arrive(bytes) => s.(u := s.u.(fifo := s.u.fifo + bytes))
  }

  /** The driver as initialisation leaves it: empty rings, receive interrupts on. */
  ghost predicate Boot(s: State) {
    && Shape(s.u)
    && s.u.rxIn == s.u.rxOut == s.u.txIn == s.u.txOut == 0
    && s.u.irqRe && s.u.ctlRe && !s.u.irqWe && !s.u.ctlWe
    && s.u.hostInactive == 0 && s.u.taken == [] && s.u.sent == []
    && s.th == Idle && s.log == [] && !s.fault
  }

  ghost function Run(s: State, events: seq<Event>): (s': State)
    requires Shape(s.u)
    ensures Shape(s'.u)
  {
    if events == [] then s else Apply(Run(s, events[..|events| - 1]), events[|events| - 1])
  }
}
