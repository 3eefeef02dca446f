// The JTAG UART driver in the form it has: a record updated in place by the routines that
// the thread calls and by the two interrupt routines.  Between any two accesses that the
// thread makes to the shared record stands a call of Preempt, where any number of interrupts
// may happen.  A ghost history ties every execution to a run of the step system, so what
// is proved over all runs holds of this code at each of those points.
module UartDriver {
  import opened Ring
  import opened UartMachine
  import opened UartExact
  import opened UartLiveness
  import opened UartSafety
  import opened Words

  class JtagUart {
    // the device: its FIFOs and its control register
    var fifo: seq<byte>
    ghost var taken: seq<byte>
    var sent: seq<byte>
    var ctlRe: bool
    var ctlWe: bool
    // the driver's record
    const len: nat
    const rxBuf: array<byte>
    const txBuf: array<byte>
    var rxIn: nat
    var rxOut: nat
    var txIn: nat
    var txOut: nat
    var irqRe: bool
    var irqWe: bool
    var hostInactive: nat
    const timeout: nat
    // the history
    ghost const start: State
    ghost var events: seq<Event>
    ghost var th: Thread
    ghost var log: seq<Done>
    ghost var called: State        // how the call in progress, or the last one, began
    ghost var since: seq<Event>    // and what happened since

    ghost function Shared(): Uart
      reads this, rxBuf, txBuf
    {
      Uart(fifo, taken, sent, ctlRe, ctlWe, rxBuf[..], rxIn, rxOut, txBuf[..], txIn, txOut,
           irqRe, irqWe, hostInactive, timeout)
    }

    ghost function View(): State
      reads this, rxBuf, txBuf
    {
      State(Shared(), th, log, false)
    }

    ghost predicate Layout()
      reads this`events, this`called, this`since
    {
      rxBuf != txBuf && rxBuf.Length == txBuf.Length == len && Boot(start) && Recorded()
    }

    /** The run so far is the run up to the last call and what happened since. */
    ghost predicate Recorded()
      requires Boot(start)
      reads this`events, this`called, this`since
    {
      Inv(called) && Run(start, events) == Run(called, since) && forall e <- since :: DuringCall(e)
    }

    /** The present state is where the recorded events lead. */
    ghost predicate Valid()
      reads this, rxBuf, txBuf
    {
      Layout() && View() == Run(start, events)
    }

    constructor (len: nat, timeout: nat)
      requires 2 <= len
      ensures Valid() && events == [] && th == Idle && log == [] && fresh(rxBuf) && fresh(txBuf)
      ensures this.len == len && this.timeout == timeout
    {
      var rx, tx := new byte[len], new byte[len];
      this.len, this.timeout, rxBuf, txBuf := len, timeout, rx, tx;
      fifo, taken, sent, rxIn, rxOut, txIn, txOut := [], [], [], 0, 0, 0, 0;
      irqRe, irqWe, ctlRe, ctlWe, hostInactive := true, false, true, false, 0;
      events, th, log := [], Idle, [];
      start := State(Uart([], [], [], true, false, rx[..], 0, 0, tx[..], 0, 0, true, false, 0, timeout),
                     Idle, [], false);
      called, since := start, [];
      new;
      RunKeepsInv(start, []);
    }

    /** Record that the last change of the state was the event e. */
    ghost method Commit(e: Event)
      requires Layout() && View() == Apply(Run(start, events), e) && DuringCall(e)
      modifies this`events, this`since
      ensures Valid() && events == old(events) + [e]
    {
      hide Apply, Inv;
      assert (events + [e])[..|events|] == events && (since + [e])[..|since|] == since;
      events, since := events + [e], since + [e];
    }

    /** Whatever has been executed, the driver is in a state that the step system can reach,
        so all that holds over every run holds here. */
    lemma OnlySafeStates()
      requires Valid()
      ensures Inv(View())
    {
      hide Run, Recorded;
      RunKeepsInv(start, events);
    }

    // -------------------------------------------------------------- interrupt routines

    /** The interrupt routine; `passes` is what the hardware shows it. */
    method Irq(passes: seq<Pass>)
      requires Layout() && Shape(Shared())
      modifies this`fifo, this`taken, this`sent, this`ctlRe, this`ctlWe, this`rxIn, this`txOut, this`irqRe, this`irqWe
      modifies rxBuf
      ensures Shared() == Isr(old(Shared()), passes)
    {
      hide Contents, RxPass, TxPass, Run, Recorded;
      var p := 0;
      while p < |passes| && (passes[p].ri || passes[p].wi)
        invariant p <= |passes| && Shape(Shared())
        invariant Isr(Shared(), passes[p..]) == Isr(old(Shared()), passes)
      {
        ghost var u := Shared();
        if passes[p].ri {
          Receive(passes[p].arrivals);
        }
        if passes[p].wi {
          Transmit(passes[p].space);
        }
        assert Shared() == OnePass(u, passes[p]);
        assert passes[p..][0] == passes[p] && passes[p..][1..] == passes[p + 1..];
        p := p + 1;
      }
    }

    method Receive(arrivals: seq<seq<byte>>)
      requires Layout() && Shape(Shared())
      modifies this`fifo, this`taken, this`ctlRe, this`ctlWe, this`rxIn, this`irqRe, rxBuf
      ensures Shared() == RxPass(old(Shared()), arrivals)
    {
      hide Contents, TakeByte, Recorded;
      var avail, rest := true, arrivals;
      while (rxIn + 1) % len != rxOut
        invariant Shape(Shared())
        invariant RxDrain(Shared(), avail, rest) == RxDrain(old(Shared()), true, arrivals)
        decreases len - |RxRing(Shared())|
      {
        ghost var u := Shared();
        var seen := fifo + (if rest == [] then [] else rest[0]);
        if seen == [] {
          avail := false;
          break;
        }
        ReceiveByte(seen);
        avail, rest := |seen| > 1, if rest == [] then [] else rest[1..];
        assert Shared() == TakeByte(u, seen);
      }
      if avail {
        irqRe := false;
        ctlRe, ctlWe := irqRe, irqWe;
      }
    }

    /** Read the data register and store what it delivers. */
    method ReceiveByte(seen: seq<byte>)
      requires Layout() && Shape(Shared()) && seen != [] && (rxIn + 1) % len != rxOut
      modifies this`fifo, this`taken, this`rxIn, rxBuf
      ensures Shared() == TakeByte(old(Shared()), seen)
    {
      rxBuf[rxIn] := seen[0];
      fifo, taken, rxIn := seen[1..], taken + [seen[0]], (rxIn + 1) % len;
    }

    /** Store the oldest byte of the ring to the data register. */
    method TransmitByte()
      requires Layout() && Shape(Shared())
      modifies this`sent, this`txOut
      ensures Shared() == SendByte(old(Shared()))
    {
      sent := sent + [txBuf[txOut]];
      txOut := (txOut + 1) % len;
    }

    method Transmit(space: nat)
      requires Layout() && Shape(Shared())
      modifies this`sent, this`ctlRe, this`ctlWe, this`txOut, this`irqWe
      ensures Shared() == TxPass(old(Shared()), space)
    {
      hide Contents, SendByte, Recorded;
      var left := space;
      while left > 0 && txOut != txIn
        invariant Shape(Shared())
        invariant TxDrain(Shared(), left) == TxDrain(old(Shared()), space)
      {
        ghost var u := Shared();
        TransmitByte();
        left := left - 1;
      }
      if left > 0 {
        irqWe := false;
        ctlRe, ctlWe := irqRe, irqWe;
      }
    }

    /** The alarm callback that runs every second. */
    method Timeout(ac: bool)
      modifies this`ctlRe, this`ctlWe, this`hostInactive
      ensures Shared() == HostCheck(old(Shared()), ac)
    {
      if ac {
        ctlRe, ctlWe := irqRe, irqWe;
        hostInactive := 0;
      } else if hostInactive < INT_MAX - 2 {
        hostInactive := hostInactive + 1;
      }
    }

    /** Any finite number of interrupts and arrivals, in any order. */
    method Preempt()
      requires Valid()
      modifies this, rxBuf
      ensures Valid() && th == old(th) && log == old(log) && old(events) <= events && called == old(called)
      ensures rxOut == old(rxOut) && txIn == old(txIn)
    {
      hide *;
      var n: nat := *;
      while n > 0
        invariant Valid() && th == old(th) && log == old(log) && old(events) <= events && called == old(called)
        invariant rxOut == old(rxOut) && txIn == old(txIn)
      {
        Happen();
        n := n - 1;
      }
    }

    /** One interrupt, one host check, or the arrival of some bytes. */
    method Happen()
      requires Valid()
      modifies this, rxBuf
      ensures Valid() && th == old(th) && log == old(log) && old(events) <= events && called == old(called)
      ensures rxOut == old(rxOut) && txIn == old(txIn)
    {
      hide Run, Contents, Isr, Foreground, HostCheck, Recorded, Inv;
      if * {
        var passes: seq<Pass> := *;
        Irq(passes);
        Commit(Interrupt(passes));
      } else if * {
        var ac: bool := *;
        Timeout(ac);
        Commit(Second(ac));
      } else {
        var bytes: seq<byte> := *;
        fifo := fifo + bytes;
        Commit(Arrive(bytes));
      }
    }

    /** The idle thread calls a driver routine. */
    method Start(ghost call: Call)
      requires Valid() && th == Idle
      modifies this, rxBuf
      ensures Valid() && th == Begin(call) && log == old(log) && old(events) <= events
      ensures called == old(View()).(th := Begin(call))
    {
      hide Run, Contents, Foreground, Recorded;
      Mark(call);
      Preempt();
    }

    ghost method Mark(call: Call)
      requires Valid() && th == Idle
      modifies this`th, this`events, this`called, this`since
      ensures Valid() && th == Begin(call) && log == old(log) && old(events) <= events
      ensures called == old(View()).(th := Begin(call))
    {
      hide Contents, Foreground, Inv, Isr, HostCheck;
      ghost var next := events + [Enter(call)];
      assert next[..|events|] == events;
      RunKeepsInv(start, next);
      th, events, since := Begin(call), next, [];
      called := View();
    }

    /** The routine in progress returns to the thread. */
    ghost method Return(d: Done)
      requires Valid() && Foreground(View()) == View().(th := Idle, log := log + [d])
      modifies this`th, this`log, this`events, this`since
      ensures Valid() && th == Idle && log == old(log) + [d] && old(events) <= events && called == old(called)
    {
      hide Run, Contents, Foreground, Recorded;
      th, log := Idle, log + [d];
      Commit(Step);
    }

    /** The thread has just executed a statement that took its locals to t. */
    method Advance(ghost t: Thread)
      requires Layout() && View().(th := t) == Foreground(Run(start, events))
      modifies this, rxBuf
      ensures Valid() && th == t && log == old(log) && old(events) <= events && called == old(called)
      ensures rxOut == old(rxOut) && txIn == old(txIn)
    {
      hide Run, Contents, Foreground, Recorded;
      th := t;
      Commit(Step);
      Preempt();
    }

    // -------------------------------------------------------------- foreground routines

    /** Where the thread stands in a call of write. */
    ghost predicate InWrite(pc: WritePc, data: seq<byte>, pos: nat, nonblock: bool, out: nat)
      reads this`th
    {
      && th.Writing? && th.w.pc == pc && th.w.data == data && th.w.pos == pos
      && th.w.nonblock == nonblock && th.w.out == out
    }

    lemma CopyInFits()
      requires Valid() && th.Writing? && th.w.pc == WCopy
      ensures th.w.k <= th.w.n && th.w.inn + th.w.n <= len && th.w.pos + th.w.n <= |th.w.data|
    {
      hide Run, Contents, Recorded;
      RunKeepsInv(start, events);
    }

    lemma RoomIsKnown()
      requires Valid() && th.Writing? && th.w.pc == WLoadOut
      ensures txOut < len && th.w.inn == txIn < len && th.w.pos < |th.w.data|
      ensures 0 <= Room(txIn, txOut, len)
    {
      hide Run, Contents, Recorded;
      RunKeepsInv(start, events);
    }

    method StoreByte(i: nat, b: byte)
      requires Layout() && i < len
      modifies txBuf
      ensures Shared() == old(Shared()).(txBuf := old(txBuf[..])[i := b])
    {
      txBuf[i] := b;
    }

    /** memcpy(tx_buf + inn, data + pos, n), a byte at a time. */
    method CopyIn(data: seq<byte>, pos: nat, inn: nat, n: nat)
      requires Valid() && th.Writing? && th.w.pc == WCopy && th.w.k == 0
      requires th.w.data == data && th.w.pos == pos && th.w.inn == inn && th.w.n == n
      modifies this, rxBuf, txBuf
      ensures Valid() && log == old(log) && old(events) <= events && called == old(called)
      ensures th == Writing(old(th.w).(k := n))
    {
      hide Run, Contents, ReadStep, CloseStep, Recorded;
      for k := 0 to n
        invariant Valid() && log == old(log) && old(events) <= events && called == old(called)
        invariant th == Writing(old(th.w).(k := k))
      {
        CopyInFits();
        StoreByte(inn + k, data[pos + k]);
        Advance(Writing(th.w.(k := k + 1)));
      }
    }

    /** tx_in := (inn + n) % len, once the n bytes are in place. */
    method Publish(data: seq<byte>, nonblock: bool, pos: nat, inn: nat, n: nat)
      requires Valid() && th.Writing? && InWrite(WCopy, data, pos, nonblock, th.w.out)
      requires th.w.inn == inn && th.w.k == th.w.n == n
      modifies this, rxBuf
      ensures Valid() && log == old(log) && old(events) <= events && called == old(called)
      ensures InWrite(WLoop, data, pos + n, nonblock, old(th.w.out))
    {
      hide Run, Contents, ReadStep, CloseStep, Recorded;
      Advance(Writing(th.w.(pc := WPublish)));
      txIn := (inn + n) % len;
      Advance(Writing(th.w.(pc := WLoop, pos := pos + n)));
    }

    /** Load both indices and work out how many bytes the next memcpy may move. */
    method FreeCells(data: seq<byte>, nonblock: bool, pos: nat) returns (inn: nat, out: nat, n: nat)
      requires Valid() && th.Writing? && InWrite(WLoop, data, pos, nonblock, th.w.out) && pos < |data|
      modifies this, rxBuf
      ensures Valid() && log == old(log) && old(events) <= events && called == old(called)
      ensures InWrite(if n == 0 then WEnable else WCopy, data, pos, nonblock, out)
      ensures n > 0 ==> th.w.inn == inn && th.w.n == n && th.w.k == 0
      ensures inn == txIn == old(txIn) && n == Min(|data| - pos, Room(inn, out, len))
    {
      hide Run, Contents, ReadStep, CloseStep, Recorded;
      Advance(Writing(th.w.(pc := WLoadIn)));
      inn := txIn;
      Advance(Writing(th.w.(pc := WLoadOut, inn := inn)));
      RoomIsKnown();
      out := txOut;
      if inn < out {
        n := out - 1 - inn;
      } else if out > 0 {
        n := len - inn;
      } else {
        n := len - 1 - inn;
      }
      if n == 0 {
        Advance(Writing(th.w.(pc := WEnable, out := out, n := 0)));
      } else {
        if n > |data| - pos {
          n := |data| - pos;
        }
        Advance(Writing(th.w.(pc := WCopy, out := out, n := n, k := 0)));
      }
    }

    /** Copy as much of data[from..] into the transmit ring as it has room for. */
    method Fill(data: seq<byte>, nonblock: bool, from: nat, lastOut: nat) returns (pos: nat, out: nat)
      requires Valid() && InWrite(WLoop, data, from, nonblock, lastOut)
      modifies this, rxBuf, txBuf
      ensures Valid() && log == old(log) && old(events) <= events && called == old(called)
      ensures InWrite(WEnable, data, pos, nonblock, out)
      ensures from <= pos <= |data|
      ensures pos < |data| ==> (txIn + 1) % len == out
    {
      hide Run, Contents, ReadStep, CloseStep, Recorded;
      pos, out := from, lastOut;
      while pos < |data|
        invariant Valid() && log == old(log) && old(events) <= events && called == old(called)
        invariant InWrite(WLoop, data, pos, nonblock, out) && from <= pos
      {
        var inn, n;
        inn, out, n := FreeCells(data, nonblock, pos);
        if n == 0 {
          FullOrDone();
          return;
        }
        CopyIn(data, pos, inn, n);
        Publish(data, nonblock, pos, inn, n);
        pos := pos + n;
      }
      Advance(Writing(th.w.(pc := WEnable)));
      FullOrDone();
    }

    lemma FullOrDone()
      requires Valid() && th.Writing? && th.w.pc == WEnable
      ensures th.w.pos <= |th.w.data|
      ensures th.w.pos < |th.w.data| ==> (txIn + 1) % len == th.w.out
    {
      hide Run, Contents, Recorded;
      RunKeepsInv(start, events);
    }

    /** Wait until the interrupt routine has taken a byte or the host is given up; false if
        `patience` tests of the loop did not end the wait. */
    method AwaitRoom(data: seq<byte>, nonblock: bool, pos: nat, out: nat, patience: nat) returns (over: bool, left: nat)
      requires Valid() && InWrite(WSpinOut, data, pos, nonblock, out)
      modifies this, rxBuf
      ensures Valid() && log == old(log) && old(events) <= events && called == old(called)
      ensures InWrite(if over then WCheckHost else WSpinOut, data, pos, nonblock, out)
      ensures over ==> left < patience
    {
      hide Run, Contents, ReadStep, CloseStep, Recorded;
      left := patience;
      while left > 0
        invariant Valid() && log == old(log) && old(events) <= events && called == old(called)
        invariant InWrite(WSpinOut, data, pos, nonblock, out) && left <= patience
      {
        left := left - 1;
        if out != txOut {
          Advance(Writing(th.w.(pc := WCheckHost)));
          return true, left;
        }
        Advance(Writing(th.w.(pc := WSpinHost)));
        if !(hostInactive < timeout) {
          Advance(Writing(th.w.(pc := WCheckHost)));
          return true, left;
        }
        Advance(Writing(th.w.(pc := WSpinOut)));
      }
      over := false;
    }

    /** irq_enable |= WE; control := irq_enable, with interrupts masked. */
    method EnableWe(data: seq<byte>, nonblock: bool, pos: nat, out: nat)
      requires Valid() && InWrite(WEnable, data, pos, nonblock, out)
      modifies this, rxBuf
      ensures Valid() && log == old(log) && old(events) <= events && called == old(called)
      ensures InWrite(if pos < |data| && !nonblock then WSpinOut else WDone, data, pos, nonblock, out)
    {
      hide Run, Contents, ReadStep, CloseStep, Recorded;
      irqWe := true;
      ctlRe, ctlWe := irqRe, irqWe;
      Advance(Writing(th.w.(pc := if pos < |data| && !nonblock then WSpinOut else WDone)));
    }

    /** if (host_inactive) break; */
    method HostGone(data: seq<byte>, nonblock: bool, pos: nat, out: nat) returns (gone: bool)
      requires Valid() && InWrite(WCheckHost, data, pos, nonblock, out)
      modifies this, rxBuf
      ensures Valid() && log == old(log) && old(events) <= events && called == old(called)
      ensures InWrite(if gone then WDone else WLoop, data, pos, nonblock, out)
    {
      hide Run, Contents, ReadStep, CloseStep, Recorded;
      gone := hostInactive != 0;
      Advance(Writing(th.w.(pc := if gone then WDone else WLoop)));
    }

    method WriteResult(data: seq<byte>, nonblock: bool, pos: nat, out: nat) returns (result: int)
      requires Valid() && InWrite(WDone, data, pos, nonblock, out)
      modifies this`th, this`log, this`events, this`since
      ensures Valid() && th == Idle && log == old(log) + [Wrote(data, nonblock, result)]
      ensures old(events) <= events && called == old(called)
    {
      hide Run, Contents, ReadStep, CloseStep, Recorded;
      result := if pos > 0 then pos else if nonblock then -EWOULDBLOCK else -EIO;
      Return(Wrote(data, nonblock, result));
    }

    /** write(2) on the device.  The wait for room can last for ever when the host keeps
        polling but reads nothing, so it is cut off after `patience` tests: `finished` is
        false when the thread is still waiting then. */
    method Write(data: seq<byte>, nonblock: bool, patience: nat) returns (finished: bool, result: int)
      requires Valid() && th == Idle
      modifies this, rxBuf, txBuf
      ensures Valid() && old(events) <= events && called == old(View()).(th := Begin(CallWrite(data, nonblock)))
      ensures finished ==> th == Idle && log == old(log) + [Wrote(data, nonblock, result)]
      ensures finished && len - 1 > |old(TxRing(Shared()))| ==> data == [] || result > 0
      ensures finished ==> Min(|data|, len - 1 - |old(TxRing(Shared()))|) <= if result > 0 then result else 0
      ensures !finished ==>
                log == old(log) && th.Writing? && th.w.pc == WSpinOut && th.w.data == data && th.w.nonblock == nonblock
    {
      hide Run, Contents, Foreground, WriteStep, Valid, Recorded;
      Start(CallWrite(data, nonblock));
      ghost var begun := called;
      var pos: nat, out: nat, left: nat := 0, 0, patience;
      while true
        invariant Valid() && log == old(log) && old(events) <= events && called == begun
        invariant InWrite(WLoop, data, pos, nonblock, out)
        decreases left
      {
        pos, out := Fill(data, nonblock, pos, out);
        EnableWe(data, nonblock, pos, out);
        if !(pos < |data|) || nonblock {
          break;
        }
        var over;
        over, left := AwaitRoom(data, nonblock, pos, out, left);
        if !over {
          return false, 0;
        }
        var gone := HostGone(data, nonblock, pos, out);
        if gone {
          break;
        }
      }
      finished := true;
      result := WriteResult(data, nonblock, pos, out);
      WhatFitted(data, nonblock);
    }

    lemma WhatFitted(data: seq<byte>, nonblock: bool)
      requires Valid() && th == Idle && called.th == Begin(CallWrite(data, nonblock))
      ensures |log| > 0 && log[|log| - 1].Wrote? && Shape(called.u)
      ensures var result := log[|log| - 1].result;
              Min(|data|, len - 1 - |TxRing(called.u)|) <= if result > 0 then result else 0
    {
      hide Run, Inv, Contents;
      Fits(called);
      WriteFills(called, since, data, nonblock);
    }

    /** Where the thread stands in a call of read; what it has copied is in the buffer. */
    ghost predicate InRead(pc: ReadPc, space: int, buffer: array<byte>, pos: nat, nonblock: bool, inn: nat)
      reads this`th, buffer
    {
      && th.Reading? && th.r.pc == pc && th.r.space == space && th.r.pos == pos && th.r.nonblock == nonblock
      && th.r.inn == inn && pos <= buffer.Length && th.r.got == buffer[..pos]
    }

    /** The caller's buffer is memory of its own, as large as it says. */
    ghost predicate Caller(buffer: array<byte>, space: int) {
      buffer != rxBuf && buffer != txBuf && space <= buffer.Length
    }

    lemma CopyOutFits()
      requires Valid() && th.Reading? && th.r.pc == RCopy
      ensures th.r.k <= th.r.n && th.r.out + th.r.n <= len && |th.r.got| == th.r.pos + th.r.k
      ensures th.r.pos + th.r.n <= th.r.space
    {
      hide Run, Contents, Recorded;
      RunKeepsInv(start, events);
    }

    lemma AvailIsKnown()
      requires Valid() && th.Reading? && th.r.pc == RLoadOut
      ensures rxOut < len && 0 <= Avail(th.r.inn, rxOut, len) && th.r.pos < th.r.space
    {
      hide Run, Contents, Recorded;
      RunKeepsInv(start, events);
      AvailFits(Shared(), th.r.inn);
    }

    /** memcpy(buffer + pos, rx_buf + out, n), a byte at a time. */
    method CopyOut(buffer: array<byte>, space: int, pos: nat, out: nat, n: nat)
      requires Valid() && Caller(buffer, space)
      requires th.Reading? && InRead(RCopy, space, buffer, pos, th.r.nonblock, th.r.inn)
      requires th.r.out == out && th.r.n == n && th.r.k == 0
      modifies this, rxBuf, buffer
      ensures Valid() && log == old(log) && old(events) <= events && called == old(called)
      ensures pos + n <= buffer.Length && buffer[..pos] == old(buffer[..pos])
      ensures buffer[pos + n..] == old(buffer[pos + n..])
      ensures th == Reading(old(th.r).(k := n, got := buffer[..pos + n]))
    {
      hide Run, Contents, WriteStep, CloseStep, Recorded;
      CopyOutFits();
      for k := 0 to n
        invariant Valid() && log == old(log) && old(events) <= events && called == old(called)
        invariant buffer[..pos] == old(buffer[..pos]) && buffer[pos + n..] == old(buffer[pos + n..])
        invariant th == Reading(old(th.r).(k := k, got := buffer[..pos + k]))
      {
        CopyOutFits();
        LoadByte(buffer, pos + k, out + k);
        Advance(Reading(th.r.(k := k + 1, got := buffer[..pos + k + 1])));
      }
    }

    method LoadByte(buffer: array<byte>, i: nat, j: nat)
      requires Layout() && buffer != rxBuf && buffer != txBuf && i < buffer.Length && j < len
      modifies buffer
      ensures Shared() == old(Shared())
      ensures buffer[..i + 1] == old(buffer[..i]) + [rxBuf[j]] && buffer[i + 1..] == old(buffer[i + 1..])
    {
      buffer[i] := rxBuf[j];
    }

    /** rx_out := (out + n) % len, once the n bytes are copied. */
    method Release(buffer: array<byte>, space: int, pos: nat, nonblock: bool, out: nat, n: nat)
      requires Valid() && Caller(buffer, space) && th.Reading? && th.r.pc == RCopy && th.r.space == space
      requires th.r.pos == pos && th.r.nonblock == nonblock && th.r.out == out && th.r.k == th.r.n == n
      requires pos + n <= buffer.Length && th.r.got == buffer[..pos + n]
      modifies this, rxBuf
      ensures Valid() && log == old(log) && old(events) <= events && called == old(called)
      ensures InRead(if pos + n < space then RLoadIn else RAfter, space, buffer, pos + n, nonblock, old(th.r.inn))
    {
      hide Run, Contents, WriteStep, CloseStep, Recorded;
      Advance(Reading(th.r.(pc := RPublish)));
      rxOut := (out + n) % len;
      Advance(Reading(th.r.(pc := if pos + n < space then RLoadIn else RAfter, pos := pos + n)));
    }

    /** Load both indices and work out how many bytes the next memcpy may move. */
    method StoredCells(buffer: array<byte>, space: int, pos: nat, nonblock: bool) returns (inn: nat, out: nat, n: nat)
      requires Valid() && Caller(buffer, space)
      requires th.Reading? && InRead(RLoadIn, space, buffer, pos, nonblock, th.r.inn)
      modifies this, rxBuf
      ensures Valid() && log == old(log) && old(events) <= events && called == old(called)
      ensures InRead(if n == 0 then RAfter else RCopy, space, buffer, pos, nonblock, inn)
      ensures n > 0 ==> th.r.out == out && th.r.n == n && th.r.k == 0
      ensures out == rxOut == old(rxOut) && n == Min(space - pos, Avail(inn, out, len))
    {
      hide Run, Contents, WriteStep, CloseStep, Recorded;
      inn := rxIn;
      Advance(Reading(th.r.(pc := RLoadOut, inn := inn)));
      AvailIsKnown();
      out := rxOut;
      if inn >= out {
        n := inn - out;
      } else {
        n := len - out;
      }
      if n == 0 {
        Advance(Reading(th.r.(pc := RAfter, out := out, n := 0)));
      } else {
        if n > space - pos {
          n := space - pos;
        }
        Advance(Reading(th.r.(pc := RCopy, out := out, n := n, k := 0)));
      }
    }

    /** Copy as much as the ring holds and the caller has space for. */
    method Drain(buffer: array<byte>, space: int, from: nat, nonblock: bool, lastIn: nat) returns (pos: nat, inn: nat)
      requires Valid() && Caller(buffer, space) && InRead(RLoadIn, space, buffer, from, nonblock, lastIn)
      requires from < space
      modifies this, rxBuf, buffer
      ensures Valid() && log == old(log) && old(events) <= events && called == old(called)
      ensures InRead(RAfter, space, buffer, pos, nonblock, inn)
      ensures from <= pos <= space && buffer[pos..] == old(buffer[..])[pos..]
      ensures pos < space ==> inn == rxOut
      ensures called.th == Begin(CallRead(space, nonblock)) ==> Min(space, |RxRing(called.u)|) <= pos
    {
      hide Run, Contents, Valid, Recorded;
      pos, inn := from, lastIn;
      while pos < space
        invariant Valid() && log == old(log) && old(events) <= events && called == old(called)
        invariant from <= pos <= space <= buffer.Length && buffer[pos..] == old(buffer[..])[pos..]
        invariant InRead(if pos < space then RLoadIn else RAfter, space, buffer, pos, nonblock, inn)
      {
        var out, n;
        inn, out, n := StoredCells(buffer, space, pos, nonblock);
        if n == 0 {
          NothingPassedOver(space, nonblock);
          return;
        }
        ghost var before := buffer[..];
        CopyOut(buffer, space, pos, out, n);
        RestOfRest(before, old(buffer[..]), buffer[..], pos, n);
        Release(buffer, space, pos, nonblock, out, n);
        pos := pos + n;
      }
      NothingPassedOver(space, nonblock);
    }

    /** Wait until a byte arrives or the host is given up; false if `patience` tests of the
        loop did not end the wait. */
    method AwaitByte(buffer: array<byte>, space: int, pos: nat, nonblock: bool, inn: nat, patience: nat)
      returns (over: bool, left: nat)
      requires Valid() && Caller(buffer, space) && InRead(RSpinIn, space, buffer, pos, nonblock, inn)
      modifies this, rxBuf
      ensures Valid() && log == old(log) && old(events) <= events && called == old(called)
      ensures InRead(if over then RCheckIn else RSpinIn, space, buffer, pos, nonblock, inn)
      ensures over ==> left < patience
    {
      hide Run, Contents, WriteStep, CloseStep, Recorded;
      left := patience;
      while left > 0
        invariant Valid() && log == old(log) && old(events) <= events && called == old(called)
        invariant InRead(RSpinIn, space, buffer, pos, nonblock, inn) && left <= patience
      {
        left := left - 1;
        if inn != rxIn {
          Advance(Reading(th.r.(pc := RCheckIn)));
          return true, left;
        }
        Advance(Reading(th.r.(pc := RSpinHost)));
        if !(hostInactive < timeout) {
          Advance(Reading(th.r.(pc := RCheckIn)));
          return true, left;
        }
        Advance(Reading(th.r.(pc := RSpinIn)));
      }
      over := false;
    }

    /** A statement of read that reads no shared variable and picks where to go on. */
    method Decide(buffer: array<byte>, space: int, pos: nat, nonblock: bool, inn: nat,
                  ghost from: ReadPc, ghost to: ReadPc)
      requires Valid() && Caller(buffer, space) && InRead(from, space, buffer, pos, nonblock, inn)
      requires (from == RLoop && to == if pos < space then RLoadIn else REnable)
            || (from == RAfter && to == if pos > 0 || nonblock then REnable else RSpinIn)
      modifies this, rxBuf
      ensures Valid() && log == old(log) && old(events) <= events && called == old(called)
      ensures InRead(to, space, buffer, pos, nonblock, inn)
    {
      hide Run, Contents, WriteStep, CloseStep, Recorded;
      Advance(Reading(th.r.(pc := to)));
    }

    /** if (in == sp->rx_in) break; */
    method StillEmpty(buffer: array<byte>, space: int, pos: nat, nonblock: bool, inn: nat) returns (empty: bool)
      requires Valid() && Caller(buffer, space) && InRead(RCheckIn, space, buffer, pos, nonblock, inn)
      modifies this, rxBuf
      ensures Valid() && log == old(log) && old(events) <= events && called == old(called)
      ensures InRead(if empty then REnable else RLoop, space, buffer, pos, nonblock, inn)
    {
      hide Run, Contents, WriteStep, CloseStep, Recorded;
      empty := inn == rxIn;
      Advance(Reading(th.r.(pc := if empty then REnable else RLoop)));
    }

    /** The end of read: with data consumed there is space, so receive interrupts go on. */
    method ReadResult(buffer: array<byte>, space: int, pos: nat, nonblock: bool, inn: nat) returns (result: int)
      requires Valid() && Caller(buffer, space) && InRead(REnable, space, buffer, pos, nonblock, inn)
      modifies this, rxBuf
      ensures Valid() && th == Idle && old(events) <= events && called == old(called)
      ensures pos <= buffer.Length && log == old(log) + [GotBytes(space, nonblock, buffer[..pos], result)]
      ensures result == if pos > 0 then pos else if nonblock then -EWOULDBLOCK else -EIO
    {
      hide Run, Contents, WriteStep, CloseStep, Recorded;
      if pos > 0 {
        irqRe := true;
        ctlRe, ctlWe := irqRe, irqWe;
      }
      Advance(Reading(th.r.(pc := RDone)));
      result := if pos > 0 then pos else if nonblock then -EWOULDBLOCK else -EIO;
      Return(GotBytes(space, nonblock, buffer[..pos], result));
    }

    /** read(2) on the device, with the same bound on waiting as Write. */
    method Read(buffer: array<byte>, space: int, nonblock: bool, patience: nat) returns (finished: bool, result: int)
      requires Valid() && th == Idle && Caller(buffer, space)
      modifies this, rxBuf, buffer
      ensures Valid() && old(events) <= events && called == old(View()).(th := Begin(CallRead(space, nonblock)))
      ensures finished && space > 0 ==>
                var ring := old(RxRing(Shared()));
                Min(space, |ring|) <= buffer.Length && buffer[..Min(space, |ring|)] == ring[..Min(space, |ring|)]
      ensures finished && space > 0 && old(RxRing(Shared())) != [] ==> result >= Min(space, |old(RxRing(Shared()))|)
      ensures finished && nonblock ==> (result < 0 <==> space <= 0 || SawNothing(called, since))
      ensures finished ==>
                var moved := if result > 0 then result else 0;
                && th == Idle && moved <= buffer.Length
                && log == old(log) + [GotBytes(space, nonblock, buffer[..moved], result)]
                && buffer[moved..] == old(buffer[..])[moved..]
      ensures !finished ==>
                log == old(log) && th.Reading? && th.r.pc == RSpinIn && th.r.space == space && th.r.nonblock == nonblock
    {
      hide Run, Contents, Foreground, ReadStep, WriteStep, CloseStep, Valid, Recorded;
      Start(CallRead(space, nonblock));
      var pos, inn;
      finished, pos, inn := Collect(buffer, space, nonblock, patience);
      if finished {
        result := ReadResult(buffer, space, pos, nonblock, inn);
        WhatWasThere(space, nonblock);
      } else {
        result := 0;
      }
    }

    /** The outer loop of read: drain the ring, and wait for a byte if there was none. */
    method Collect(buffer: array<byte>, space: int, nonblock: bool, patience: nat)
      returns (finished: bool, pos: nat, inn: nat)
      requires Valid() && Caller(buffer, space) && InRead(RLoop, space, buffer, 0, nonblock, 0)
      modifies this, rxBuf, buffer
      ensures Valid() && log == old(log) && old(events) <= events && called == old(called)
      ensures finished ==> InRead(REnable, space, buffer, pos, nonblock, inn)
      ensures pos <= buffer.Length && buffer[pos..] == old(buffer[..])[pos..]
      ensures !finished ==> InRead(RSpinIn, space, buffer, 0, nonblock, inn)
    {
      hide Run, Contents, Foreground, ReadStep, WriteStep, CloseStep, Valid, Recorded;
      pos, inn := 0, 0;
      var left := patience;
      while true
        invariant Valid() && log == old(log) && old(events) <= events && called == old(called)
        invariant InRead(RLoop, space, buffer, pos, nonblock, inn) && pos == 0 && buffer[..] == old(buffer[..])
        decreases left
      {
        Decide(buffer, space, pos, nonblock, inn, RLoop, if pos < space then RLoadIn else REnable);
        if !(pos < space) {
          break;
        }
        pos, inn := Drain(buffer, space, pos, nonblock, inn);
        Decide(buffer, space, pos, nonblock, inn, RAfter, if pos > 0 || nonblock then REnable else RSpinIn);
        if pos > 0 || nonblock {
          break;
        }
        var over;
        over, left := AwaitByte(buffer, space, pos, nonblock, inn, left);
        if !over {
          return false, pos, inn;
        }
        var empty := StillEmpty(buffer, space, pos, nonblock, inn);
        if empty {
          break;
        }
      }
      finished := true;
    }

    lemma WhatWasThere(space: int, nonblock: bool)
      requires Valid() && th == Idle && called.th == Begin(CallRead(space, nonblock))
      ensures |log| > 0 && log[|log| - 1].GotBytes? && Shape(called.u)
      ensures var d, ring := log[|log| - 1], RxRing(called.u);
              && (space > 0 ==> Min(space, |ring|) <= |d.bytes|
                                && d.bytes[..Min(space, |ring|)] == ring[..Min(space, |ring|)])
              && (nonblock ==> (d.result < 0 <==> space <= 0 || SawNothing(called, since)))
    {
      hide Run, Inv, Contents, SawNothing;
      ReadTakesWhatIsThere(called, since, space, nonblock);
      if nonblock { NonblockingReadFailsExactlyWhen(called, since, space); }
    }

    /** At the end of the copying nothing that was in the ring has been passed over. */
    lemma NothingPassedOver(space: int, nonblock: bool)
      requires Valid() && th.Reading? && th.r.pc == RAfter
      ensures Inv(called) && (th.r.pos == 0 || th.r.pos <= th.r.space)
      ensures th.r.pos < th.r.space ==> th.r.inn == rxOut
      ensures called.th == Begin(CallRead(space, nonblock)) ==> Min(space, |RxRing(called.u)|) <= th.r.pos
    {
      hide Run, Contents;
      RunKeepsInv(start, events);
      if called.th == Begin(CallRead(space, nonblock)) { ReadTakes(called, since, space, nonblock); }
    }

    /** tx_out != tx_in: true when the ring has drained and close has returned. */
    method Drained(nonblock: bool) returns (over: bool)
      requires Valid() && th == Closing(Closer(CLoadOut, nonblock))
      modifies this, rxBuf
      ensures Valid() && old(events) <= events && called == old(called)
      ensures over ==> th == Idle && log == old(log) + [Closed(nonblock, 0)]
      ensures !over ==> th == Closing(Closer(CLoadHost, nonblock)) && log == old(log)
    {
      hide Run, Contents, Recorded;
      over := txOut == txIn;
      if over { Return(Closed(nonblock, 0)); } else { Advance(Closing(Closer(CLoadHost, nonblock))); }
    }

    /** host_inactive < timeout: true when the host is given up and close has returned. */
    method GivesHostUp(nonblock: bool) returns (over: bool)
      requires Valid() && th == Closing(Closer(CLoadHost, nonblock))
      modifies this, rxBuf
      ensures Valid() && old(events) <= events && called == old(called)
      ensures over ==> th == Idle && log == old(log) + [Closed(nonblock, 0)]
      ensures !over ==> th == Closing(Closer(CFlags, nonblock)) && log == old(log)
    {
      hide Run, Contents, Recorded;
      over := !(hostInactive < timeout);
      if over { Return(Closed(nonblock, 0)); } else { Advance(Closing(Closer(CFlags, nonblock))); }
    }

    /** flags & O_NONBLOCK: true when close will not wait and has returned. */
    method WillNotWait(nonblock: bool) returns (over: bool)
      requires Valid() && th == Closing(Closer(CFlags, nonblock))
      modifies this, rxBuf
      ensures Valid() && old(events) <= events && called == old(called) && over == nonblock
      ensures over ==> th == Idle && log == old(log) + [Closed(nonblock, -EWOULDBLOCK)]
      ensures !over ==> th == Closing(Closer(CLoadOut, nonblock)) && log == old(log)
    {
      hide Run, Contents, Recorded;
      over := nonblock;
      if over { Return(Closed(nonblock, -EWOULDBLOCK)); } else { Advance(Closing(Closer(CLoadOut, nonblock))); }
    }

    /** close(2) on the device: wait for the transmit ring to drain, or give the host up. */
    method Close(nonblock: bool, patience: nat) returns (finished: bool, result: int)
      requires Valid() && th == Idle
      modifies this, rxBuf
      ensures Valid() && old(events) <= events && called == old(View()).(th := Begin(CallClose(nonblock)))
      ensures finished ==> th == Idle && log == old(log) + [Closed(nonblock, result)]
      ensures !finished ==> log == old(log) && th == Closing(Closer(CLoadOut, nonblock))
    {
      hide Run, Contents, Valid, Recorded;
      Start(CallClose(nonblock));
      ghost var begun := called;
      var left := patience;
      while left > 0
        invariant Valid() && log == old(log) && old(events) <= events && called == begun
        invariant th == Closing(Closer(CLoadOut, nonblock)) && left <= patience
      {
        left := left - 1;
        var over := Drained(nonblock);
        if over { return true, 0; }
        over := GivesHostUp(nonblock);
        if over { return true, 0; }
        over := WillNotWait(nonblock);
        if over { return true, -EWOULDBLOCK; }
      }
      finished, result := false, 0;
    }
  }

  /** What a copy leaves alone is what the copies before it have left alone. */
  lemma RestOfRest(before: seq<byte>, first: seq<byte>, after: seq<byte>, pos: nat, n: nat)
    requires |before| == |first| == |after| && pos + n <= |first|
    requires before[pos..] == first[pos..] && after[pos + n..] == before[pos + n..]
    ensures after[pos + n..] == first[pos + n..]
  {
    assert before[pos..][n..] == before[pos + n..] && first[pos..][n..] == first[pos + n..];
  }
}
