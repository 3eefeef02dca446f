// What one interrupt moves, exactly: as many bytes out as ring and hardware allow, as many in
// as hardware and ring allow, and which interrupt it switches off.
module UartInterrupts {
  import opened Ring
  import opened UartMachine
  import opened UartSafety
  import opened Words

  function Least(a: nat, b: nat): nat { if a <= b then a else b }

  // ---------------------------------------------------------------- transmission

  /** The transmit loop sends the oldest bytes, as many as there are and as the hardware takes. */
  lemma {:induction false} TxDrainSends(u: Uart, space: nat)
    requires Shape(u)
    ensures var m := Least(space, |TxRing(u)|);
            var (v, left) := TxDrain(u, space);
            && v.sent == u.sent + TxRing(u)[..m] && TxRing(v) == TxRing(u)[m..] && left == space - m
            && v.irqRe == u.irqRe && v.irqWe == u.irqWe && v.ctlRe == u.ctlRe && v.ctlWe == u.ctlWe
    decreases space
  {
    hide Contents, SendByte;
    EqualIndicesMeanEmpty(u);
    var ring, m := TxRing(u), Least(space, |TxRing(u)|);
    if space > 0 && u.txOut != u.txIn {
      SendsOldest(u);
      TxDrainSends(SendByte(u), space - 1);
      FirstAndRest(u.sent, ring, m);
    } else {
      assert u.sent + ring[..0] == u.sent && ring[0..] == ring;
    }
  }

  lemma SendsOldest(u: Uart)
    requires Shape(u) && TxRing(u) != []
    ensures var v := SendByte(u);
            && v.sent == u.sent + [TxRing(u)[0]] && TxRing(v) == TxRing(u)[1..]
            && v.irqRe == u.irqRe && v.irqWe == u.irqWe && v.ctlRe == u.ctlRe && v.ctlWe == u.ctlWe
  {
    hide Contents;
    PopMany(u.txBuf, u.txOut, u.txIn, 1);
    OneCell(u.txBuf, u.txOut);
    assert TxRing(u) == [u.txBuf[u.txOut]] + TxRing(SendByte(u));
  }

  lemma FirstAndRest(front: seq<byte>, ring: seq<byte>, m: nat)
    requires 1 <= m <= |ring|
    ensures front + [ring[0]] + ring[1..][..m - 1] == front + ring[..m]
    ensures ring[1..][m - 1..] == ring[m..]
  {
    assert ring[..m] == [ring[0]] + ring[1..][..m - 1];
  }

  /** The transmit half of a pass: these bytes, and the interrupt goes off if and only if the
      hardware could have taken more. */
  lemma TxPassSends(u: Uart, space: nat)
    requires Shape(u)
    ensures var m, v := Least(space, |TxRing(u)|), TxPass(u, space);
            && v.sent == u.sent + TxRing(u)[..m] && TxRing(v) == TxRing(u)[m..]
            && (v.irqWe <==> u.irqWe && space <= |TxRing(u)|) && v.irqRe == u.irqRe
  {
    hide Contents, TxDrain;
    TxDrainSends(u, space);
  }

  /** The room that the passes of an interrupt find in the hardware, all together. */
  function TotalSpace(passes: seq<Pass>): nat {
    if passes == [] then 0 else passes[0].space + TotalSpace(passes[1..])
  }

  /** An interrupt goes on as long as the hardware has something pending: it sends as much as
      all its passes find room for. */
  lemma {:induction false} IsrSends(u: Uart, passes: seq<Pass>)
    requires Shape(u) && forall p <- passes :: p.wi && !p.ri
    ensures var m, v := Least(TotalSpace(passes), |TxRing(u)|), Isr(u, passes);
            v.sent == u.sent + TxRing(u)[..m] && TxRing(v) == TxRing(u)[m..]
    decreases |passes|
  {
    hide Contents, TxPass;
    if passes == [] {
      assert u.sent + TxRing(u)[..0] == u.sent && TxRing(u)[0..] == TxRing(u);
    } else {
      TxPassSends(u, passes[0].space);
      var w := TxPass(u, passes[0].space);
      IsrSends(w, passes[1..]);
      var m, k := Least(passes[0].space, |TxRing(u)|), Least(TotalSpace(passes[1..]), |TxRing(w)|);
      assert TxRing(u)[..m] + TxRing(u)[m..][..k] == TxRing(u)[..m + k];
      assert u.sent + TxRing(u)[..m] + TxRing(w)[..k] == u.sent + (TxRing(u)[..m] + TxRing(w)[..k]);
      assert TxRing(u)[m..][k..] == TxRing(u)[m + k..];
    }
  }

  // ---------------------------------------------------------------- reception

  function Flat(arrivals: seq<seq<byte>>): seq<byte> {
    if arrivals == [] then [] else arrivals[0] + Flat(arrivals[1..])
  }

  /** The receive loop takes bytes in the order of their arrival, and ends with the ring full or
      the hardware empty; it reports more bytes exactly when some are left, or when it made no
      read at all. */
  lemma {:induction false} RxDrainTakes(u: Uart, avail: bool, arrivals: seq<seq<byte>>) returns (j: nat)
    requires Shape(u)
    ensures j <= |arrivals|
    ensures var (v, more) := RxDrain(u, avail, arrivals);
            && v.taken + v.fifo == u.taken + u.fifo + Flat(arrivals[..j])
            && (Full(v.rxBuf, v.rxOut, v.rxIn) || v.fifo == [])
            && (Full(u.rxBuf, u.rxOut, u.rxIn) ==> v == u && more == avail)
            && (!Full(u.rxBuf, u.rxOut, u.rxIn) ==> (more <==> v.fifo != []))
            && |v.taken| >= |u.taken|
            && (v.taken == u.taken ==> Full(u.rxBuf, u.rxOut, u.rxIn) || !Full(v.rxBuf, v.rxOut, v.rxIn))
            && v.irqRe == u.irqRe && v.irqWe == u.irqWe
    decreases |u.rxBuf| - |RxRing(u)|
  {
    hide Contents;
    FullIffNextIsOut(u.rxBuf, u.rxOut, u.rxIn);
    if (u.rxIn + 1) % |u.rxBuf| == u.rxOut {
      j := 0;
      assert u.taken + u.fifo + [] == u.taken + u.fifo;
    } else {
      var rest := if arrivals == [] then [] else arrivals[1..];
      var fifo := u.fifo + (if arrivals == [] then [] else arrivals[0]);
      if fifo == [] {
        j := 0;
        assert u.taken + u.fifo + [] == u.taken + u.fifo;
      } else {
        var w := TakeByte(u, fifo);
        var i := RxDrainTakes(w, |fifo| > 1, rest);
        TakenInOrder(u, arrivals, w, rest, i);
        j := if arrivals == [] then 0 else i + 1;
      }
    }
  }

  lemma TakenInOrder(u: Uart, arrivals: seq<seq<byte>>, w: Uart, rest: seq<seq<byte>>, i: nat)
    requires rest == (if arrivals == [] then [] else arrivals[1..]) && i <= |rest|
    requires var fifo := u.fifo + (if arrivals == [] then [] else arrivals[0]);
             fifo != [] && w.taken == u.taken + [fifo[0]] && w.fifo == fifo[1..]
    ensures var j := if arrivals == [] then 0 else i + 1;
            w.taken + w.fifo + Flat(rest[..i]) == u.taken + u.fifo + Flat(arrivals[..j])
  {
    var fifo := u.fifo + (if arrivals == [] then [] else arrivals[0]);
    assert w.taken + w.fifo == u.taken + fifo;
    if arrivals == [] {
      assert rest[..i] == [] == arrivals[..0];
    } else {
      assert arrivals[..i + 1][1..] == rest[..i] && arrivals[..i + 1][0] == arrivals[0];
      assert u.taken + (u.fifo + arrivals[0]) + Flat(rest[..i]) == u.taken + u.fifo + (arrivals[0] + Flat(rest[..i]));
    }
  }

  /** The receive half of a pass: afterwards the ring is full or the hardware empty, and the
      interrupt goes off if and only if the ring is full and bytes are left, or nothing could be
      taken at all. */
  lemma RxPassTakes(u: Uart, arrivals: seq<seq<byte>>)
    requires Shape(u)
    ensures var v := RxPass(u, arrivals);
            && (Full(v.rxBuf, v.rxOut, v.rxIn) || v.fifo == [])
            && (v.irqRe <==> u.irqRe && !(Full(v.rxBuf, v.rxOut, v.rxIn) && (v.fifo != [] || v.taken == u.taken)))
            && v.irqWe == u.irqWe
  {
    hide Contents, RxDrain;
    var _ := RxDrainTakes(u, true, arrivals);
  }

  // ---------------------------------------------------------------- the host check

  ghost function IdleSeconds(u: Uart, k: nat): Uart {
    if k == 0 then u else HostCheck(IdleSeconds(u, k - 1), false)
  }

  /** After k seconds without a sign of the host the counter stands at k, up to INT_MAX - 2;
      one sign sets it back, and the control register to what the driver has enabled. */
  lemma {:induction false} HostCheckCounts(u: Uart, k: nat)
    requires u.hostInactive == 0
    ensures IdleSeconds(u, k).hostInactive == Least(k, INT_MAX - 2)
    ensures HostCheck(IdleSeconds(u, k), true).hostInactive == 0
    ensures ControlMatches(HostCheck(IdleSeconds(u, k), true))
  {
    if k > 0 { HostCheckCounts(u, k - 1); }
  }
}
