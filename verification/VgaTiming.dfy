// The VGA timing generator: two 10-bit counters and three registered outputs.
module VgaTiming {

  const H_TOTAL := 800
  const V_TOTAL := 525
  const FRAME := 420_000   // clocks per frame

  type u10 = x: int | 0 <= x < 1024

  /** The registers. */
  datatype Regs = Regs(h: u10, v: u10, hs: bool, vs: bool, blankN: bool)

  predicate HSync(h: int) { !(656 <= h < 752) }
  predicate VSync(v: int) { !(490 <= v < 492) }
  predicate Shown(h: int, v: int) { h < 640 && v < 480 }

  /** The registers after one clock. */
  function Next(s: Regs, reset: bool): Regs {
    if reset then Regs(0, 0, false, false, false)
    else
      var h: u10 := if (s.h + 1) % 1024 == H_TOTAL then 0 else (s.h + 1) % 1024;
      var v: u10 := if (s.h + 1) % 1024 != H_TOTAL then s.v
                    else if (s.v + 1) % 1024 == V_TOTAL then 0 else (s.v + 1) % 1024;
      Regs(h, v, HSync(h), VSync(v), Shown(h, v))
  }

  class Controller {
    var VGA_HS: bool
    var VGA_VS: bool
    var VGA_BLANK_N: bool
    var h_counter: u10
    var v_counter: u10

    function Registers(): Regs
      reads this
    {
      Regs(h_counter, v_counter, VGA_HS, VGA_VS, VGA_BLANK_N)
    }

    constructor (powerOn: Regs)
      ensures Registers() == powerOn
    {
      h_counter, v_counter, VGA_HS, VGA_VS, VGA_BLANK_N := powerOn.h, powerOn.v, powerOn.hs, powerOn.vs, powerOn.blankN;
    }

    /** The combinational block: the next value of every register. */
    method Comb() returns (h_counter_in: u10, v_counter_in: u10, VGA_HS_in: bool, VGA_VS_in: bool, VGA_BLANK_N_in: bool)
      ensures Regs(h_counter_in, v_counter_in, VGA_HS_in, VGA_VS_in, VGA_BLANK_N_in) == Next(Registers(), false)
    {
      h_counter_in := (h_counter + 1) % 1024;
      v_counter_in := v_counter;
      if (h_counter + 1) % 1024 == H_TOTAL {
        h_counter_in := 0;
        if (v_counter + 1) % 1024 == V_TOTAL {
          v_counter_in := 0;
        } else {
          v_counter_in := (v_counter + 1) % 1024;
        }
      }
      VGA_HS_in := true;
      if h_counter_in >= 656 && h_counter_in < 752 {
        VGA_HS_in := false;
      }
      VGA_VS_in := true;
      if v_counter_in >= 490 && v_counter_in < 492 {
        VGA_VS_in := false;
      }
      VGA_BLANK_N_in := false;
      if h_counter_in < 640 && v_counter_in < 480 {
        VGA_BLANK_N_in := true;
      }
    }

    /** A rising edge of the pixel clock. */
    method Clock(reset: bool)
      modifies this
      ensures Registers() == Next(old(Registers()), reset)
    {
      var h, v, hs, vs, blankN := Comb();
      if reset {
        VGA_HS, VGA_VS, VGA_BLANK_N, h_counter, v_counter := false, false, false, 0, 0;
      } else {
        VGA_HS, VGA_VS, VGA_BLANK_N, h_counter, v_counter := hs, vs, blankN, h, v;
      }
    }
  }

  /** n clocks without a reset. */
  function After(s: Regs, n: nat): Regs {
    if n == 0 then s else Next(After(s, n - 1), false)
  }

  // ---------------------------------------------------------------- closed form

  function Column(n: nat): (c: nat)
    ensures c < H_TOTAL
  {
    n % H_TOTAL
  }

  function Line(n: nat): (l: nat)
    ensures l < V_TOTAL
  {
    n / H_TOTAL % V_TOTAL
  }

  /** n clocks after a reset the counters are at column n mod 800 of line (n div 800) mod 525,
      and the registered outputs are those of the position that is shown in the same clock. */
  lemma {:induction false} CountersAre(s: Regs, n: nat)
    requires s.h == 0 && s.v == 0
    ensures var r := After(s, n);
            && r.h == Column(n) && r.v == Line(n)
            && (n >= 1 ==> r.hs == HSync(Column(n)) && r.vs == VSync(Line(n)) && r.blankN == Shown(Column(n), Line(n)))
  {
    hide Column, Line, HSync, VSync, Shown, Next;
    if n > 0 {
      CountersAre(s, n - 1);
      Successor(n - 1);
      NextOnFrame(After(s, n - 1));
    } else {
      Origin();
    }
  }

  lemma Origin()
    ensures Column(0) == 0 && Line(0) == 0
  {
  }

  lemma NextOnFrame(s: Regs)
    requires s.h < H_TOTAL && s.v < V_TOTAL
    ensures var h: u10 := if s.h + 1 == H_TOTAL then 0 else s.h + 1;
            var v: u10 := if s.h + 1 != H_TOTAL then s.v else if s.v + 1 == V_TOTAL then 0 else s.v + 1;
            Next(s, false) == Regs(h, v, HSync(h), VSync(v), Shown(h, v))
  {
  }

  lemma Successor(n: nat)
    ensures Column(n + 1) == if Column(n) + 1 == H_TOTAL then 0 else Column(n) + 1
    ensures Line(n + 1) == if Column(n) + 1 != H_TOTAL then Line(n)
                           else if Line(n) + 1 == V_TOTAL then 0 else Line(n) + 1
  {
    NextColumn(n);
    NextLine(n / H_TOTAL);
  }

  lemma NextColumn(n: nat)
    ensures if n % H_TOTAL == H_TOTAL - 1 then (n + 1) % H_TOTAL == 0 && (n + 1) / H_TOTAL == n / H_TOTAL + 1
            else (n + 1) % H_TOTAL == n % H_TOTAL + 1 && (n + 1) / H_TOTAL == n / H_TOTAL
  {
  }

  lemma NextLine(l: nat)
    ensures (l + 1) % V_TOTAL == if l % V_TOTAL == V_TOTAL - 1 then 0 else l % V_TOTAL + 1
  {
  }

  /** The position decides the clock within a frame, and the other way round. */
  lemma PositionInFrame(n: nat, x: nat, y: nat)
    requires x < H_TOTAL && y < V_TOTAL
    ensures Column(n) == x && Line(n) == y <==> n % FRAME == y * H_TOTAL + x
  {
    var l := n / H_TOTAL;
    FrameOf(n, l, n % H_TOTAL, l / V_TOTAL, l % V_TOTAL);
  }

  lemma FrameOf(n: nat, l: nat, c: nat, f: nat, w: nat)
    requires n == l * H_TOTAL + c && l == f * V_TOTAL + w && c < H_TOTAL && w < V_TOTAL
    ensures n % FRAME == w * H_TOTAL + c
  {
    assert n == f * FRAME + (w * H_TOTAL + c);
  }

  /** In every window of one frame, wherever it starts, every pixel of the picture is shown at
      exactly one clock. */
  lemma EveryPixelOncePerFrame(s: Regs, start: nat, x: nat, y: nat) returns (at: nat)
    requires s.h == 0 && s.v == 0 && start >= 1 && x < 640 && y < 480
    ensures start <= at < start + FRAME
    ensures After(s, at).h == x && After(s, at).v == y && After(s, at).blankN
    ensures forall m | start <= m < start + FRAME && After(s, m).h == x && After(s, m).v == y :: m == at
  {
    hide After, Column, Line;
    var goal := y * H_TOTAL + x;
    at := start + (goal - start) % FRAME;
    assert at % FRAME == goal;
    PositionInFrame(at, x, y);
    CountersAre(s, at);
    forall m | start <= m < start + FRAME && After(s, m).h == x && After(s, m).v == y ensures m == at {
      CountersAre(s, m);
      PositionInFrame(m, x, y);
      SameInWindow(start, m, at);
    }
  }

  lemma SameInWindow(start: nat, m: nat, n: nat)
    requires start <= m < start + FRAME && start <= n < start + FRAME && m % FRAME == n % FRAME
    ensures m == n
  {
  }

  /** Nothing but the picture is shown: outside it the blanking output is low. */
  lemma OnlyPixelsAreShown(s: Regs, n: nat)
    requires s.h == 0 && s.v == 0 && n >= 1
    ensures After(s, n).blankN <==> After(s, n).h < 640 && After(s, n).v < 480
  {
    CountersAre(s, n);
  }

  // ---------------------------------------------------------------- pulse lengths

  /** How many of the k clocks from `start` on have the vertical sync low. */
  function LowVs(s: Regs, start: nat, k: nat): nat {
    if k == 0 then 0 else LowVs(s, start, k - 1) + (if After(s, start + k - 1).vs then 0 else 1)
  }

  /** How many of the first k clocks of a frame are on lines 490 and 491. */
  function Prefix(k: nat): nat { if k < 392_000 then 0 else if k < 393_600 then k - 392_000 else 1600 }

  lemma LowExactlyOnTwoLines(s: Regs, n: nat)
    requires s.h == 0 && s.v == 0 && n >= 1
    ensures !After(s, n).vs <==> 392_000 <= n % FRAME < 393_600
  {
    CountersAre(s, n);
    PositionInFrame(n, Column(n), Line(n));
  }

  /** From clock `start` on, the low clocks are counted frame by frame. */
  lemma {:induction false} LowVsIs(s: Regs, start: nat, k: nat)
    requires s.h == 0 && s.v == 0 && start >= 1
    ensures LowVs(s, start, k) == (start + k) / FRAME * 1600 + Prefix((start + k) % FRAME)
                                  - start / FRAME * 1600 - Prefix(start % FRAME)
  {
    hide After;
    if k > 0 {
      LowVsIs(s, start, k - 1);
      LowExactlyOnTwoLines(s, start + k - 1);
      NextInFrame(start + k - 1);
    }
  }

  lemma NextInFrame(n: nat)
    ensures if n % FRAME == FRAME - 1 then (n + 1) % FRAME == 0 && (n + 1) / FRAME == n / FRAME + 1
            else (n + 1) % FRAME == n % FRAME + 1 && (n + 1) / FRAME == n / FRAME
  {
  }

  /** How many of the k clocks from `start` on have the horizontal sync low. */
  function LowHs(s: Regs, start: nat, k: nat): nat {
    if k == 0 then 0 else LowHs(s, start, k - 1) + (if After(s, start + k - 1).hs then 0 else 1)
  }

  /** How many of the first k clocks of a line are in its pulse. */
  function PulsePrefix(k: nat): nat { if k < 656 then 0 else if k < 752 then k - 656 else 96 }

  lemma {:induction false} LowHsIs(s: Regs, start: nat, k: nat)
    requires s.h == 0 && s.v == 0 && start >= 1
    ensures LowHs(s, start, k) == (start + k) / H_TOTAL * 96 + PulsePrefix((start + k) % H_TOTAL)
                                  - start / H_TOTAL * 96 - PulsePrefix(start % H_TOTAL)
  {
    hide After;
    if k > 0 {
      LowHsIs(s, start, k - 1);
      CountersAre(s, start + k - 1);
      NextColumn(start + k - 1);
    }
  }

  /** Every window of one line has the horizontal sync low for exactly 96 clocks. */
  lemma HorizontalSyncLowFor96(s: Regs, start: nat)
    requires s.h == 0 && s.v == 0 && start >= 1
    ensures LowHs(s, start, H_TOTAL) == 96
  {
    hide LowHs, PulsePrefix;
    LowHsIs(s, start, H_TOTAL);
    assert (start + H_TOTAL) % H_TOTAL == start % H_TOTAL && (start + H_TOTAL) / H_TOTAL == start / H_TOTAL + 1;
  }

  /** A reset, whatever the registers held, takes all of them to zero; n clocks later the pixel is
      n mod 800 of line (n div 800) mod 525, the horizontal sync is low on pixels 656 to 751, the
      vertical sync on lines 490 and 491, and the picture is shown on 640 pixels of 480 lines. */
  lemma OutputsAfterReset(s: Regs, n: nat)
    ensures Next(s, true) == Regs(0, 0, false, false, false) == After(Next(s, true), 0)
    ensures var r := After(Next(s, true), n);
            && r.h == n % 800 && r.v == n / 800 % 525
            && (n >= 1 ==>
                  && (!r.hs <==> 656 <= n % 800 <= 751)
                  && (!r.vs <==> n / 800 % 525 in {490, 491})
                  && (r.blankN <==> n % 800 < 640 && n / 800 % 525 < 480))
  {
    hide After;
    OriginOfRun(Next(s, true));
    CountersAre(Next(s, true), n);
  }

  lemma OriginOfRun(s: Regs)
    ensures After(s, 0) == s
  {
  }

  /** Every window of one frame has the vertical sync low for exactly two lines. */
  lemma VerticalSyncLowFor1600(s: Regs, start: nat)
    requires s.h == 0 && s.v == 0 && start >= 1
    ensures LowVs(s, start, FRAME) == 1600
  {
    hide LowVs, Prefix;
    LowVsIs(s, start, FRAME);
    FrameLater(start);
  }

  lemma FrameLater(n: nat)
    ensures (n + FRAME) % FRAME == n % FRAME && (n + FRAME) / FRAME == n / FRAME + 1
  {
  }

  // ---------------------------------------------------------------- without a reset

  /** Whatever the registers hold at power-on, the counters reach the start of a frame,
      after at most 1024 lines, without a reset. */
  lemma SynchronisesItself(s: Regs) returns (n: nat)
    ensures n <= 1024 + 1024 * H_TOTAL && After(s, n).h == 0 && After(s, n).v == 0
  {
    hide After;
    var a := LineStarts(s);
    var b := FrameStarts(After(s, a));
    AfterAfter(s, a, b);
    n := a + b;
  }

  lemma {:induction false} LineStarts(s: Regs) returns (n: nat)
    ensures 1 <= n <= 1024 && After(s, n).h == 0
    ensures s.h < H_TOTAL ==> n == H_TOTAL - s.h
    ensures After(s, n).v == if s.h >= H_TOTAL then s.v else if s.v == V_TOTAL - 1 then 0 else (s.v + 1) % 1024
    ensures s.h >= H_TOTAL ==> n == 1024 - s.h
    decreases 1024 - s.h
  {
    hide After, HSync, VSync, Shown;
    var t := Next(s, false);
    AfterOne(s);
    if t.h == 0 { return 1; }
    var m := LineStarts(t);
    AfterAfter(s, 1, m);
    n := 1 + m;
  }

  lemma AfterOne(s: Regs)
    ensures After(s, 1) == Next(s, false)
  {
    assert After(s, 0) == s;
  }

  lemma {:induction false} FrameStarts(s: Regs) returns (n: nat)
    requires s.h == 0
    ensures n <= (1024 - s.v) * H_TOTAL && After(s, n).h == 0 && After(s, n).v == 0
    decreases 1024 - s.v
  {
    if s.v == 0 { return 0; }
    var a := LineStarts(s);
    var t := After(s, a);
    if t.v == 0 { return a; }
    var b := FrameStarts(t);
    AfterAfter(s, a, b);
    n := a + b;
  }

  lemma {:induction false} AfterAfter(s: Regs, n: nat, m: nat)
    ensures After(s, n + m) == After(After(s, n), m)
  {
    if m > 0 { AfterAfter(s, n, m - 1); }
  }
}
