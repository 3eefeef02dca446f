// Time of day: an offset against the tick counter, set in 32 bits and read back in 64.
module TimeOfDay {
  import opened Words
  import opened Wrappers

  const US := 1_000_000

  const ENOSYS: int := 88      // newlib
  const ENOTSUP: int := 134    // newlib

  datatype Timeval = Timeval(sec: s32, usec: s32)
  datatype Timezone = Timezone(minuteswest: s32, dsttime: s32)

  /** A 32-bit pattern as a signed number. */
  function Signed(x: int): s32 {
    var r := x % WORD;
    if r <= INT_MAX then r else r - WORD
  }

  function Micros(t: Timeval): int { t.sec * US + t.usec }

  predicate Normal(t: Timeval) { t.sec >= 0 && 0 <= t.usec < US }

  /** Microseconds per tick, as the source computes them. */
  function PerTick(rate: u32): (k: nat)
    requires rate > 0
    ensures k <= US
  {
    Quotient(US, rate);
    US / rate
  }

  /** The microseconds that n ticks are beyond a whole second: as reading finds them, in 64
      bits, and as setting finds them, in 32. */
  function Wide(n: u32, rate: u32): (us: int)
    requires rate > 0
    ensures 0 <= us < US
  {
    n * PerTick(rate) % US
  }

  function Narrow(n: u32, rate: u32): (us: int)
    requires rate > 0
    ensures 0 <= us < US
  {
    n * PerTick(rate) % WORD % US
  }

  function Seconds(n: u32, rate: u32): (q: u32)
    requires rate > 0
  {
    Quotient(n, rate);
    n / rate
  }

  // ---------------------------------------------------------------- set and get as functions

  /** The offset that setting the time to t leaves behind, at counter value n. */
  function Offset(t: Timeval, n: u32, rate: u32): Timeval
    requires rate > 0
  {
    Timeval(Signed(t.sec - Seconds(n, rate)), Signed(t.usec - Narrow(n, rate)))
  }

  /** The sum that reading the time starts from, at counter value n. */
  function Raw(offset: Timeval, n: u32, rate: u32): Timeval
    requires rate > 0
  {
    Timeval(Signed(offset.sec + Seconds(n, rate)), Signed(offset.usec + Wide(n, rate)))
  }

  /** The same time with its microseconds below a million, the seconds kept in 32 bits;
      negative times become zero if their microseconds are negative. */
  function Normalised(t: Timeval): (s32, int) {
    if t.usec < 0 && Micros(t) < 0 then (0, 0) else (Signed(Micros(t) / US), Micros(t) % US)
  }

  /** What a reader is told at counter value n, in microseconds. */
  function Told(offset: Timeval, n: u32, rate: u32): int
    requires rate > 0
  {
    var r := Normalised(Raw(offset, n, rate));
    r.0 * US + r.1
  }

  // ---------------------------------------------------------------- the facility

  class Clock {
    var resettime: Timeval
    var timezone: Timezone
    var nticks: u32
    var rate: u32

    constructor ()
      ensures resettime == Timeval(0, 0) && timezone == Timezone(0, 0) && nticks == 0 && rate == 0
    {
      resettime, timezone, nticks, rate := Timeval(0, 0), Timezone(0, 0), 0, 0;
    }

    /** ALT_SETTIMEOFDAY.  Returns the status, and the error number if it is -1. */
    method Set(t: Timeval, tz: Timezone) returns (rc: int, errno: int)
      modifies this`resettime, this`timezone
      ensures rate > 0 ==> rc == 0 && resettime == Offset(t, nticks, rate) && timezone == tz
      ensures rate == 0 ==> rc == -1 && errno == ENOSYS && resettime == old(resettime) && timezone == old(timezone)
    {
      if rate > 0 {
        resettime := Timeval(Signed(t.sec - Seconds(nticks, rate)), Signed(t.usec - Narrow(nticks, rate)));
        timezone := tz;
        return 0, 0;
      }
      return -1, ENOSYS;
    }

    /** ALT_GETTIMEOFDAY */
    method Get() returns (rc: int, t: Option<Timeval>, tz: Option<Timezone>)
      ensures rate > 0 ==>
                rc == 0 && t.Some? && (t.value.sec, t.value.usec) == Normalised(Raw(resettime, nticks, rate))
      ensures rate > 0 ==> tz == Some(timezone)
      ensures rate == 0 ==> rc == -ENOTSUP && t == None && tz == None
    {
      hide Signed, Wide, Seconds;
      if rate > 0 {
        var sec: s32 := Signed(resettime.sec + Seconds(nticks, rate));
        var usec: s32 := Signed(resettime.usec + Wide(nticks, rate));
        ghost var raw := Timeval(sec, usec);
        while usec < 0
          invariant raw.usec >= 0 ==> sec == raw.sec && usec == raw.usec
          invariant sec * US + usec == Micros(raw) || (raw.usec < 0 && Micros(raw) < 0 && sec == usec == 0)
          invariant raw.usec < 0 ==> usec < US && (usec < 0 || sec >= 0)
        {
          if sec <= 0 {
            sec, usec := 0, 0;
            break;
          } else {
            sec, usec := sec - 1, usec + US;
          }
        }
        ghost var total := sec * US + usec;
        Quotients(sec, usec);
        while usec >= US
          invariant usec >= 0 && Signed(sec + usec / US) == Signed(total / US) && usec % US == total % US
        {
          Carry(sec, usec);
          sec, usec := Signed(sec + 1), usec - US;
        }
        SignedInRange(sec);
        SignedInRange(0);
        return 0, Some(Timeval(sec, usec)), Some(timezone);
      }
      return -ENOTSUP, None, None;
    }
  }

  lemma Quotients(sec: int, usec: int)
    requires usec >= 0
    ensures (sec * US + usec) / US == sec + usec / US && (sec * US + usec) % US == usec % US
  {
  }

  lemma Carry(sec: int, usec: int)
    requires usec >= US
    ensures Signed(Signed(sec + 1) + (usec - US) / US) == Signed(sec + usec / US) && (usec - US) % US == usec % US
  {
    SignedAdds(sec + 1, (usec - US) / US);
  }

  // ---------------------------------------------------------------- arithmetic

  lemma Quotient(v: nat, p: nat)
    requires p > 0
    ensures v == (v / p) * p + v % p && 0 <= v % p < p && 0 <= v / p <= v
  {
    assert (v / p) * p >= v / p by { Scale(1, p, v / p); }
  }

  lemma SignedInRange(x: int)
    requires -0x8000_0000 <= x < 0x8000_0000
    ensures Signed(x) == x
  {
  }

  lemma SignedAdds(x: int, y: int)
    ensures Signed(Signed(x) + y) == Signed(x + y)
  {
    assert Signed(x) % WORD == x % WORD;
    assert (Signed(x) + y - (x + y)) % WORD == 0;
  }

  lemma Remainder(x: nat, d: nat, r: nat, m: nat)
    requires m > 0 && x == d * m + r && r < m
    ensures x % m == r && x / m == d
  {
    Quotient(x, m);
    assert (d - x / m) * m == x % m - r;
    Apart(d - x / m, m, x % m - r);
  }

  /** n ticks are whole seconds and a part of one, when the rate divides a million. */
  lemma WholeSeconds(n: u32, rate: u32)
    requires rate > 0 && US % rate == 0
    ensures n * PerTick(rate) == Seconds(n, rate) * US + Wide(n, rate)
  {
    var k := PerTick(rate);
    Quotient(US, rate);
    Quotient(n, rate);
    var a, r := n / rate, n % rate;
    Regroup(a, rate, k, r);
    assert 0 <= r * k < US by { Scale(r, rate - 1, k); Scale(0, r, k); assert k * (rate - 1) == US - k; assert k > 0; }
    Remainder(n * k, a, r * k, US);
  }

  lemma Regroup(a: nat, rate: nat, k: nat, r: nat)
    ensures (a * rate + r) * k == a * (rate * k) + r * k
  {
  }

  /** Losing the upper half of a product is harmless to its remainder modulo a million in one
      case out of 15625. */
  lemma LostTurns(x: nat)
    ensures x % US == x % WORD % US <==> x / WORD % 15625 == 0
  {
    var q, r := x / WORD, x % WORD;
    if x % US == r % US {
      LossIsWhole(q, x / US - r / US);
    }
    if q % 15625 == 0 {
      HarmlessLoss(x, q / 15625, r);
    }
  }

  // 2^32 is 64 * 2^26 and a million is 64 * 15625, and 12659 * 2^26 = 1 + 54369991 * 15625.
  lemma LossIsWhole(q: int, m: int)
    requires q * WORD == m * US
    ensures q % 15625 == 0
  {
    var k := 12659 * m - 54369991 * q;
    assert q == 15625 * k;
  }

  lemma HarmlessLoss(x: nat, s: nat, r: nat)
    requires x == s * 15625 * WORD + r
    ensures x % US == r % US
  {
    assert x == s * 67108864 * US + r;
  }

  // ---------------------------------------------------------------- what a reader is told

  /** Every time a reader gets has its microseconds below a million, and a time that is not
      negative is not changed by carrying. */
  lemma ReadersGetNormalTimes(offset: Timeval, n: u32, rate: u32)
    requires rate > 0
    ensures var r := Normalised(Raw(offset, n, rate));
            && 0 <= r.1 < US
            && (0 <= Micros(Raw(offset, n, rate)) / US <= INT_MAX ==>
                  Told(offset, n, rate) == Micros(Raw(offset, n, rate)) && r.0 >= 0)
  {
    hide Raw, Normalised;
    NormalisedIs(Raw(offset, n, rate));
  }

  lemma NormalisedIs(raw: Timeval)
    ensures var r := Normalised(raw);
            && 0 <= r.1 < US
            && (0 <= Micros(raw) / US <= INT_MAX ==> r == (Micros(raw) / US, Micros(raw) % US))
  {
    if 0 <= Micros(raw) / US <= INT_MAX { SignedInRange(Micros(raw) / US); }
  }

  /** What is left of the time set at tick n when it is read at tick m: the elapsed ticks,
      and an error that was made while setting. */
  lemma RawTime(t: Timeval, n: u32, m: u32, rate: u32)
    requires rate > 0 && US % rate == 0 && Normal(t) && n <= m
    requires (Micros(t) + Elapsed(n, m, rate)) / US < INT_MAX
    ensures Micros(Raw(Offset(t, n, rate), m, rate)) ==
            Micros(t) + Elapsed(n, m, rate) + Wide(n, rate) - Narrow(n, rate)
    ensures Raw(Offset(t, n, rate), m, rate).sec >= 0
  {
    hide Wide, Narrow, Seconds, PerTick, Signed;
    WholeSeconds(n, rate);
    WholeSeconds(m, rate);
    Difference(n, m, PerTick(rate));
    SecondsGrow(n, m, rate);
    var sec := t.sec - Seconds(n, rate) + Seconds(m, rate);
    assert Micros(t) + Elapsed(n, m, rate) == sec * US + (t.usec + Wide(m, rate) - Wide(n, rate));
    SecondsFit(sec, t.usec + Wide(m, rate) - Wide(n, rate));
    RawOf(t, n, m, rate);
  }

  /** The raw reading at tick m of a time set at tick n, at any rate. */
  lemma RawOf(t: Timeval, n: u32, m: u32, rate: u32)
    requires rate > 0 && Normal(t) && n <= m && t.sec - Seconds(n, rate) + Seconds(m, rate) <= INT_MAX
    ensures var sec := t.sec - Seconds(n, rate) + Seconds(m, rate);
            && sec >= 0 && t.usec - Narrow(n, rate) + Wide(m, rate) < 2 * US
            && Raw(Offset(t, n, rate), m, rate) == Timeval(sec, t.usec - Narrow(n, rate) + Wide(m, rate))
  {
    hide Wide, Narrow, Seconds, PerTick, Signed;
    SecondsGrow(n, m, rate);
    SignedInRange(t.sec - Seconds(n, rate) + Seconds(m, rate));
    SignedAdds(t.sec - Seconds(n, rate), Seconds(m, rate));
    SignedInRange(t.usec - Narrow(n, rate));
    SignedInRange(t.usec - Narrow(n, rate) + Wide(m, rate));
  }

  /** The microseconds between two ticks. */
  function Elapsed(n: u32, m: u32, rate: u32): int
    requires rate > 0 && n <= m
  {
    (m - n) * PerTick(rate)
  }

  lemma Difference(n: nat, m: nat, k: nat)
    requires n <= m
    ensures (m - n) * k == m * k - n * k >= 0
  {
    Scale(0, m - n, k);
  }

  lemma SecondsGrow(n: u32, m: u32, rate: u32)
    requires rate > 0 && n <= m
    ensures Seconds(n, rate) <= Seconds(m, rate)
  {
    Quotient(n, rate);
    Quotient(m, rate);
    QuotientGrows(n, n / rate, n % rate, m, m / rate, m % rate, rate);
  }

  lemma QuotientGrows(n: nat, a: nat, r: nat, m: nat, b: nat, t: nat, rate: nat)
    requires n == a * rate + r && m == b * rate + t && r < rate && t < rate && n <= m
    ensures a <= b
  {
    if b < a { Scale(b + 1, a, rate); }
  }

  lemma SecondsFit(sec: int, usec: int)
    requires -US < usec < 2 * US && 0 <= sec * US + usec && (sec * US + usec) / US < INT_MAX
    ensures -1 <= sec <= INT_MAX
  {
  }

  /** A time set at tick n is read back exactly at every later tick m, if and only if the
      upper half of the 32-bit product at tick n is lost without harm (in the first 2^32
      microseconds it is zero), or the error makes the zero time negative and it is clamped. */
  lemma SetTimeIsReadBackExactlyWhen(t: Timeval, n: u32, m: u32, rate: u32)
    requires rate > 0 && US % rate == 0 && Normal(t) && n <= m
    requires (Micros(t) + Elapsed(n, m, rate)) / US < INT_MAX
    ensures var now := Micros(t) + Elapsed(n, m, rate);
            Told(Offset(t, n, rate), m, rate) == now <==>
            Overflows(n, rate) % 15625 == 0 || (now == 0 && Wide(n, rate) < Narrow(n, rate))
  {
    hide Raw, Offset, PerTick, Normalised, Elapsed, Wide, Narrow, Overflows;
    RawTime(t, n, m, rate);
    ElapsedIsSome(n, m, rate);
    WideIsNarrowWhen(n, rate);
    ClampOnly(Raw(Offset(t, n, rate), m, rate));
  }

  /** How often the product of ticks and microseconds per tick has come round in 32 bits. */
  function Overflows(n: u32, rate: u32): int
    requires rate > 0
  {
    n * PerTick(rate) / WORD
  }

  lemma WideIsNarrowWhen(n: u32, rate: u32)
    requires rate > 0
    ensures Wide(n, rate) == Narrow(n, rate) <==> Overflows(n, rate) % 15625 == 0
  {
    hide PerTick;
    LostTurns(n * PerTick(rate));
  }

  lemma ElapsedIsSome(n: u32, m: u32, rate: u32)
    requires rate > 0 && n <= m
    ensures Elapsed(n, m, rate) >= 0
  {
    Difference(n, m, PerTick(rate));
  }

  lemma ClampOnly(raw: Timeval)
    requires Micros(raw) / US <= INT_MAX
    ensures var r := Normalised(raw);
            r.0 * US + r.1 == if raw.usec < 0 && Micros(raw) < 0 then 0 else Micros(raw)
  {
  }

  /** The reading at any rate, in full: a time set at tick n and read at tick m, with the products
      as the source cuts them off; what would be negative is zero. */
  lemma ReadingIs(t: Timeval, n: u32, m: u32, rate: u32)
    requires rate > 0 && Normal(t) && n <= m && t.sec - n / rate + m / rate < INT_MAX
    ensures var total := (t.sec - n / rate + m / rate) * 1_000_000
                         + t.usec - n * (1_000_000 / rate) % 0x1_0000_0000 % 1_000_000
                         + m * (1_000_000 / rate) % 1_000_000;
            Told(Offset(t, n, rate), m, rate) == if total < 0 then 0 else total
  {
    PartsOfReading(n, rate);
    PartsOfReading(m, rate);
    hide Raw, Offset, PerTick, Normalised, Wide, Narrow, Seconds;
    RawOf(t, n, m, rate);
    ClampOnly(Raw(Offset(t, n, rate), m, rate));
  }

  lemma PartsOfReading(n: u32, rate: u32)
    requires rate > 0
    ensures Seconds(n, rate) == n / rate && Wide(n, rate) == n * (1_000_000 / rate) % 1_000_000
    ensures Narrow(n, rate) == n * (1_000_000 / rate) % 0x1_0000_0000 % 1_000_000
  {
  }

  /** In the first 2^32 microseconds after the counter was zero setting is always exact. */
  lemma EarlySettingIsExact(t: Timeval, n: u32, m: u32, rate: u32)
    requires rate > 0 && US % rate == 0 && Normal(t) && n <= m && n * PerTick(rate) < WORD
    requires (Micros(t) + Elapsed(n, m, rate)) / US < INT_MAX
    ensures Told(Offset(t, n, rate), m, rate) == Micros(t) + Elapsed(n, m, rate)
  {
    hide Told, Offset, PerTick, Elapsed;
    SetTimeIsReadBackExactlyWhen(t, n, m, rate);
  }

  /** At a thousand ticks a second, 72 minutes after the start, a reader who asks at once is
      told almost a second too much. */
  lemma LateSettingIsOff()
    ensures Told(Offset(Timeval(100, 0), 4294968, 1000), 4294968, 1000) == 100_967_296
  {
    hide Wide, Narrow, Seconds, PerTick, Normalised, Offset, Raw;
    LateProduct();
    RawTime(Timeval(100, 0), 4294968, 4294968, 1000);
    ClampOnly(Raw(Offset(Timeval(100, 0), 4294968, 1000), 4294968, 1000));
  }

  lemma LateProduct()
    ensures Wide(4294968, 1000) == 968_000 && Narrow(4294968, 1000) == 704
  {
    assert PerTick(1000) == 1000;
  }

  // ---------------------------------------------------------------- the clock runs forwards

  /** Microseconds since the counter was zero, before any time is set. */
  function SinceBoot(n: u32, rate: u32): int
    requires rate > 0
  {
    Seconds(n, rate) * US + Wide(n, rate)
  }

  /** This is what a reader is told while no time has been set. */
  lemma BootReading(n: u32, rate: u32)
    requires rate > 0 && Seconds(n, rate) <= INT_MAX
    ensures Told(Timeval(0, 0), n, rate) == SinceBoot(n, rate)
  {
    hide Wide, Seconds, PerTick, Normalised;
    SignedInRange(Seconds(n, rate));
    SignedInRange(Wide(n, rate));
    ClampOnly(Timeval(Seconds(n, rate), Wide(n, rate)));
  }

  const ZERO := Timeval(0, 0)

  /** While the counter does not wrap and no time is set, the reading never goes backwards
      from one tick to the next, if and only if the tick rate divides a million or exceeds it
      and is not one a second, at which the seconds come to 2^31. */
  lemma NeverBackwardsExactlyWhen(rate: u32)
    requires rate > 0
    ensures (forall n: u32 | n < WORD - 1 :: Told(ZERO, n, rate) <= Told(ZERO, n + 1, rate))
            <==> rate > 1 && (rate > US || US % rate == 0)
  {
    hide SinceBoot, Told;
    if rate == 1 {
      OneTickASecond();
      assert Told(ZERO, 0x7FFF_FFFF, rate) > Told(ZERO, 0x7FFF_FFFF + 1, rate);
    } else if rate > US || US % rate == 0 {
      forall n: u32 | n < WORD - 1 ensures Told(ZERO, n, rate) <= Told(ZERO, n + 1, rate) {
        Forwards(n, rate);
        FastClock(n, rate);
        FastClock(n + 1, rate);
      }
    } else {
      var n := Backwards(rate);
      FastClock(n, rate);
      FastClock(n + 1, rate);
      assert Told(ZERO, n, rate) > Told(ZERO, n + 1, rate);
    }
  }

  /** From two ticks a second on, the counter wraps before the seconds overflow. */
  lemma FastClock(n: u32, rate: u32)
    requires rate > 1
    ensures Told(ZERO, n, rate) == SinceBoot(n, rate) && Seconds(n, rate) <= INT_MAX
  {
    hide Told, SinceBoot;
    HalfAtMost(n, rate);
    BootReading(n, rate);
  }

  lemma HalfAtMost(n: u32, rate: u32)
    requires rate > 1
    ensures Seconds(n, rate) <= INT_MAX
  {
    Quotient(n, rate);
    Half(n, n / rate, n % rate, rate);
  }

  lemma Half(n: nat, q: nat, r: nat, rate: nat)
    requires n == q * rate + r && rate >= 2
    ensures 2 * q <= n
  {
    Scale(2, rate, q);
  }

  lemma OneTickASecond()
    ensures Told(ZERO, 0x7FFF_FFFF, 1) > 0 > Told(ZERO, 0x8000_0000, 1)
    ensures Told(ZERO, WORD - 1, 1) < 0
  {
    hide Told;
    ReadAtOneTick(0x7FFF_FFFF);
    ReadAtOneTick(0x8000_0000);
    ReadAtOneTick(WORD - 1);
  }

  lemma ReadAtOneTick(n: u32)
    ensures Told(ZERO, n, 1) == Signed(n) * US
  {
    hide Wide, Seconds, Signed;
    SlowTick(n);
    SignedInRange(0);
    Quotients(Signed(n), 0);
    SignedInRange(Signed(n));
  }

  lemma SlowTick(n: u32)
    ensures Seconds(n, 1) == n && Wide(n, 1) == 0
  {
    assert PerTick(1) == US;
  }

  /** When the counter wraps, the reading jumps back to zero, except at one tick a second,
      where it is negative by then. */
  lemma CounterWrapGoesBackExactlyWhen(rate: u32)
    requires rate > 0
    ensures Told(ZERO, WORD - 1, rate) > Told(ZERO, 0, rate) <==> rate > 1
  {
    hide Told, Wide;
    BootReading(0, rate);
    assert Wide(0, rate) == 0 by { NoTicks(rate); }
    if rate > 1 {
      FastClock(WORD - 1, rate);
      Quotient(WORD - 1, rate);
      Scale(1, rate, 1);
      if Seconds(WORD - 1, rate) == 0 { assert false; }
    } else {
      OneTickASecond();
    }
  }

  lemma NoTicks(rate: u32)
    requires rate > 0
    ensures Wide(0, rate) == 0 && Seconds(0, rate) == 0
  {
  }

  /** The same after any setting: with the seconds in range, the reading never goes backwards
      whatever normal time was set and whenever, if and only if the tick rate divides a million
      or exceeds it. */
  lemma SetClockNeverBackwardsExactlyWhen(rate: u32)
    requires rate > 0
    ensures (forall t: Timeval, n: u32, m: u32 |
               Normal(t) && n <= m < WORD - 1 && t.sec - Seconds(n, rate) + Seconds(m + 1, rate) < INT_MAX ::
               Told(Offset(t, n, rate), m, rate) <= Told(Offset(t, n, rate), m + 1, rate))
            <==> rate > US || US % rate == 0
  {
    hide SinceBoot, Told, Offset, Seconds;
    if rate > US || US % rate == 0 {
      forall t: Timeval, n: u32, m: u32 |
        Normal(t) && n <= m < WORD - 1 && t.sec - Seconds(n, rate) + Seconds(m + 1, rate) < INT_MAX
        ensures Told(Offset(t, n, rate), m, rate) <= Told(Offset(t, n, rate), m + 1, rate)
      {
        Forwards(m, rate);
        ToldAfterSetting(t, n, m, rate);
      }
    } else {
      var m := Backwards(rate);
      NothingSet(rate);
      FastClock(m, rate);
      FastClock(m + 1, rate);
      assert Normal(ZERO) && Seconds(0, rate) == 0 && Offset(ZERO, 0, rate) == ZERO;
      assert Told(Offset(ZERO, 0, rate), m, rate) > Told(Offset(ZERO, 0, rate), m + 1, rate);
    }
  }

  lemma NothingSet(rate: u32)
    requires rate > 0
    ensures Seconds(0, rate) == 0 && Offset(ZERO, 0, rate) == ZERO
  {
  }

  lemma ToldAfterSetting(t: Timeval, n: u32, m: u32, rate: u32)
    requires rate > 0 && Normal(t) && n <= m < WORD - 1
    requires t.sec - Seconds(n, rate) + Seconds(m + 1, rate) < INT_MAX
    requires SinceBoot(m, rate) <= SinceBoot(m + 1, rate)
    ensures Told(Offset(t, n, rate), m, rate) <= Told(Offset(t, n, rate), m + 1, rate)
  {
    hide Wide, Narrow, Seconds, PerTick, Offset, Raw, Normalised;
    SecondsGrow(m, m + 1, rate);
    RawOf(t, n, m, rate);
    RawOf(t, n, m + 1, rate);
    ClampOnly(Raw(Offset(t, n, rate), m, rate));
    ClampOnly(Raw(Offset(t, n, rate), m + 1, rate));
  }

  lemma Forwards(n: u32, rate: u32)
    requires rate > 0 && n < WORD - 1 && (rate > US || US % rate == 0)
    ensures SinceBoot(n, rate) <= SinceBoot(n + 1, rate)
  {
    var k := PerTick(rate);
    Quotient(US, rate);
    if rate > US {
      assert k == 0 by { if k > 0 { Scale(1, k, rate); } }
      Quotient(n, rate);
      Quotient(n + 1, rate);
      if (n + 1) / rate < n / rate { Scale((n + 1) / rate + 1, n / rate, rate); }
    } else {
      WholeSeconds(n, rate);
      WholeSeconds(n + 1, rate);
      assert (n + 1) * k == n * k + k;
    }
  }

  /** The tick at which the microseconds come round while the second stays the same. */
  lemma Backwards(rate: u32) returns (n: u32)
    requires 0 < rate < US && US % rate != 0
    ensures n < WORD - 1 && SinceBoot(n, rate) > SinceBoot(n + 1, rate) && Seconds(n + 1, rate) == 1
  {
    var k := PerTick(rate);
    var r := US % rate;
    Quotient(US, rate);
    // after one second the microseconds stand at US - r, and come round c ticks later
    var c := (r - 1) / k + 1;
    Quotient(r - 1, k);
    assert (c - 1) * k < r <= c * k by { assert c * k == (c - 1) * k + k; }
    assert 1 <= c <= r by { Quotient(r - 1, k); }
    n := rate + c - 1;
    Remainder(n, 1, c - 1, rate);
    Remainder(n + 1, 1, c, rate);
    assert n * k == rate * k + (c - 1) * k;
    assert (n + 1) * k == rate * k + c * k;
    Remainder(n * k, 0, US - r + (c - 1) * k, US);
    Remainder((n + 1) * k, 1, c * k - r, US);
  }
}
