// Positional notation, and the two ways in which the HAL's printers generate digits: by
// dividing by descending powers of the base, and by shifting nibbles out.
module Digits {
  import opened Words

  function Pow(base: nat, e: nat): nat {
    if e == 0 then 1 else base * Pow(base, e - 1)
  }

  /** The digits of v, most significant first, without superfluous ones. */
  ghost function Numeral(v: nat, base: nat): (ds: seq<nat>)
    requires base >= 2
    ensures ds != [] && (v > 0 ==> ds[0] != 0) && (v == 0 ==> ds == [0])
    decreases v
  {
    if v < base then [v]
    else
      DivDown(v, base);
      Numeral(v / base, base) + [v % base]
  }

  lemma DivDown(v: nat, base: nat)
    requires v >= base >= 2
    ensures 1 <= v / base < v
  {
  }

  lemma {:induction false} NumeralDigits(v: nat, base: nat)
    requires base >= 2
    ensures forall i :: 0 <= i < |Numeral(v, base)| ==> Numeral(v, base)[i] < base
    decreases v
  {
    if v >= base {
      DivDown(v, base);
      NumeralDigits(v / base, base);
    }
  }

  /** The number that a row of digits stands for. */
  ghost function Value(ds: seq<nat>, base: nat): nat {
    if ds == [] then 0 else Value(ds[..|ds| - 1], base) * base + ds[|ds| - 1]
  }

  lemma ValueSnoc(front: seq<nat>, d: nat, base: nat)
    ensures Value(front + [d], base) == Value(front, base) * base + d
  {
    assert (front + [d])[..|front|] == front;
  }

  lemma Division(v: nat, base: nat)
    requires base >= 1
    ensures v == (v / base) * base + v % base && v % base < base
  {
  }

  lemma {:induction false} NumeralReadsBack(v: nat, base: nat)
    requires base >= 2
    ensures Value(Numeral(v, base), base) == v
    decreases v
  {
    hide Value;
    if v < base {
      ValueSnoc([], v, base);
      assert [] + [v] == [v];
      ValueOfNone(base);
    } else {
      DivDown(v, base);
      NumeralReadsBack(v / base, base);
      ValueSnoc(Numeral(v / base, base), v % base, base);
      Division(v, base);
    }
  }

  lemma ValueOfNone(base: nat)
    ensures Value([], base) == 0
  {
  }

  /** The numeral is the only row of digits for v without a superfluous zero in front. */
  lemma {:induction false} NumeralIsShortest(ds: seq<nat>, base: nat)
    requires base >= 2 && ds != [] && (forall d <- ds :: d < base) && (|ds| > 1 ==> ds[0] != 0)
    ensures Numeral(Value(ds, base), base) == ds
  {
    hide Value;
    var front, d := ds[..|ds| - 1], ds[|ds| - 1];
    assert ds == front + [d];
    ValueSnoc(front, d, base);
    assert d in ds;
    if |ds| == 1 {
      assert front == [];
      ValueOfNone(base);
    } else {
      assert forall x <- front :: x in ds;
      NumeralIsShortest(front, base);
      PositiveValue(front, base);
      DivideOff(Value(front, base), d, base);
    }
  }

  lemma {:induction false} PositiveValue(ds: seq<nat>, base: nat)
    requires base >= 2 && ds != [] && ds[0] != 0
    ensures Value(ds, base) >= 1
  {
    if |ds| > 1 {
      PositiveValue(ds[..|ds| - 1], base);
      assert Value(ds[..|ds| - 1], base) * base >= 1;
    }
  }

  lemma DivideOff(q: nat, d: nat, base: nat)
    requires base >= 2 && d < base
    ensures (q * base + d) / base == q && (q * base + d) % base == d
    ensures q >= 1 ==> q * base + d >= base
  {
    var x := q * base + d;
    assert (x / base - q) * base == d - x % base;
    Apart(x / base - q, base, d - x % base);
  }

  // ---------------------------------------------------------------- by descending powers

  /** k digits of v, from the power base^(k-1) downwards. */
  ghost function ByPowers(v: nat, base: nat, k: nat): seq<nat>
    requires base >= 2
  {
    if k == 0 then []
    else
      PowPositive(base, k - 1);
      [v / Pow(base, k - 1)] + ByPowers(v % Pow(base, k - 1), base, k - 1)
  }

  lemma {:induction false} PowPositive(base: nat, e: nat)
    requires base >= 1
    ensures Pow(base, e) >= 1
  {
    if e > 0 { PowPositive(base, e - 1); }
  }

  /** Dividing by base * q at once, or by base and then by q. */
  lemma TwoSteps(v: nat, base: nat, q: nat)
    requires base >= 2 && q >= 1
    ensures base * q >= 1
    ensures v / (base * q) == (v / base) / q
    ensures (v % (base * q)) / base == (v / base) % q
    ensures (v % (base * q)) % base == v % base
  {
    var a, r := v / base, v % base;
    var x, s := a / q, a % q;
    Division(v, base);
    Division(a, q);
    Compose(v, base, q, x, s, r);
    DivideOff(s, r, base);
  }

  lemma Compose(v: nat, base: nat, q: nat, x: nat, s: nat, r: nat)
    requires base >= 2 && q >= 1 && v == (x * q + s) * base + r && s < q && r < base
    ensures base * q >= 1 && v / (base * q) == x && v % (base * q) == s * base + r
  {
    Distribute(x, q, s, base);
    Scale(s + 1, q, base);
    Scale(1, q, base);
    var m := base * q;
    assert s * base + r < m && m >= 2;
    DivideOff(x, s * base + r, m);
  }

  lemma Distribute(x: nat, q: nat, s: nat, base: nat)
    ensures (x * q + s) * base == x * (base * q) + s * base
  {
  }

  /** The last digit is the remainder, whichever way the others are found. */
  lemma {:induction false} ByPowersSnoc(v: nat, base: nat, k: nat)
    requires base >= 2 && k >= 1 && v < Pow(base, k)
    ensures ByPowers(v, base, k) == ByPowers(v / base, base, k - 1) + [v % base]
    decreases k
  {
    hide Pow, ByPowers, Top, Rest;
    Front(v, base, k);
    if k == 1 {
      Powers(base, k);
      OneDigit(v, base);
    } else {
      TopAndRest(v, base, k);
      ByPowersSnoc(Rest(v, base, k), base, k - 1);
      Front(v / base, base, k - 1);
    }
  }

  /** The digit in front of the last k - 1, and what these stand for. */
  ghost function Top(v: nat, base: nat, k: nat): nat
    requires base >= 2 && k >= 1
  {
    PowPositive(base, k - 1);
    v / Pow(base, k - 1)
  }

  ghost function Rest(v: nat, base: nat, k: nat): nat
    requires base >= 2 && k >= 1
  {
    PowPositive(base, k - 1);
    v % Pow(base, k - 1)
  }

  lemma Front(v: nat, base: nat, k: nat)
    requires base >= 2 && k >= 1
    ensures ByPowers(v, base, k) == [Top(v, base, k)] + ByPowers(Rest(v, base, k), base, k - 1)
  {
    hide Pow;
  }

  lemma TopAndRest(v: nat, base: nat, k: nat)
    requires base >= 2 && k >= 2
    ensures Rest(v, base, k) < Pow(base, k - 1)
    ensures Top(v, base, k) == Top(v / base, base, k - 1)
    ensures Rest(v, base, k) / base == Rest(v / base, base, k - 1)
    ensures Rest(v, base, k) % base == v % base
  {
    hide Pow;
    Powers(base, k - 1);
    PowPositive(base, k - 1);
    TwoSteps(v, base, Pow(base, k - 2));
    Division(v, Pow(base, k - 1));
  }

  lemma OneDigit(v: nat, base: nat)
    requires base >= 2 && v < base
    ensures Top(v, base, 1) == v == v % base
    ensures ByPowers(Rest(v, base, 1), base, 0) == [] == ByPowers(v / base, base, 0)
  {
  }

  /** Descending powers give the numeral, when the first power is the largest one that fits. */
  lemma {:induction false} ByPowersIsNumeral(v: nat, base: nat, k: nat)
    requires base >= 2 && k >= 1 && v < Pow(base, k) && (k > 1 ==> Pow(base, k - 1) <= v)
    ensures ByPowers(v, base, k) == Numeral(v, base)
    decreases k
  {
    hide ByPowers, Pow, Numeral;
    ByPowersSnoc(v, base, k);
    NumeralStep(v, base);
    if k > 1 {
      QuotientRange(v, base, k);
      ByPowersIsNumeral(v / base, base, k - 1);
    } else {
      Powers(base, 1);
      NoDigits(v / base, base);
    }
  }

  lemma NumeralStep(v: nat, base: nat)
    requires base >= 2
    ensures v < base ==> Numeral(v, base) == [v] && v % base == v
    ensures v >= base ==> Numeral(v, base) == Numeral(v / base, base) + [v % base]
  {
  }

  lemma QuotientRange(v: nat, base: nat, k: nat)
    requires base >= 2 && k > 1 && Pow(base, k - 1) <= v < Pow(base, k)
    ensures v >= base && Pow(base, k - 2) <= v / base < Pow(base, k - 1)
  {
    hide Pow;
    Powers(base, k);
    Powers(base, k - 1);
    Scale(1, Pow(base, k - 2), base);
    QuotientBounds(v, base, Pow(base, k - 2), Pow(base, k - 1));
  }

  lemma Powers(base: nat, k: nat)
    requires base >= 2 && k >= 1
    ensures Pow(base, k) == base * Pow(base, k - 1) && Pow(base, k - 1) >= 1 && Pow(base, 0) == 1
  {
    PowPositive(base, k - 1);
  }

  lemma NoDigits(v: nat, base: nat)
    requires base >= 2
    ensures ByPowers(v, base, 0) == []
  {
  }

  lemma QuotientBounds(v: nat, base: nat, q: nat, p: nat)
    requires base >= 2 && p == base * q && p <= v < base * p
    ensures q <= v / base < p
  {
    Division(v, base);
    if v / base < q {
      Scale(v / base + 1, q, base);
    } else if v / base >= p {
      Scale(p, v / base, base);
    }
  }

  // ---------------------------------------------------------------- by nibbles

  /** Nibble number k of v: (v & (0xF << 4k)) >> 4k, in arithmetic. */
  function Nibble(v: nat, k: nat): (d: nat)
    ensures d < 16
  {
    PowPositive(16, k);
    v / Pow(16, k) % 16
  }

  lemma NibbleStep(v: nat, k: nat)
    ensures Nibble(v, k + 1) == Nibble(v / 16, k)
    ensures Nibble(v, 0) == v % 16
  {
    PowPositive(16, k);
    TwoSteps(v, 16, Pow(16, k));
    assert Pow(16, 0) == 1;
  }

  /** The nibbles k-1 .. 0. */
  ghost function Nibbles(v: nat, k: nat): seq<nat> {
    if k == 0 then [] else [Nibble(v, k - 1)] + Nibbles(v, k - 1)
  }

  lemma {:induction false} NibblesSnoc(v: nat, k: nat)
    requires k >= 1
    ensures Nibbles(v, k) == Nibbles(v / 16, k - 1) + [v % 16]
  {
    hide Nibble;
    NibbleStep(v, 0);
    if k > 1 {
      NibbleStep(v, k - 2);
      NibblesSnoc(v, k - 1);
    }
  }

  /** Starting at the highest nibble that is not zero, the nibbles are the numeral. */
  lemma {:induction false} NibblesAreNumeral(v: nat, k: nat)
    requires k >= 1 && Nibble(v, k - 1) != 0 && v < Pow(16, k)
    ensures Nibbles(v, k) == Numeral(v, 16)
    decreases k
  {
    hide Nibble;
    NibblesSnoc(v, k);
    NibbleStep(v, 0);
    if k > 1 {
      NibbleStep(v, k - 2);
      if v < 16 { NibbleOfZero(k - 2); }
      NibblesAreNumeral(v / 16, k - 1);
    } else {
      assert Pow(16, 0) == 1;
    }
  }

  lemma NibbleOfZero(k: nat)
    ensures Nibble(0, k) == 0
  {
    PowPositive(16, k);
  }

  lemma {:induction false} ZeroNibbles(v: nat, k: nat)
    requires v < Pow(16, k + 1) && Nibble(v, k) == 0
    ensures v < Pow(16, k)
  {
    hide Nibble;
    NibbleStep(v, 0);
    if k == 0 {
      assert Pow(16, 0) == 1;
    } else {
      NibbleStep(v, k - 1);
      ZeroNibbles(v / 16, k - 1);
    }
  }
}
