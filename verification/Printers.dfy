// The two formatters in the form they have: loops over the format that send characters to a
// port one by one.
module Printers {
  import opened Digits
  import opened PrintfModel
  import opened Words

  class Port {
    var text: string   // everything sent so far

    constructor ()
      ensures text == ""
    {
      text := "";
    }

    /** alt_log_txchar, alt_putchar */
    method TxChar(c: char)
      modifies this
      ensures text == old(text) + [c]
    {
      text := text + [c];
    }

    /** alt_log_repchar */
    method RepChar(c: char, r: int)
      modifies this
      ensures text == old(text) + Rep(c, r)
    {
      var left := r;
      while left > 0
        invariant text + Rep(c, left) == old(text) + Rep(c, r)
      {
        assert text + [c] + Rep(c, left - 1) == text + Rep(c, left);
        TxChar(c);
        left := left - 1;
      }
    }

    /** Send a C string. */
    method PutString(s: string)
      modifies this
      ensures text == old(text) + s
    {
      var i := 0;
      while i < |s|
        invariant i <= |s| && text == old(text) + s[..i]
      {
        TxChar(s[i]);
        i := i + 1;
      }
    }

    /** The digit at place value p, what is left of v, and the next place value. */
    static method Split(v: u32, p: u32, base: u32) returns (d: u32, r: u32, q: u32)
      requires p > 0 && base >= 2
      ensures d == v / p && r == v % p && q == p / base
    {
      QuotientFits(v, p);
      QuotientFits(p, base);
      d, r, q := v / p, v % p, p / base;
    }

    /** Send v digit by digit, by dividing by descending powers of the base from p on. */
    method PrintDigits(value: u32, first: u32, base: u32, upper: bool, ghost digits: nat)
      requires 2 <= base <= 16 && digits >= 1 && first == Pow(base, digits - 1) && value < Pow(base, digits)
      modifies this
      ensures text == old(text) + PowersText(value, base, digits, upper)
    {
      hide Pow, PowersText, DigitChar;
      PowPositive(base, digits - 1);
      var v: u32, p: u32 := value, first;
      ghost var k := digits;
      while p > 0
        invariant if p > 0 then k >= 1 && p == Pow(base, k - 1) else k == 0
        invariant v < Pow(base, k)
        invariant text + PowersText(v, base, k, upper) == old(text) + PowersText(value, base, digits, upper)
      {
        var d, r, q := Split(v, p, base);
        DigitStep(v, p, base, k, upper, d, r, q);
        ghost var t, rest := text, PowersText(r, base, k - 1, upper);
        TxChar(DigitChar(d, upper));
        assert t + ([DigitChar(d, upper)] + rest) == text + rest;
        v, p, k := r, q, k - 1;
      }
      NoText(v, base, upper);
      assert text + "" == text;
    }

    /** The integer directives: %d %i %u %o %x %X. */
    method PrintInteger(word: u32, base: u32, signed: bool, upper: bool, zero: bool, width: int)
      requires 2 <= base <= 16
      modifies this
      ensures text == old(text) + Field(word, base, signed, upper, zero, width)
    {
      hide Pow, PowersText, NumeralText, Rep;
      var v: u32, sign := word, false;
      if signed && v >= 0x8000_0000 {
        v := WORD - v;
        sign := true;
      }
      var p, digitCount := CountDigits(v, base, upper);
      var before := width - digitCount;
      if zero {
        if sign {
          TxChar('-');
          before := before - 1;
        }
        RepChar('0', before);
      } else {
        if sign {
          before := before - 1;
        }
        RepChar(' ', before);
        if sign {
          TxChar('-');
        }
      }
      PrintDigits(v, p, base, upper, digitCount);
      FieldIs(word, base, signed, upper, zero, width, old(text), text);
    }

    /** How many digits v has, and the place value of the first of them. */
    method CountDigits(v: u32, base: u32, upper: bool) returns (p: u32, digitCount: nat)
      requires 2 <= base <= 16
      ensures digitCount >= 1 && p == Pow(base, digitCount - 1) && v < Pow(base, digitCount)
      ensures PowersText(v, base, digitCount, upper) == NumeralText(v, base, upper)
      ensures |NumeralText(v, base, upper)| == digitCount
    {
      hide Pow, NumeralText, PowersText, Quotient;
      var vShrink: u32 := v;
      p, digitCount := 1, 1;
      CountStarts(v, base);
      vShrink := vShrink / base;
      while vShrink > 0
        invariant digitCount >= 1 && p == Pow(base, digitCount - 1)
        invariant vShrink == Quotient(v, base, digitCount)
        invariant digitCount > 1 ==> p <= v
        decreases vShrink
      {
        CountStep(v, base, digitCount);
        digitCount := digitCount + 1;
        p := p * base;
        vShrink := vShrink / base;
      }
      CountEnds(v, base, digitCount, upper);
    }

    /** The letter that ends a directive of the logging printf. */
    method PrintConversion(c: char, f: Fmt, env: Env, next: nat) returns (taken: nat)
      modifies this
      ensures text == old(text) + Convert(c, f, env, next).0 && taken == Convert(c, f, env, next).1
    {
      hide Field, Rep;
      var w := env.words(next);
      taken := 1;
      match c
      case 'd' => PrintInteger(w, 10, true, false, f.leadingZero, f.before);
      case 'i' => PrintInteger(w, 10, true, false, f.leadingZero, f.before);
      case 'u' => PrintInteger(w, 10, false, false, f.leadingZero, f.before);
      case 'o' => PrintInteger(w, 8, false, false, f.leadingZero, f.before);
      case 'x' => PrintInteger(w, 16, false, false, f.leadingZero, f.before);
      case 'X' => PrintInteger(w, 16, false, true, f.leadingZero, f.before);
      case 'c' =>
        RepChar(' ', f.before - 1);
        TxChar((w % 256) as char);
      case 's' =>
        RepChar(' ', f.before - |env.text(w)|);
        PutString(env.text(w));
      case _ =>
        taken := 0;
    }

    /** The state pfState_otherFmtChar on one character. */
    method OtherFmtChar(c: char, f: Fmt, env: Env, next: nat, ghost rest: string) returns (st: St, next': nat)
      modifies this
      ensures text + Scan(rest, st, env, next') == old(text) + ScanOther(c, rest, f, env, next)
    {
      hide Scan, Convert;
      next' := next;
      if c == '.' {
        st := Other(f.(after := 0));
      } else if IsDigit(c) {
        st := Other(TakeDigit(f, DigitOf(c)));
      } else if c == 'l' {
        st := Other(f);
      } else {
        var taken := PrintConversion(c, f, env, next);
        next' := next + taken;
        st := Chars;
        ghost var tail := Scan(rest, st, env, next');
        assert old(text) + (Convert(c, f, env, next).0 + tail) == text + tail;
      }
    }

    /** alt_log_private_printf */
    method PrivatePrintf(fmt: string, env: Env)
      modifies this
      ensures text == old(text) + Scan(fmt, Chars, env, 0)
    {
      hide ScanOther;
      var w: nat, st: St, next: nat := 0, Chars, 0;
      while w < |fmt|
        invariant w <= |fmt| && text + Scan(fmt[w..], st, env, next) == old(text) + Scan(fmt, Chars, env, 0)
      {
        var c := fmt[w];
        ghost var t, rest := text, fmt[w + 1..];
        assert fmt[w..][0] == c && fmt[w..][1..] == rest;
        w := w + 1;
        match st
        case Chars =>
          if c == '%' {
            st := First(FRESH);
          } else {
            TxChar(c);
            assert t + ([c] + Scan(rest, Chars, env, next)) == text + Scan(rest, Chars, env, next);
          }
        case First(f) =>
          if c == '0' {
            st := Other(f.(leadingZero := true));
          } else if c == '%' {
            TxChar(c);
            assert t + ("%" + Scan(rest, Chars, env, next)) == text + Scan(rest, Chars, env, next);
            st := Chars;
          } else {
            st, next := OtherFmtChar(c, f, env, next, rest);
          }
        case Other(f) =>
          st, next := OtherFmtChar(c, f, env, next, rest);
      }
      assert text + "" == text;
    }

    /** The digits of alt_printf's %x: from the first nibble that is not zero downwards. */
    method PrintHex(v: u32)
      modifies this
      ensures text == old(text) + NumeralText(v, 16, false)
    {
      hide Nibble, NibbleText, NumeralText, Pow;
      if v == 0 {
        ZeroText();
        TxChar('0');
        assert old(text) + ['0'] == old(text) + "0";
        return;
      }
      var shift: int := 28;
      EightNibbles(v);
      ghost var k := 7;
      while Nibble(v, shift / 4) == 0
        invariant shift == 4 * k && 0 <= k <= 7 && v < Pow(16, k + 1) && text == old(text)
        decreases k
      {
        ZeroNibbles(v, k);
        NotAllZero(v, k);
        shift := shift - 4;
        k := k - 1;
      }
      HexText(v, k + 1);
      NibbleTextStep(v, k + 1);
      while shift >= 0
        invariant shift == 4 * k && -1 <= k <= 7
        invariant text + NibbleText(v, k + 1) == old(text) + NumeralText(v, 16, false)
        decreases k + 1
      {
        var digit := Nibble(v, shift / 4);
        ghost var t := text;
        NibbleTextStep(v, k + 1);
        TxChar(if digit <= 9 then '0' + digit as char else 'a' + digit as char - 10 as char);
        assert t + ([DigitChar(digit, false)] + NibbleText(v, k)) == text + NibbleText(v, k);
        shift := shift - 4;
        k := k - 1;
      }
      assert text + "" == text;
    }

    /** alt_printf */
    method AltPrintf(fmt: string, env: Env)
      modifies this
      ensures text == old(text) + AltScan(fmt, env, 0)
    {
      hide NumeralText;
      var w: nat, next: nat := 0, 0;
      while w < |fmt|
        invariant w <= |fmt| && text + AltScan(fmt[w..], env, next) == old(text) + AltScan(fmt, env, 0)
      {
        ghost var t, here := text, fmt[w..];
        var c := fmt[w];
        w := w + 1;
        assert here[0] == c && here[1..] == fmt[w..];
        if c != '%' {
          TxChar(c);
        } else {
          if w == |fmt| {
            break;
          }
          c := fmt[w];
          w := w + 1;
          assert here[1] == c && here[2..] == fmt[w..];
          if c == '%' {
            TxChar(c);
          } else if c == 'c' {
            TxChar((env.words(next) % 256) as char);
            next := next + 1;
          } else if c == 'x' {
            PrintHex(env.words(next));
            next := next + 1;
          } else if c == 's' {
            PutString(env.text(env.words(next)));
            next := next + 1;
          }
        }
      }
      assert text + "" == text;
    }
  }

  /** What is left of v after its last k digits are dropped. */
  ghost function Quotient(v: nat, base: nat, k: nat): nat
    requires base >= 1
  {
    PowPositive(base, k);
    v / Pow(base, k)
  }

  lemma CountStarts(v: nat, base: nat)
    requires 2 <= base <= 16
    ensures Quotient(v, base, 1) == v / base && Pow(base, 0) == 1
  {
    Powers(base, 1);
  }

  lemma CountStep(v: nat, base: nat, k: nat)
    requires 2 <= base <= 16 && k >= 1 && Quotient(v, base, k) > 0
    ensures Pow(base, k) == Pow(base, k - 1) * base && Pow(base, k) <= v
    ensures Quotient(v, base, k + 1) == Quotient(v, base, k) / base < Quotient(v, base, k)
  {
    hide Pow;
    Powers(base, k);
    Powers(base, k + 1);
    QuotientIsZeroBelow(v, Pow(base, k));
    DivideTwice(v, Pow(base, k), base);
    Shrinks(v / Pow(base, k), base);
  }

  lemma QuotientFits(v: nat, p: nat)
    requires p > 0
    ensures 0 <= v / p <= v && 0 <= v % p <= v
  {
    Division(v, p);
    Scale(1, p, v / p);
  }

  lemma Shrinks(x: nat, base: nat)
    requires base >= 2 && x > 0
    ensures x / base < x
  {
  }

  lemma CountEnds(v: nat, base: nat, k: nat, upper: bool)
    requires 2 <= base <= 16 && k >= 1 && Quotient(v, base, k) == 0
    requires k > 1 ==> Pow(base, k - 1) <= v
    ensures v < Pow(base, k)
    ensures PowersText(v, base, k, upper) == NumeralText(v, base, upper)
    ensures |NumeralText(v, base, upper)| == k
  {
    hide Pow, Numeral, ByPowers, Text;
    PowPositive(base, k);
    QuotientIsZeroBelow(v, Pow(base, k));
    ByPowersIsNumeral(v, base, k);
    NumeralDigits(v, base);
    LengthOfPowers(v, base, k, upper);
  }

  lemma {:induction false} SmallDigits(v: nat, base: nat, k: nat)
    requires 2 <= base <= 16 && v < Pow(base, k)
    ensures |ByPowers(v, base, k)| == k
    ensures forall i :: 0 <= i < k ==> ByPowers(v, base, k)[i] < 16
  {
    hide Pow, ByPowers;
    if k > 0 {
      var d, r := NextDigit(v, base, k);
      SmallDigits(r, base, k - 1);
      var rest := ByPowers(r, base, k - 1);
      assert forall i :: 0 <= i < k ==> ([d] + rest)[i] == if i == 0 then d else rest[i - 1];
    } else {
      NoDigits(v, base);
    }
  }

  lemma NextDigit(v: nat, base: nat, k: nat) returns (d: nat, r: nat)
    requires 2 <= base <= 16 && k >= 1 && v < Pow(base, k)
    ensures Pow(base, k - 1) >= 1 && d == v / Pow(base, k - 1) && r == v % Pow(base, k - 1)
    ensures d < base && r < Pow(base, k - 1)
    ensures ByPowers(v, base, k) == [d] + ByPowers(r, base, k - 1)
  {
    hide Pow;
    Powers(base, k);
    var p := Pow(base, k - 1);
    d, r := v / p, v % p;
    QuotientBelow(v, p, base);
  }

  lemma QuotientBelow(v: nat, p: nat, base: nat)
    requires p >= 1 && v < base * p
    ensures v / p < base && v % p < p
  {
    Division(v, p);
    if v / p >= base { Scale(base, v / p, p); }
  }

  lemma NextPower(base: nat, k: nat)
    requires 2 <= base && k >= 1
    ensures var p := Pow(base, k - 1);
            p >= 1 && p / base < p && if k == 1 then p / base == 0 else p / base == Pow(base, k - 2) >= 1
  {
    hide Pow;
    Powers(base, k);
    if k > 1 {
      Powers(base, k - 1);
      ShorterPower(Pow(base, k - 1), Pow(base, k - 2), base);
    } else {
      FirstPower(base);
    }
  }

  lemma ShorterPower(p: nat, q: nat, base: nat)
    requires base >= 2 && q >= 1 && p == base * q
    ensures p / base == q < p
  {
    DivideOff(q, 0, base);
    Scale(2, base, q);
  }

  lemma FirstPower(base: nat)
    requires base >= 2
    ensures 1 / base == 0
  {
  }

  /** The digits of v from the power base^(k-1) down, as text. */
  ghost function PowersText(v: nat, base: nat, k: nat, upper: bool): string
    requires 2 <= base <= 16 && v < Pow(base, k)
  {
    SmallDigits(v, base, k);
    Text(ByPowers(v, base, k), upper)
  }

  lemma DigitStep(v: nat, p: nat, base: nat, k: nat, upper: bool, d: nat, r: nat, q: nat)
    requires 2 <= base <= 16 && k >= 1 && v < Pow(base, k) && p == Pow(base, k - 1) && p > 0
    requires d == v / p && r == v % p && q == p / base
    ensures d < 16 && r < p && q < p
    ensures PowersText(v, base, k, upper) == [DigitChar(d, upper)] + PowersText(r, base, k - 1, upper)
    ensures if k == 1 then q == 0 else q == Pow(base, k - 2) >= 1
  {
    hide Pow, ByPowers, Text, DigitChar;
    var _, _ := NextDigit(v, base, k);
    NextPower(base, k);
    SmallDigits(v, base, k);
    SmallDigits(r, base, k - 1);
    TextFront(d, ByPowers(r, base, k - 1), upper);
  }

  lemma NoText(v: nat, base: nat, upper: bool)
    requires 2 <= base <= 16 && v < Pow(base, 0)
    ensures PowersText(v, base, 0, upper) == ""
  {
  }

  lemma LengthOfPowers(v: nat, base: nat, k: nat, upper: bool)
    requires 2 <= base <= 16 && v < Pow(base, k) && ByPowers(v, base, k) == Numeral(v, base)
    requires forall i :: 0 <= i < |Numeral(v, base)| ==> Numeral(v, base)[i] < 16
    ensures |NumeralText(v, base, upper)| == k
  {
    SmallDigits(v, base, k);
    TextIsAsLong(Numeral(v, base), upper);
  }

  lemma {:induction false} TextIsAsLong(ds: seq<nat>, upper: bool)
    requires forall i :: 0 <= i < |ds| ==> ds[i] < 16
    ensures |Text(ds, upper)| == |ds|
  {
    if ds != [] { TextIsAsLong(ds[..|ds| - 1], upper); }
  }

  lemma DivideTwice(v: nat, a: nat, b: nat)
    requires a >= 1 && b >= 2
    ensures b * a >= 1 && v / a / b == v / (b * a)
  {
    var q, r := v / a, v % a;
    Division(v, a);
    Division(q, b);
    Scale(q % b + 1, b, a);
    assert v == (q / b) * (b * a) + ((q % b) * a + r) by {
      Distribute(q / b, b, q % b, a);
    }
    DivideOff(q / b, (q % b) * a + r, b * a);
  }

  lemma QuotientIsZeroBelow(v: nat, p: nat)
    requires p >= 1
    ensures v / p == 0 <==> v < p
  {
    Division(v, p);
    if v / p >= 1 { Scale(1, v / p, p); }
  }

  lemma FieldIs(word: u32, base: nat, signed: bool, upper: bool, zero: bool, width: int, t: string, t': string)
    requires 2 <= base <= 16
    requires var m := Magnitude(word, signed);
             var digits := NumeralText(m, base, upper);
             var sign := if Negative(word, signed) then "-" else "";
             var pad := width - |digits| - |sign|;
             t' == if zero then t + sign + Rep('0', pad) + digits else t + Rep(' ', pad) + sign + digits
    ensures t' == t + Field(word, base, signed, upper, zero, width)
  {
    hide NumeralText, Rep;
  }

  // ---------------------------------------------------------------- %x by shifting

  lemma ZeroText()
    ensures NumeralText(0, 16, false) == "0"
  {
    assert Numeral(0, 16) == [0];
    assert [0][..0] == [];
    assert Text([0], false) == Text([], false) + ['0'];
  }

  lemma EightNibbles(v: u32)
    ensures v < Pow(16, 8)
  {
    assert Pow(16, 8) == WORD;
  }

  lemma NotAllZero(v: nat, k: nat)
    requires v > 0 && v < Pow(16, k)
    ensures k > 0
  {
  }

  ghost function NibbleText(v: nat, k: nat): string {
    NibblesAreSmall(v, k);
    Text(Nibbles(v, k), false)
  }

  lemma {:induction false} NibblesAreSmall(v: nat, k: nat)
    ensures |Nibbles(v, k)| == k
    ensures forall i :: 0 <= i < k ==> Nibbles(v, k)[i] < 16
  {
    hide Nibble;
    if k > 0 { NibblesAreSmall(v, k - 1); }
  }

  lemma HexText(v: nat, k: nat)
    requires k >= 1 && Nibble(v, k - 1) != 0 && v < Pow(16, k)
    ensures NibbleText(v, k) == NumeralText(v, 16, false)
  {
    NibblesAreNumeral(v, k);
  }

  lemma NibbleTextStep(v: nat, k: nat)
    requires k >= 1
    ensures NibbleText(v, k) == [DigitChar(Nibble(v, k - 1), false)] + NibbleText(v, k - 1)
    ensures NibbleText(v, 0) == ""
  {
    hide Nibble;
    NibblesAreSmall(v, k - 1);
    TextFront(Nibble(v, k - 1), Nibbles(v, k - 1), false);
  }
}
