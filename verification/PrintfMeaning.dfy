// What a reader sees of each directive: which number in which digits, how long and how padded.
// Nothing here speaks of how the printers find their text.
module PrintfMeaning {
  import opened Digits
  import opened PrintfModel
  import opened PrintfProof
  import opened Words
  import opened Wrappers

  /** The base that C99 section 7.19.6.1 gives to an integer conversion. */
  function BaseOf(conv: char): (base: nat)
    ensures 8 <= base <= 16
  {
    if conv == 'o' then 8 else if conv in "xX" then 16 else 10
  }

  predicate IsSigned(conv: char) { conv in "di" }

  /** The digits a conversion may use: x small letters, X capital ones. */
  predicate DigitFor(conv: char, c: char) {
    match conv
    case 'o' => '0' <= c <= '7'
    case 'x' => '0' <= c <= '9' || 'a' <= c <= 'f'
    case 'X' => '0' <= c <= '9' || 'A' <= c <= 'F'
    case _ => '0' <= c <= '9'
  }

  predicate All(s: string, c: char) { forall d <- s :: d == c }

  function Longer(width: Option<nat>, need: nat): nat {
    if width.Some? && width.value > need then width.value else need
  }

  lemma {:induction false} DigitsFor(ds: seq<nat>, base: nat, conv: char)
    requires base == BaseOf(conv) && forall i :: 0 <= i < |ds| ==> ds[i] < base
    ensures forall i :: 0 <= i < |ds| ==> ds[i] < 16
    ensures forall c <- Text(ds, conv == 'X') :: DigitFor(conv, c)
    decreases |ds|
  {
    assert base <= 16;
    if ds != [] {
      DigitsFor(ds[..|ds| - 1], base, conv);
      assert DigitFor(conv, DigitChar(ds[|ds| - 1], conv == 'X'));
    }
  }

  /** The digits of v as a conversion prints them: they are of its kind, they stand for v, and
      none is superfluous. */
  lemma NumeralFor(v: nat, conv: char)
    ensures var t := NumeralText(v, BaseOf(conv), conv == 'X');
            && t != "" && (|t| > 1 ==> t[0] != '0') && (forall c <- t :: DigitFor(conv, c))
            && ReadDigits(t, BaseOf(conv)) == v
  {
    var base, upper := BaseOf(conv), conv == 'X';
    var ds := Numeral(v, base);
    NumeralDigits(v, base);
    DigitsFor(ds, base, conv);
    NumeralTextIs(v, base, upper);
    assert ds == [ds[0]] + ds[1..];
    TextFront(ds[0], ds[1..], upper);
    FirstDigit(ds[0], upper);
    if v == 0 { assert |ds| == 1; }
  }

  lemma FirstDigit(d: nat, upper: bool)
    requires d < 16
    ensures DigitChar(d, upper) == '0' <==> d == 0
  {
  }

  lemma {:induction false} RepIsAll(c: char, n: int)
    ensures All(Rep(c, n), c)
    decreases if n > 0 then n else 0
  {
    if n > 0 { RepIsAll(c, n - 1); }
  }

  /** The parts of a field. */
  lemma FieldParts(v: u32, conv: char, zero: bool, width: int) returns (pad: string, sign: string, digits: string)
    ensures Field(v, BaseOf(conv), IsSigned(conv), conv == 'X', zero, width) ==
            if zero then sign + pad + digits else pad + sign + digits
    ensures All(pad, if zero then '0' else ' ')
    ensures sign == if IsSigned(conv) && v >= 0x8000_0000 then "-" else ""
    ensures digits == NumeralText(if sign == "" then v else WORD - v, BaseOf(conv), conv == 'X')
  {
    hide NumeralText;
    digits := NumeralText(Magnitude(v, IsSigned(conv)), BaseOf(conv), conv == 'X');
    sign := if Negative(v, IsSigned(conv)) then "-" else "";
    pad := Rep(if zero then '0' else ' ', width - |digits| - |sign|);
    RepIsAll(if zero then '0' else ' ', width - |digits| - |sign|);
  }

  lemma ConvertsInteger(conv: char, f: Fmt, env: Env, next: nat)
    requires conv in "diuoxX"
    ensures Convert(conv, f, env, next).0 ==
            Field(env.words(next), BaseOf(conv), IsSigned(conv), conv == 'X', f.leadingZero, f.before)
  {
    hide Field;
  }

  /** The integer that a conversion reads from its argument. */
  function Shown(v: u32, conv: char): int { if IsSigned(conv) && v >= 0x8000_0000 then v - WORD else v }

  lemma FieldShows(v: u32, conv: char, zero: bool, width: int) returns (pad: string, sign: string, digits: string)
    ensures var t := Field(v, BaseOf(conv), IsSigned(conv), conv == 'X', zero, width);
            && t == (if zero then sign + pad + digits else pad + sign + digits)
            && |t| == (if width > |sign| + |digits| then width else |sign| + |digits|)
            && ReadField(t, BaseOf(conv)) == Shown(v, conv)
    ensures All(pad, if zero then '0' else ' ')
    ensures sign == if IsSigned(conv) && v >= 0x8000_0000 then "-" else ""
    ensures digits != "" && (|digits| > 1 ==> digits[0] != '0') && forall c <- digits :: DigitFor(conv, c)
  {
    hide NumeralText, Field, ReadField, DigitFor, BaseOf;
    pad, sign, digits := FieldParts(v, conv, zero, width);
    NumeralFor(if sign == "" then v else WORD - v, conv);
    NumeralTextIs(if sign == "" then v else WORD - v, BaseOf(conv), conv == 'X');
    FieldReadsBack(v, BaseOf(conv), IsSigned(conv), conv == 'X', zero, width);
    FieldLength(v, BaseOf(conv), IsSigned(conv), conv == 'X', zero, width);
  }

  /** %d and %i print their argument as a signed number in base 10, %u as it is in base 10, %o in
      base 8, %x and %X in base 16, with small and with capital letters: without superfluous
      zeros, filled up on the left to the width with blanks, or behind the sign with zeros. */
  lemma IntegerDirective(i: Item, rest: string, env: Env, next: nat)
    returns (t: string, pad: string, sign: string, digits: string)
    requires i.Directive? && WellFormed(i) && i.conv in "diuoxX"
    ensures Scan(Written(i) + rest, Chars, env, next) == t + Scan(rest, Chars, env, next + 1)
    ensures t == if i.zero then sign + pad + digits else pad + sign + digits
    ensures All(pad, if i.zero then '0' else ' ')
    ensures sign == if i.conv in "di" && env.words(next) >= 0x8000_0000 then "-" else ""
    ensures digits != "" && (|digits| > 1 ==> digits[0] != '0') && forall c <- digits :: DigitFor(i.conv, c)
    ensures |t| == Longer(i.width, |sign| + |digits|)
    ensures i.conv in "di" ==>
              ReadField(t, 10) == if env.words(next) < 0x8000_0000 then env.words(next) else env.words(next) - WORD
    ensures i.conv == 'u' ==> ReadField(t, 10) == env.words(next)
    ensures i.conv == 'o' ==> ReadField(t, 8) == env.words(next)
    ensures i.conv in "xX" ==> ReadField(t, 16) == env.words(next)
  {
    hide Scan, Written, NumeralText, Field, ReadField, Convert, DigitFor, ReadDigits;
    var v, width := env.words(next), if i.width.Some? then i.width.value else -1;
    ScanDirective(i, rest, env, next);
    ConvertsInteger(i.conv, Fmt(i.zero, width, -1), env, next);
    t := Field(v, BaseOf(i.conv), IsSigned(i.conv), i.conv == 'X', i.zero, width);
    pad, sign, digits := FieldShows(v, i.conv, i.zero, width);
  }

  /** %c prints the low byte of its argument, %s the string it points to, behind blanks up to the
      width. */
  lemma TextDirective(i: Item, rest: string, env: Env, next: nat) returns (t: string, pad: string)
    requires i.Directive? && WellFormed(i) && i.conv in "cs"
    ensures Scan(Written(i) + rest, Chars, env, next) == t + Scan(rest, Chars, env, next + 1)
    ensures i.conv == 'c' ==> t == pad + [(env.words(next) % 256) as char]
    ensures i.conv == 's' ==> t == pad + env.text(env.words(next))
    ensures All(pad, ' ') && |t| == Longer(i.width, if i.conv == 'c' then 1 else |env.text(env.words(next))|)
  {
    hide Scan, Written;
    var width := if i.width.Some? then i.width.value else -1;
    var n := width - if i.conv == 'c' then 1 else |env.text(env.words(next))|;
    ScanDirective(i, rest, env, next);
    t, pad := Rendered(i, env, next), Rep(' ', n);
    RepIsAll(' ', n);
    RepLength(' ', n);
  }

  /** alt_printf: %x prints its argument in base 16 with small letters and without superfluous
      zeros, %c the low byte, %s the string, %% a percent sign. */
  lemma AltDirective(conv: char, rest: string, env: Env, next: nat) returns (t: string)
    requires conv in "cxs%"
    ensures AltScan("%" + [conv] + rest, env, next) == t + AltScan(rest, env, if conv == '%' then next else next + 1)
    ensures conv == 'x' ==>
              && t != "" && (|t| > 1 ==> t[0] != '0') && (forall c <- t :: DigitFor('x', c))
              && ReadDigits(t, 16) == env.words(next)
    ensures conv == 'c' ==> t == [(env.words(next) % 256) as char]
    ensures conv == 's' ==> t == env.text(env.words(next))
    ensures conv == '%' ==> t == "%"
  {
    hide NumeralText;
    NumeralFor(env.words(next), 'x');
    var w, fmt := env.words(next), "%" + [conv] + rest;
    assert fmt[0] == '%' && fmt[1] == conv && fmt[2..] == rest;
    t := match conv
      case 'c' => [(w % 256) as char]
      case 'x' => NumeralText(w, 16, false)
      case 's' => env.text(w)
      case _ => "%";
  }

  /** A letter that is no conversion prints nothing and takes no argument, in either printer. */
  lemma UnknownLetters(c: char, f: Fmt, rest: string, env: Env, next: nat)
    requires c !in "diuoxXcsl." && !IsDigit(c)
    ensures Scan([c] + rest, Other(f), env, next) == Scan(rest, Chars, env, next)
    ensures c != '%' ==> AltScan("%" + [c] + rest, env, next) == AltScan(rest, env, next)
  {
    assert ([c] + rest)[1..] == rest && ("%" + [c] + rest)[2..] == rest;
    assert Convert(c, f, env, next) == ("", 0);
  }

  /** A directive that the format breaks off prints nothing. */
  lemma {:induction false} BrokenOff(s: string, f: Fmt, env: Env, next: nat)
    requires forall c <- s :: IsDigit(c) || c in ".l"
    ensures Scan(s, Other(f), env, next) == ""
    ensures Scan("%" + s, Chars, env, next) == "" == AltScan("%", env, next)
    decreases |s|
  {
    ScanOpens(s, env, next);
    if s != "" {
      var g := if s[0] == '.' then f.(after := 0) else if IsDigit(s[0]) then TakeDigit(f, DigitOf(s[0])) else f;
      BrokenOff(s[1..], g, env, next);
      BrokenOff(s[1..], FirstFmt(s[0]), env, next);
    }
  }

  function FirstFmt(c: char): Fmt {
    if c == '0' then FRESH.(leadingZero := true)
    else if c == '.' then FRESH.(after := 0)
    else if IsDigit(c) then TakeDigit(FRESH, DigitOf(c))
    else FRESH
  }
}
