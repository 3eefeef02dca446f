// The two formatters of the HAL as functions: the state machine of the logging printf, the
// simple scanner of alt_printf, and a reference that renders a format from its structure.
module PrintfModel {
  import opened Digits
  import opened Words
  import opened Wrappers

  /** The variable arguments, one 32-bit word after the other, and the C string that a word
      points to. */
  datatype Env = Env(words: nat -> u32, text: u32 -> string)

  // ---------------------------------------------------------------- fields

  function Rep(c: char, n: int): string
    decreases if n > 0 then n else 0
  {
    if n <= 0 then "" else [c] + Rep(c, n - 1)
  }

  function DigitChar(d: nat, upper: bool): char
    requires d < 16
  {
    if d <= 9 then '0' + d as char else (if upper then 'A' else 'a') + (d - 10) as char
  }

  ghost function Text(ds: seq<nat>, upper: bool): string
    requires forall i :: 0 <= i < |ds| ==> ds[i] < 16
  {
    if ds == [] then "" else Text(ds[..|ds| - 1], upper) + [DigitChar(ds[|ds| - 1], upper)]
  }

  /** The digits of v in a base that the printers use. */
  ghost function NumeralText(v: nat, base: nat, upper: bool): string
    requires 2 <= base <= 16
  {
    NumeralDigits(v, base);
    Text(Numeral(v, base), upper)
  }

  predicate Negative(v: u32, signed: bool) { signed && v >= 0x8000_0000 }

  function Magnitude(v: u32, signed: bool): u32 { if Negative(v, signed) then WORD - v else v }

  /** The printed field of an integer: sign and digits, padded on the left to the width. */
  ghost function Field(v: u32, base: nat, signed: bool, upper: bool, zero: bool, width: int): string
    requires 2 <= base <= 16
  {
    var digits := NumeralText(Magnitude(v, signed), base, upper);
    var sign := if Negative(v, signed) then "-" else "";
    var pad := width - |digits| - |sign|;
    if zero then sign + Rep('0', pad) + digits else Rep(' ', pad) + sign + digits
  }

  // ---------------------------------------------------------------- the logging printf

  datatype Fmt = Fmt(leadingZero: bool, before: int, after: int)

  const FRESH := Fmt(false, -1, -1)

  datatype St = Chars | First(f: Fmt) | Other(f: Fmt)

  predicate IsDigit(c: char) { '0' <= c <= '9' }

  function DigitOf(c: char): nat requires IsDigit(c) { (c - '0') as nat }

  /** One more digit of the width or of the precision. */
  function TakeDigit(f: Fmt, d: nat): Fmt {
    if f.after < 0 then f.(before := (if f.before < 0 then 0 else f.before * 10) + d)
    else f.(after := f.after * 10 + d)
  }

  /** The text of a conversion, and how many arguments it takes. */
  ghost function Convert(c: char, f: Fmt, env: Env, next: nat): (string, nat) {
    var w := env.words(next);
    match c
    case 'd' => (Field(w, 10, true, false, f.leadingZero, f.before), 1)
    case 'i' => (Field(w, 10, true, false, f.leadingZero, f.before), 1)
    case 'u' => (Field(w, 10, false, false, f.leadingZero, f.before), 1)
    case 'o' => (Field(w, 8, false, false, f.leadingZero, f.before), 1)
    case 'x' => (Field(w, 16, false, false, f.leadingZero, f.before), 1)
    case 'X' => (Field(w, 16, false, true, f.leadingZero, f.before), 1)
    case 'c' => (Rep(' ', f.before - 1) + [(w % 256) as char], 1)
    case 's' => (Rep(' ', f.before - |env.text(w)|) + env.text(w), 1)
    case _ => ("", 0)
  }

  /** The state machine of alt_log_private_printf on the rest of a format. */
  ghost function Scan(fmt: string, st: St, env: Env, next: nat): string
    decreases |fmt|, 0
  {
    if fmt == "" then ""
    else
      var c, rest := fmt[0], fmt[1..];
      match st
      case Chars => if c == '%' then Scan(rest, First(FRESH), env, next) else [c] + Scan(rest, Chars, env, next)
      case First(f) =>
        if c == '0' then Scan(rest, Other(f.(leadingZero := true)), env, next)
        else if c == '%' then "%" + Scan(rest, Chars, env, next)
        else ScanOther(c, rest, f, env, next)
      case Other(f) => ScanOther(c, rest, f, env, next)
  }

  ghost function ScanOther(c: char, rest: string, f: Fmt, env: Env, next: nat): string
    decreases |rest|, 1
  {
    if c == '.' then Scan(rest, Other(f.(after := 0)), env, next)
    else if IsDigit(c) then Scan(rest, Other(TakeDigit(f, DigitOf(c))), env, next)
    else if c == 'l' then Scan(rest, Other(f), env, next)
    else
      var (text, taken) := Convert(c, f, env, next);
      text + Scan(rest, Chars, env, next + taken)
  }

  // ---------------------------------------------------------------- alt_printf

  ghost function AltScan(fmt: string, env: Env, next: nat): string
    decreases |fmt|
  {
    if fmt == "" then ""
    else if fmt[0] != '%' then [fmt[0]] + AltScan(fmt[1..], env, next)
    else if |fmt| == 1 then ""
    else
      var c, rest, w := fmt[1], fmt[2..], env.words(next);
      match c
      case '%' => "%" + AltScan(rest, env, next)
      case 'c' => [(w % 256) as char] + AltScan(rest, env, next + 1)
      case 'x' => NumeralText(w, 16, false) + AltScan(rest, env, next + 1)
      case 's' => env.text(w) + AltScan(rest, env, next + 1)
      case _ => AltScan(rest, env, next)
  }

  // ---------------------------------------------------------------- formats by structure

  /** A piece of a format: a character, %%, or a directive as C99 section 7.19.6.1 writes it. */
  datatype Item =
    | Literal(c: char)
    | Percent
    | Directive(zero: bool, width: Option<nat>, prec: Option<nat>, long: bool, conv: char)

  predicate WellFormed(i: Item) {
    match i
    case Literal(c) => c != '%'
    case Percent => true
    case Directive(zero, width, _, _, conv) => conv in "diuoxXcs" && (zero || width != Some(0))
  }

  ghost function Written(i: Item): string {
    match i
    case Literal(c) => [c]
    case Percent => "%%"
    case Directive(zero, width, prec, long, conv) =>
      "%" + (if zero then "0" else "")
      + (if width.Some? then NumeralText(width.value, 10, false) else "")
      + (if prec.Some? then "." + NumeralText(prec.value, 10, false) else "")
      + (if long then "l" else "") + [conv]
  }

  ghost function Format(items: seq<Item>): string {
    if items == [] then "" else Written(items[0]) + Format(items[1..])
  }

  /** What a piece prints: a field at least as wide as asked for.  A precision has no effect. */
  ghost function Rendered(i: Item, env: Env, next: nat): string {
    match i
    case Literal(c) => [c]
    case Percent => "%"
    case Directive(zero, width, _, _, conv) =>
      Convert(conv, Fmt(zero, if width.Some? then width.value else -1, -1), env, next).0
  }

  ghost function Render(items: seq<Item>, env: Env, next: nat): string {
    if items == [] then ""
    else Rendered(items[0], env, next) + Render(items[1..], env, next + (if items[0].Directive? then 1 else 0))
  }

  // ---------------------------------------------------------------- the machine renders formats

  /** Digits read from the front of a format build up the width, or the precision. */
  ghost function Feed(f: Fmt, ds: seq<nat>): Fmt {
    if ds == [] then f else TakeDigit(Feed(f, ds[..|ds| - 1]), ds[|ds| - 1])
  }

  lemma {:induction false} FeedFront(f: Fmt, d: nat, ds: seq<nat>)
    ensures Feed(f, [d] + ds) == Feed(TakeDigit(f, d), ds)
  {
    if ds == [] {
      assert [d] + ds == [d];
      assert Feed(f, [d]) == TakeDigit(Feed(f, []), d);
    } else {
      FeedFront(f, d, ds[..|ds| - 1]);
      assert ([d] + ds)[..|[d] + ds| - 1] == [d] + ds[..|ds| - 1];
    }
  }

  lemma DigitCharIs(d: nat, upper: bool)
    requires d < 10
    ensures var c := DigitChar(d, upper);
            IsDigit(c) && DigitOf(c) == d && c != '.' && c != '%' && (c == '0' <==> d == 0)
  {
  }

  lemma TextFront(d: nat, ds: seq<nat>, upper: bool)
    requires d < 16 && forall i :: 0 <= i < |ds| ==> ds[i] < 16
    ensures Text([d] + ds, upper) == [DigitChar(d, upper)] + Text(ds, upper)
  {
    if ds == [] {
      assert [d] + ds == [d];
      assert Text([d], upper) == Text([], upper) + [DigitChar(d, upper)];
    } else {
      TextFront(d, ds[..|ds| - 1], upper);
      assert ([d] + ds)[..|[d] + ds| - 1] == [d] + ds[..|ds| - 1];
    }
  }

  lemma {:induction false} ScanDigits(ds: seq<nat>, rest: string, f: Fmt, env: Env, next: nat)
    requires forall i :: 0 <= i < |ds| ==> ds[i] < 10
    ensures Scan(Text(ds, false) + rest, Other(f), env, next) == Scan(rest, Other(Feed(f, ds)), env, next)
    decreases |ds|
  {
    if ds == [] {
      assert Text(ds, false) + rest == rest;
    } else {
      var d, tail := ds[0], ds[1..];
      assert ds == [d] + tail;
      TextFront(d, tail, false);
      DigitCharIs(d, false);
      FeedFront(f, d, tail);
      var fmt := Text(ds, false) + rest;
      assert fmt[0] == DigitChar(d, false) && fmt[1..] == Text(tail, false) + rest;
      ScanDigits(tail, rest, TakeDigit(f, d), env, next);
    }
  }

  /** The digits of n leave n as the width or the precision. */
  lemma {:induction false} FeedNumber(f: Fmt, ds: seq<nat>)
    requires ds != []
    ensures f.after < 0 && f.before < 0 ==> Feed(f, ds) == f.(before := Value(ds, 10))
    ensures f.after == 0 ==> Feed(f, ds) == f.(after := Value(ds, 10))
  {
    var front, d := ds[..|ds| - 1], ds[|ds| - 1];
    if front == [] {
      assert Feed(f, front) == f && Value(front, 10) == 0;
    } else {
      FeedNumber(f, front);
    }
  }

  lemma ScanNumber(n: nat, rest: string, f: Fmt, env: Env, next: nat)
    requires (f.after < 0 && f.before < 0) || f.after == 0
    ensures Scan(NumeralText(n, 10, false) + rest, Other(f), env, next) ==
            Scan(rest, Other(if f.after < 0 then f.(before := n) else f.(after := n)), env, next)
  {
    var ds := Numeral(n, 10);
    NumeralDigits(n, 10);
    ScanDigits(ds, rest, f, env, next);
    FeedNumber(f, ds);
    NumeralReadsBack(n, 10);
  }

  predicate IsConversion(c: char) { c in "diuoxXcs" }

  lemma ScanConversion(conv: char, rest: string, f: Fmt, env: Env, next: nat)
    requires IsConversion(conv)
    ensures Scan([conv] + rest, Other(f), env, next) ==
            Convert(conv, f.(after := -1), env, next).0 + Scan(rest, Chars, env, next + 1)
  {
    assert ([conv] + rest)[1..] == rest;
  }

  lemma ScanLong(long: bool, rest: string, f: Fmt, env: Env, next: nat)
    ensures Scan((if long then "l" else "") + rest, Other(f), env, next) == Scan(rest, Other(f), env, next)
  {
    assert ("l" + rest)[1..] == rest && "" + rest == rest;
  }

  lemma ScanPrecision(prec: Option<nat>, rest: string, f: Fmt, env: Env, next: nat)
    requires f.after < 0
    ensures Scan((if prec.Some? then "." + NumeralText(prec.value, 10, false) else "") + rest, Other(f), env, next) ==
            Scan(rest, Other(if prec.Some? then f.(after := prec.value) else f), env, next)
  {
    if prec.Some? {
      var digits := NumeralText(prec.value, 10, false) + rest;
      assert "." + NumeralText(prec.value, 10, false) + rest == "." + digits;
      assert ("." + digits)[1..] == digits;
      ScanNumber(prec.value, rest, f.(after := 0), env, next);
    } else {
      assert "" + rest == rest;
    }
  }

  lemma ScanWidth(width: Option<nat>, rest: string, f: Fmt, env: Env, next: nat)
    requires f.after < 0 && f.before == -1
    ensures Scan((if width.Some? then NumeralText(width.value, 10, false) else "") + rest, Other(f), env, next) ==
            Scan(rest, Other(f.(before := if width.Some? then width.value else -1)), env, next)
  {
    if width.Some? {
      ScanNumber(width.value, rest, f, env, next);
    } else {
      assert "" + rest == rest;
    }
  }

  /** What follows the optional zero flag of a directive. */
  ghost function AfterZero(i: Item): string
    requires i.Directive?
  {
    (if i.width.Some? then NumeralText(i.width.value, 10, false) else "")
    + ((if i.prec.Some? then "." + NumeralText(i.prec.value, 10, false) else "")
       + ((if i.long then "l" else "") + [i.conv]))
  }

  lemma ScanAfterZero(i: Item, rest: string, env: Env, next: nat)
    requires i.Directive? && IsConversion(i.conv)
    ensures Scan(AfterZero(i) + rest, Other(Fmt(i.zero, -1, -1)), env, next) ==
            Rendered(i, env, next) + Scan(rest, Chars, env, next + 1)
  {
    hide Scan, Convert, NumeralText;
    var l := if i.long then "l" else "";
    var p := if i.prec.Some? then "." + NumeralText(i.prec.value, 10, false) else "";
    var w := if i.width.Some? then NumeralText(i.width.value, 10, false) else "";
    var f := Fmt(i.zero, if i.width.Some? then i.width.value else -1, -1);
    var g := if i.prec.Some? then f.(after := i.prec.value) else f;
    assert AfterZero(i) + rest == w + (p + (l + ([i.conv] + rest)));
    ScanWidth(i.width, p + (l + ([i.conv] + rest)), Fmt(i.zero, -1, -1), env, next);
    ScanPrecision(i.prec, l + ([i.conv] + rest), f, env, next);
    ScanLong(i.long, [i.conv] + rest, g, env, next);
    ScanConversion(i.conv, rest, g, env, next);
  }

  lemma NumeralTextFront(n: nat)
    requires n > 0
    ensures var t := NumeralText(n, 10, false); t != "" && t[0] != '0' && t[0] != '%'
  {
    var ds := Numeral(n, 10);
    NumeralDigits(n, 10);
    assert ds == [ds[0]] + ds[1..];
    TextFront(ds[0], ds[1..], false);
    DigitCharIs(ds[0], false);
  }

  lemma FirstIsOther(fmt: string, f: Fmt, env: Env, next: nat)
    requires fmt != "" && fmt[0] != '0' && fmt[0] != '%'
    ensures Scan(fmt, First(f), env, next) == Scan(fmt, Other(f), env, next)
  {
  }

  lemma DirectiveFront(i: Item, rest: string)
    requires i.Directive? && WellFormed(i) && !i.zero
    ensures var t := AfterZero(i) + rest; t != "" && t[0] != '0' && t[0] != '%'
  {
    hide NumeralText;
    if i.width.Some? { NumeralTextFront(i.width.value); }
  }

  lemma ScanOpens(tail: string, env: Env, next: nat)
    ensures Scan("%" + tail, Chars, env, next) == Scan(tail, First(FRESH), env, next)
  {
    assert ("%" + tail)[1..] == tail;
  }

  lemma ScanZeroFlag(tail: string, env: Env, next: nat)
    ensures Scan("0" + tail, First(FRESH), env, next) == Scan(tail, Other(Fmt(true, -1, -1)), env, next)
  {
    assert ("0" + tail)[1..] == tail;
  }

  lemma ScanPlain(i: Item, rest: string, env: Env, next: nat)
    requires WellFormed(i) && !i.Directive?
    ensures Scan(Written(i) + rest, Chars, env, next) == Rendered(i, env, next) + Scan(rest, Chars, env, next)
  {
    hide Rendered;
    RenderedSimply(i, env, next);
    if i.Literal? {
      assert ([i.c] + rest)[1..] == rest;
    } else {
      assert "%%" + rest == "%" + ("%" + rest) && ("%" + rest)[1..] == rest;
      ScanOpens("%" + rest, env, next);
    }
  }

  lemma ScanDirective(i: Item, rest: string, env: Env, next: nat)
    requires WellFormed(i) && i.Directive?
    ensures Scan(Written(i) + rest, Chars, env, next) == Rendered(i, env, next) + Scan(rest, Chars, env, next + 1)
  {
    hide Scan, Convert, NumeralText, AfterZero, Rendered, Written;
    var tail := AfterZero(i) + rest;
    WrittenIs(i);
    ScanAfterZero(i, rest, env, next);
    if i.zero {
      assert Written(i) + rest == "%" + ("0" + tail);
      ScanOpens("0" + tail, env, next);
      ScanZeroFlag(tail, env, next);
    } else {
      assert Written(i) + rest == "%" + tail;
      ScanOpens(tail, env, next);
      DirectiveFront(i, rest);
      FirstIsOther(tail, FRESH, env, next);
    }
  }

  lemma RenderedSimply(i: Item, env: Env, next: nat)
    requires !i.Directive?
    ensures Rendered(i, env, next) == if i.Percent? then "%" else [i.c]
  {
  }

  lemma WrittenIs(i: Item)
    requires i.Directive?
    ensures Written(i) == "%" + ((if i.zero then "0" else "") + AfterZero(i))
  {
    hide NumeralText;
  }

  /** The state machine prints every well-formed format as its structure says, argument by
      argument. */
  lemma {:induction false} MachineRendersFormats(items: seq<Item>, env: Env, next: nat)
    requires forall i <- items :: WellFormed(i)
    ensures Scan(Format(items), Chars, env, next) == Render(items, env, next)
    decreases |items|
  {
    hide Scan, Rendered, Written;
    if items == [] {
      ScanNothing(env, next);
    } else {
      assert WellFormed(items[0]);
      if items[0].Directive? {
        ScanDirective(items[0], Format(items[1..]), env, next);
      } else {
        ScanPlain(items[0], Format(items[1..]), env, next);
      }
      MachineRendersFormats(items[1..], env, next + (if items[0].Directive? then 1 else 0));
    }
  }

  lemma ScanNothing(env: Env, next: nat)
    ensures Scan("", Chars, env, next) == ""
  {
  }
}
