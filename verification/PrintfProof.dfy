// What the printed fields mean, and where the two formatters agree.
module PrintfProof {
  import opened Digits
  import opened PrintfModel
  import opened Words
  import opened Wrappers

  // ---------------------------------------------------------------- reading a field back

  function CharValue(c: char): nat {
    if '0' <= c <= '9' then (c - '0') as nat
    else if 'a' <= c <= 'f' then 10 + (c - 'a') as nat
    else if 'A' <= c <= 'F' then 10 + (c - 'A') as nat
    else 0
  }

  function ReadDigits(s: string, base: nat): nat {
    if s == "" then 0 else ReadDigits(s[..|s| - 1], base) * base + CharValue(s[|s| - 1])
  }

  function SkipSpaces(s: string): string {
    if s != "" && s[0] == ' ' then SkipSpaces(s[1..]) else s
  }

  /** The number a field shows: blanks, perhaps a minus sign, digits. */
  function ReadField(s: string, base: nat): int {
    var t := SkipSpaces(s);
    if t != "" && t[0] == '-' then -(ReadDigits(t[1..], base) as int) else ReadDigits(t, base)
  }

  /** The argument as the directive reads it. */
  function Meaning(v: u32, signed: bool): int { if Negative(v, signed) then v - WORD else v }

  lemma {:induction false} TextReadsBack(ds: seq<nat>, upper: bool, base: nat)
    requires forall i :: 0 <= i < |ds| ==> ds[i] < 16
    ensures ReadDigits(Text(ds, upper), base) == Value(ds, base)
    ensures |Text(ds, upper)| == |ds|
    ensures forall c <- Text(ds, upper) :: c != ' ' && c != '-'
  {
    if ds != [] {
      var front, t := ds[..|ds| - 1], Text(ds, upper);
      TextReadsBack(front, upper, base);
      assert t[..|t| - 1] == Text(front, upper);
      assert CharValue(DigitChar(ds[|ds| - 1], upper)) == ds[|ds| - 1];
    }
  }

  lemma {:induction false} ZerosInFront(n: int, t: string, base: nat)
    ensures ReadDigits(Rep('0', n) + t, base) == ReadDigits(t, base)
    decreases |t|, if n > 0 then n else 0
  {
    var s := Rep('0', n) + t;
    if t != "" {
      ZerosInFront(n, t[..|t| - 1], base);
      assert s[..|s| - 1] == Rep('0', n) + t[..|t| - 1];
    } else if n > 0 {
      assert s == Rep('0', n);
      RepSnoc('0', n);
      ZerosInFront(n - 1, "", base);
      assert Rep('0', n - 1) + "" == Rep('0', n - 1);
      assert s[..|s| - 1] == Rep('0', n - 1);
    } else {
      assert s == t;
    }
  }

  lemma {:induction false} RepSnoc(c: char, n: int)
    requires n > 0
    ensures Rep(c, n) == Rep(c, n - 1) + [c]
    decreases n
  {
    if n > 1 { RepSnoc(c, n - 1); }
  }

  lemma {:induction false} RepLength(c: char, n: int)
    ensures |Rep(c, n)| == if n > 0 then n else 0
    decreases if n > 0 then n else 0
  {
    if n > 0 { RepLength(c, n - 1); }
  }

  lemma {:induction false} SpacesInFront(n: int, t: string)
    requires t != "" && t[0] != ' '
    ensures SkipSpaces(Rep(' ', n) + t) == t
    decreases if n > 0 then n else 0
  {
    if n > 0 {
      assert (Rep(' ', n) + t)[1..] == Rep(' ', n - 1) + t;
      SpacesInFront(n - 1, t);
    } else {
      assert Rep(' ', n) + t == t;
    }
  }

  /** The digits of a number, as text: they read back, and there are no spare ones. */
  lemma NumeralTextIs(v: nat, base: nat, upper: bool)
    requires 2 <= base <= 16
    ensures var t := NumeralText(v, base, upper);
            && ReadDigits(t, base) == v && t != "" && |t| == |Numeral(v, base)|
            && forall c <- t :: c != ' ' && c != '-'
  {
    NumeralDigits(v, base);
    TextReadsBack(Numeral(v, base), upper, base);
    NumeralReadsBack(v, base);
  }

  /** Every printed field reads back to its argument, for every base, sign, case, padding and
      width ... */
  lemma FieldReadsBack(v: u32, base: nat, signed: bool, upper: bool, zero: bool, width: int)
    requires 2 <= base <= 16
    ensures ReadField(Field(v, base, signed, upper, zero, width), base) == Meaning(v, signed)
  {
    hide NumeralText, ReadDigits;
    var m := Magnitude(v, signed);
    var digits := NumeralText(m, base, upper);
    NumeralTextIs(m, base, upper);
    var sign := if Negative(v, signed) then "-" else "";
    var pad := width - |digits| - |sign|;
    ZerosInFront(pad, digits, base);
    assert digits[0] in digits;
    if zero {
      var body := Rep('0', pad) + digits;
      assert body != "" && body[0] != ' ' && body[0] != '-' by {
        if pad > 0 { assert body[0] == '0'; } else { assert body == digits; }
      }
      assert Field(v, base, signed, upper, zero, width) == sign + body by {
        assert sign + Rep('0', pad) + digits == sign + body;
      }
      if Negative(v, signed) {
        assert ("-" + body)[1..] == body;
      } else {
        assert sign + body == body;
      }
    } else {
      var body := sign + digits;
      assert Field(v, base, signed, upper, zero, width) == Rep(' ', pad) + body by {
        assert Rep(' ', pad) + sign + digits == Rep(' ', pad) + body;
      }
      SpacesInFront(pad, body);
      if Negative(v, signed) {
        assert body[1..] == digits;
      } else {
        assert body == digits;
      }
    }
  }

  /** ... and is as long as the width asks or as sign and digits need, whichever is more. */
  lemma FieldLength(v: u32, base: nat, signed: bool, upper: bool, zero: bool, width: int)
    requires 2 <= base <= 16
    ensures var need := |Numeral(Magnitude(v, signed), base)| + (if Negative(v, signed) then 1 else 0);
            |Field(v, base, signed, upper, zero, width)| == if width > need then width else need
  {
    hide NumeralText;
    var m := Magnitude(v, signed);
    NumeralTextIs(m, base, upper);
    var pad := width - |NumeralText(m, base, upper)| - (if Negative(v, signed) then 1 else 0);
    RepLength('0', pad);
    RepLength(' ', pad);
  }

  // ---------------------------------------------------------------- two printers, one output

  /** What alt_printf understands: plain directives of three kinds. */
  predicate Simple(i: Item) {
    WellFormed(i)
    && (i.Directive? ==> !i.zero && i.width == None && i.prec == None && !i.long && i.conv in "cxs")
  }

  lemma SimpleDirective(i: Item, env: Env, next: nat)
    requires Simple(i) && i.Directive?
    ensures Written(i) == "%" + [i.conv]
    ensures var w := env.words(next);
            Rendered(i, env, next) ==
            match i.conv
              case 'c' => [(w % 256) as char]
              case 'x' => NumeralText(w, 16, false)
              case _ => env.text(w)
  {
    hide NumeralText;
    var w := env.words(next);
    assert forall c, n | n <= 0 :: Rep(c, n) == "";
    assert Field(w, 16, false, false, false, -1) == NumeralText(w, 16, false) by {
      assert "" + "" + NumeralText(w, 16, false) == NumeralText(w, 16, false);
    }
  }

  /** On formats without flags, widths and precisions alt_printf prints what the logging
      printf prints, though it finds its digits by shifting instead of dividing. */
  lemma {:induction false} PrintersAgree(items: seq<Item>, env: Env, next: nat)
    requires forall i <- items :: Simple(i)
    ensures AltScan(Format(items), env, next) == Render(items, env, next) == Scan(Format(items), Chars, env, next)
    decreases |items|
  {
    hide Scan, Rendered, Written, NumeralText, AltScan, Convert;
    MachineRendersFormats(items, env, next);
    if items == [] {
      AltNothing(env, next);
    } else {
      var i, rest := items[0], Format(items[1..]);
      assert Simple(i);
      AltItem(i, rest, env, next);
      PrintersAgree(items[1..], env, next + (if i.Directive? then 1 else 0));
    }
  }

  lemma AltNothing(env: Env, next: nat)
    ensures AltScan("", env, next) == ""
  {
  }

  lemma AltItem(i: Item, rest: string, env: Env, next: nat)
    requires Simple(i)
    ensures AltScan(Written(i) + rest, env, next) ==
            Rendered(i, env, next) + AltScan(rest, env, next + (if i.Directive? then 1 else 0))
  {
    hide Rendered, NumeralText;
    match i
    case Literal(c) =>
      RenderedSimply(i, env, next);
      assert ([c] + rest)[1..] == rest;
    case Percent =>
      RenderedSimply(i, env, next);
      assert ("%%" + rest)[2..] == rest;
    case Directive(_, _, _, _, conv) =>
      SimpleDirective(i, env, next);
      assert ("%" + [conv] + rest)[2..] == rest;
  }
}
