/**
What the conversion characters of vsnprintf print, said without the formatter's own fields: which digits, of which
base, for which value, and which argument is taken.
*/
module Conversions {
  import opened Options
  import opened Numerals
  import opened Words
  import opened Format

  // ---------- numerals ----------

  predicate IsDigitOf(c: char, base: nat, caps: bool) {
    if '0' <= c <= '9' then c as nat - '0' as nat < base
    else base == 16 && if caps then 'A' <= c <= 'F' else 'a' <= c <= 'f'
  }

  /** Digits of the base, without leading zeros. */
  predicate IsNumeral(s: string, base: nat, caps: bool) {
    s != "" && (|s| > 1 ==> s[0] != '0') && forall i :: 0 <= i < |s| ==> IsDigitOf(s[i], base, caps)
  }

  predicate IsBase(base: nat) {
    base == 8 || base == 10 || base == 16
  }

  lemma {:induction false} LeadingDigitsProper(n: nat, radix: Radix, caps: bool)
    ensures n > 0 ==> IsNumeral(LeadingDigits(n, radix, caps), radix.Base(), caps) &&
                      LeadingDigits(n, radix, caps)[0] != '0'
  {
    if n > 0 {
      LeadingDigitsProper(radix.Quotient(n), radix, caps);
    }
  }

  lemma NumeralIsProper(n: nat, radix: Radix, caps: bool)
    ensures IsNumeral(Numeral(n, radix, caps), radix.Base(), caps)
    ensures Value(Numeral(n, radix, caps), radix.Base()) == n
  {
    LeadingDigitsProper(radix.Quotient(n), radix, caps);
    NumeralValue(n, radix, caps);
  }

  lemma {:induction false} ValueIsPositive(s: string, base: nat, caps: bool)
    requires IsBase(base) && IsNumeral(s, base, caps) && s[0] != '0'
    ensures Value(s, base) > 0
  {
    if |s| > 1 {
      ValueIsPositive(s[..|s| - 1], base, caps);
    } else {
      assert Value(s[..0], base) == 0;
    }
  }

  lemma SameDigit(c: char, d: char, base: nat, caps: bool)
    requires IsBase(base) && IsDigitOf(c, base, caps) && IsDigitOf(d, base, caps)
    ensures DigitValue(c) < base && (DigitValue(c) == DigitValue(d) ==> c == d)
  {}

  lemma SameRemainder(base: nat, q: nat, r: nat, q': nat, r': nat)
    requires IsBase(base) && base * q + r == base * q' + r' && r < base && r' < base
    ensures q == q' && r == r'
  {}

  /** A numeral is determined by its value. */
  lemma {:induction false} NumeralIsUnique(a: string, b: string, base: nat, caps: bool)
    requires IsBase(base) && IsNumeral(a, base, caps) && IsNumeral(b, base, caps) && Value(a, base) == Value(b, base)
    ensures a == b
    decreases |a|
  {
    var m, n := |a| - 1, |b| - 1;
    SameDigit(a[m], b[n], base, caps);
    SameDigit(b[n], a[m], base, caps);
    SameRemainder(base, Value(a[..m], base), DigitValue(a[m]), Value(b[..n], base), DigitValue(b[n]));
    assert a == a[..m] + [a[m]] && b == b[..n] + [b[n]];
    if m > 0 { ValueIsPositive(a[..m], base, caps); }
    if n > 0 { ValueIsPositive(b[..n], base, caps); }
    if m > 0 && n > 0 {
      NumeralIsUnique(a[..m], b[..n], base, caps);
    }
  }

  // ---------- the conversion characters ----------

  /** The argument as the modifiers say, signed. */
  function SignedValue(q: Registers, w: Word): int {
    if q.short && !q.long then
      var h := w % 0x1_0000;
      if h < 0x8000 then h else h - 0x1_0000
    else if w < 0x8000_0000 then w else w - 0x1_0000_0000
  }

  function UnsignedValue(q: Registers, w: Word): nat {
    if q.short && !q.long then w % 0x1_0000 else w
  }

  function Abs(v: int): nat {
    if v < 0 then -v else v
  }

  /** The field holds the numeral of `n`, with its sign and filler where flags and width ask for them. */
  ghost predicate Shows(field: string, q: Registers, negative: bool, n: nat, base: nat, caps: bool) {
    exists body :: ShowsAs(field, q, negative, n, base, caps, body)
  }

  ghost predicate ShowsAs(field: string, q: Registers, negative: bool, n: nat, base: nat, caps: bool, body: string) {
    && IsNumeral(body, base, caps) && Value(body, base) == n
    && LaidOut(field, q.left, q.zero, q.width, negative, body)
  }

  lemma NumberShows(q: Registers, signed: bool, radix: Radix, caps: bool, w: Word)
    ensures var m := Magnitude(q, signed, w);
            Shows(NumberField(q, signed, radix, caps, w), q, m.0, m.1, radix.Base(), caps)
  {
    var m := Magnitude(q, signed, w);
    NumberFieldShape(q, signed, radix, caps, w);
    NumeralIsProper(m.1, radix, caps);
    assert ShowsAs(NumberField(q, signed, radix, caps, w), q, m.0, m.1, radix.Base(), caps, Numeral(m.1, radix, caps));
  }

  /** %d and %i print the signed value in decimal. */
  lemma SignedConversions(q: Registers, conv: char, w: Word, args: Arguments)
    requires conv == 'd' || conv == 'i'
    ensures var v := SignedValue(q, w);
            Shows(Converted(q, conv, w, args), q, v < 0, Abs(v), 10, false)
  {
    NumberShows(q, true, Decimal, false, w);
  }

  /** %u, %o, %x, %p, %n and %X print the unsigned value in their bases. */
  lemma UnsignedConversions(q: Registers, conv: char, w: Word, args: Arguments)
    requires conv in "uoxpnX"
    ensures Shows(Converted(q, conv, w, args), q, false, UnsignedValue(q, w),
                  if conv == 'u' then 10 else if conv == 'o' then 8 else 16, conv == 'X')
  {
    NumberShows(q, false, if conv == 'u' then Decimal else if conv == 'o' then Octal else Hex, conv == 'X', w);
  }

  /** %c prints the low byte, %s the string at the address, and any other character nothing. */
  lemma OtherConversions(q: Registers, conv: char, w: Word, args: Arguments)
    requires conv !in "dixXpnuo"
    ensures conv == 's' ==> LaidOut(Converted(q, conv, w, args), q.left, false, q.width, false, args.text(w))
    ensures conv == 'c' && w % 256 != 0 ==>
              LaidOut(Converted(q, conv, w, args), q.left, false, q.width, false, [(w % 256) as char])
    ensures conv != 's' && conv != 'c' ==> Converted(q, conv, w, args) == ""
  {
    StringFieldShape(q, w, args);
    CharFieldShape(q, w, args);
  }

  // ---------- single conversions ----------

  /** Without flags and width a field is sign and body. */
  lemma PlainLayout(field: string, negative: bool, body: string)
    requires LaidOut(field, false, false, 0, negative, body)
    ensures field == (if negative then "-" else "") + body
  {}

  function Halved(half: bool, conv: char): string {
    if half then ['%', 'h', conv] else ['%', conv]
  }

  /** A format of one directive. */
  lemma DirectiveAlone(d: Directive, fmt: string, render: Render)
    requires Legal(d) && fmt == Text(d)
    ensures Scan(IDLE, fmt, 0, render) == Some(Printed(d, 0, render))
  {
    assert Text(d) + "" == fmt;
    ScanDirective(d, "", 0, render);
  }

  lemma SingleConversion(half: bool, conv: char, render: Render)
    requires conv in "dixXpnuocs"
    ensures Scan(IDLE, Halved(half, conv), 0, render) == Some(render(IDLE.(state := 4, short := half), conv, 0))
  {
    DirectiveAlone(Conversion(false, false, "", if half then "h" else "", conv), Halved(half, conv), render);
  }

  /** "%d", "%i" and their forms with h: a minus sign for negative values, then the decimal numeral. */
  lemma PrintedSigned(conv: char, half: bool, args: Arguments) returns (body: string)
    requires conv == 'd' || conv == 'i'
    ensures var w := args.slot(0);
            var v := if half then (if w % 0x1_0000 < 0x8000 then w % 0x1_0000 else w % 0x1_0000 - 0x1_0000)
                     else if w < 0x8000_0000 then w else w - 0x1_0000_0000;
            && IsNumeral(body, 10, false) && Value(body, 10) == Abs(v)
            && Scan(IDLE, Halved(half, conv), 0, Rendering(args)) == Some((if v < 0 then "-" else "") + body)
  {
    var q, w := IDLE.(state := 4, short := half), args.slot(0);
    var field := Converted(q, conv, w, args);
    SignedConversions(q, conv, w, args);
    body :| ShowsAs(field, q, SignedValue(q, w) < 0, Abs(SignedValue(q, w)), 10, false, body);
    PlainLayout(field, SignedValue(q, w) < 0, body);
    SingleConversion(half, conv, Rendering(args));
  }

  /** "%u", "%o", "%x", "%p", "%n", "%X" and their forms with h: the numeral in base 10, 8 or 16. */
  lemma PrintedUnsigned(conv: char, half: bool, args: Arguments) returns (body: string)
    requires conv in "uoxpnX"
    ensures var base := if conv == 'u' then 10 else if conv == 'o' then 8 else 16;
            && IsNumeral(body, base, conv == 'X')
            && Value(body, base) == (if half then args.slot(0) % 0x1_0000 else args.slot(0))
            && Scan(IDLE, Halved(half, conv), 0, Rendering(args)) == Some(body)
  {
    var q, w := IDLE.(state := 4, short := half), args.slot(0);
    var base := if conv == 'u' then 10 else if conv == 'o' then 8 else 16;
    var field := Converted(q, conv, w, args);
    UnsignedConversions(q, conv, w, args);
    body :| ShowsAs(field, q, false, UnsignedValue(q, w), base, conv == 'X', body);
    PlainLayout(field, false, body);
    SingleConversion(half, conv, Rendering(args));
    assert "" + body == body;
  }

  /** "%s" prints the string at the address. */
  lemma PrintedString(args: Arguments)
    ensures Scan(IDLE, "%s", 0, Rendering(args)) == Some(args.text(args.slot(0)))
  {
    var q, body := IDLE.(state := 4), args.text(args.slot(0));
    SingleConversion(false, 's', Rendering(args));
    assert Halved(false, 's') == "%s";
    StringFieldShape(q, args.slot(0), args);
    PlainLayout(Converted(q, 's', args.slot(0), args), false, body);
    assert "" + body == body;
  }

  /** "%c" prints the low byte, if it is not zero. */
  lemma PrintedCharacter(args: Arguments)
    requires args.slot(0) % 256 != 0
    ensures Scan(IDLE, "%c", 0, Rendering(args)) == Some([(args.slot(0) % 256) as char])
  {
    var q, body := IDLE.(state := 4), [(args.slot(0) % 256) as char];
    SingleConversion(false, 'c', Rendering(args));
    assert Halved(false, 'c') == "%c";
    OtherConversions(q, 'c', args.slot(0), args);
    PlainLayout(Converted(q, 'c', args.slot(0), args), false, body);
    assert "" + body == body;
  }

  // ---------- arguments and modifiers ----------

  lemma TwoConversions(c: char, render: Render)
    requires c !in "%-FNlh" && !('0' <= c <= '9')
    ensures Scan(IDLE, ['%', c, '%', 'u'], 0, render) ==
            Then(render(IDLE.(state := 4), c, 0),
                 Some(render(IDLE.(state := 4), 'u', if TakesArgument(c) then 1 else 0)))
  {
    var d, e := Conversion(false, false, "", "", c), Conversion(false, false, "", "", 'u');
    assert Text(d) + "%u" == ['%', c, '%', 'u'] && Text(e) + "" == "%u";
    ScanDirective(d, "%u", 0, render);
    ScanDirective(e, "", Uses(d), render);
  }

  /** Exactly these ten characters take an argument: what follows them gets the next one. */
  lemma NextArgument(c: char, render: Render)
    requires c !in "%-FNlh" && !('0' <= c <= '9')
    ensures Scan(IDLE, ['%', c, '%', 'u'], 0, render) ==
            Some(render(IDLE.(state := 4), c, 0) + render(IDLE.(state := 4), 'u', if c in "Xxpndiuocs" then 1 else 0))
  {
    TwoConversions(c, render);
  }

  lemma AllModifiers(ms: string)
    requires forall i :: 0 <= i < |ms| ==> ms[i] in "FNlh"
    ensures forall c :: c in ms ==> IsModifier(c)
  {}

  lemma ModifierText(ms: string, conv: char)
    ensures Text(Conversion(false, false, "", ms, conv)) == "%" + ms + [conv]
  {
    assert Prefix(false, false, "", ms) == ms;
  }

  /** F and N change nothing, l asks for all 32 bits, h for 16 unless l is there. */
  lemma ModifierMeanings(ms: string, conv: char, fmt: string, render: Render)
    requires (forall i :: 0 <= i < |ms| ==> ms[i] in "FNlh") && conv in "dixXpnuocs" && fmt == "%" + ms + [conv]
    ensures Scan(IDLE, fmt, 0, render) ==
            Some(render(Registers(4, false, false, 0, 'l' in ms, 'h' in ms), conv, 0))
  {
    AllModifiers(ms);
    ModifierText(ms, conv);
    DirectiveAlone(Conversion(false, false, "", ms, conv), fmt, render);
  }

  // ---------- examples ----------

  /** A flag, a width of five, a conversion. */
  lemma FlaggedConversion(left: bool, zero: bool, conv: char, fmt: string, render: Render)
    requires conv in "dixXpnuocs"
    requires fmt == "%" + (if left then "-" else "") + (if zero then "0" else "") + "5" + [conv]
    ensures Scan(IDLE, fmt, 0, render) == Some(render(Registers(4, left, zero, 5, false, false), conv, 0))
  {
    assert Value("5", 10) == 5 by { assert "5"[..0] == ""; }
    assert fmt == "%" + Prefix(left, zero, "5", "") + [conv];
    DirectiveAlone(Conversion(left, zero, "5", "", conv), fmt, render);
  }

  lemma Numeral42()
    ensures Numeral(42, Decimal, false) == "42"
  {}

  lemma FilledTwice(c: char)
    ensures Fill(c, 2) == [c, c]
  {
    assert Fill(c, 1) == [c];
  }

  /** Minus 42 in a field of five. */
  lemma MinusFortyTwo(left: bool, zero: bool, args: Arguments)
    requires args.slot(0) == 0xFFFF_FFD6
    ensures Converted(Registers(4, left, zero, 5, false, false), 'd', args.slot(0), args) ==
            if left then "-42  " else if zero then "-0042" else "  -42"
  {
    var q := Registers(4, left, zero, 5, false, false);
    assert Magnitude(q, true, 0xFFFF_FFD6) == (true, 42);
    Numeral42();
    FilledTwice(' ');
    FilledTwice('0');
    assert Field(left, zero, 5, true, "42", 2) == if left then "-42  " else if zero then "-0042" else "  -42";
  }

  /** The dash, the zero flag, both and none. */
  lemma FieldsOfFive(args: Arguments, left: bool, zero: bool, fmt: string)
    requires args.slot(0) == 0xFFFF_FFD6
    requires fmt == if left then (if zero then "%-05d" else "%-5d") else if zero then "%05d" else "%5d"
    ensures Scan(IDLE, fmt, 0, Rendering(args)) == Some(if left then "-42  " else if zero then "-0042" else "  -42")
  {
    FlaggedConversion(left, zero, 'd', fmt, Rendering(args));
    MinusFortyTwo(left, zero, args);
  }

  /** Formats that break off: a bare % and the zero flag overrun the end, anything else prints nothing. */
  lemma BrokenFormats(render: Render)
    ensures Scan(IDLE, "%", 0, render) == None == Scan(IDLE, "%0", 0, render)
    ensures Scan(IDLE, "%-", 0, render) == Scan(IDLE, "%5", 0, render) == Scan(IDLE, "%l", 0, render) == Some("")
  {}

  lemma LiteralInFront(c: char, rest: string, fmt: string, out: string, all: string, render: Render)
    requires c != '%' && fmt == [c] + rest && all == [c] + out && Scan(IDLE, rest, 0, render) == Some(out)
    ensures Scan(IDLE, fmt, 0, render) == Some(all)
  {
    ScanDirective(Literal(c), rest, 0, render);
  }

  lemma PercentInFront(rest: string, fmt: string, out: string, all: string, render: Render)
    requires fmt == "%%" + rest && all == "%" + out && Scan(IDLE, rest, 0, render) == Some(out)
    ensures Scan(IDLE, fmt, 0, render) == Some(all)
  {
    assert Text(Percent(false)) + rest == fmt;
    ScanDirective(Percent(false), rest, 0, render);
  }

  lemma NothingInFront(rest: string, fmt: string, render: Render)
    requires fmt == "%--" + rest
    ensures Scan(IDLE, fmt, 0, render) == Scan(IDLE, rest, 0, render)
  {
    ScanDirective(Discarded, rest, 0, render);
  }

  /** Text, a doubled percent sign, and a cancelled conversion. */
  lemma LiteralText(render: Render)
    ensures Scan(IDLE, "a%%b%--c", 0, render) == Some("a%bc")
  {
    LiteralInFront('c', "", "c", "", "c", render);
    NothingInFront("c", "%--c", render);
    LiteralInFront('b', "%--c", "b%--c", "c", "bc", render);
    PercentInFront("b%--c", "%%b%--c", "bc", "%bc", render);
    LiteralInFront('a', "%%b%--c", "a%%b%--c", "%bc", "a%bc", render);
  }
}
