/**
vsnprintf.  `Scan` is what the five-state machine still prints from given registers; the method runs the
machine itself.  Directives give the format language on its own terms: their text and what they print.
*/
module Format {
  import opened Options
  import opened Numerals
  import opened Words

  /** The variable arguments as consecutive 32-bit slots, and the strings that addresses denote. */
  datatype Arguments = Arguments(slot: nat -> Word, text: Word -> CString)

  // ---------- one converted field ----------

  function Fill(c: char, n: nat): (s: string)
    ensures |s| == n && forall i :: 0 <= i < n ==> s[i] == c
  {
    if n == 0 then "" else [c] + Fill(c, n - 1)
  }

  function Sign(negative: bool): string {
    if negative then "-" else ""
  }

  /** `natural` characters are accounted for the body and one more for the sign. */
  function Field(left: bool, zero: bool, width: nat, negative: bool, body: string, natural: nat): string {
    var sign := Sign(negative);
    var needed := natural + |sign|;
    var pad := if width > needed then width - needed else 0;
    if left then sign + body + Fill(' ', pad)
    else if zero then sign + Fill('0', pad) + body
    else Fill(' ', pad) + sign + body
  }

  /** The machine's registers between two characters of the format. */
  datatype Registers = Registers(state: nat, left: bool, zero: bool, width: Word, long: bool, short: bool)

  const IDLE := Registers(0, false, false, 0, false, false)

  /** Sign and magnitude of a numeric argument. */
  function Magnitude(q: Registers, signed: bool, w: Word): (m: (bool, Word)) {
    if !q.long && q.short then
      var half := w % 0x1_0000;
      if signed && half >= 0x8000 then (true, 0x1_0000 - half) else (false, half)
    else
      if signed && w >= 0x8000_0000 then (true, WORD - w) else (false, w)
  }

  predicate TakesArgument(conv: char) {
    conv in {'X', 'x', 'p', 'n', 'd', 'i', 'u', 'o', 'c', 's'}
  }

  function NumberField(q: Registers, signed: bool, radix: Radix, caps: bool, w: Word): string {
    var (negative, n) := Magnitude(q, signed, w);
    var digits := Numeral(n, radix, caps);
    Field(q.left, q.zero, q.width, negative, digits, |digits|)
  }

  /** The low byte as a character; a zero byte prints nothing. */
  function CharBody(w: Word): (s: string)
    ensures '\0' !in s && |s| == if w % 256 == 0 then 0 else 1
  {
    if w % 256 == 0 then "" else [(w % 256) as char]
  }

  /** What the conversion `conv` prints; an unknown one prints nothing. */
  function Converted(q: Registers, conv: char, w: Word, args: Arguments): string {
    if conv == 'X' then NumberField(q, false, Hex, true, w)
    else if conv == 'x' || conv == 'p' || conv == 'n' then NumberField(q, false, Hex, false, w)
    else if conv == 'd' || conv == 'i' then NumberField(q, true, Decimal, false, w)
    else if conv == 'u' then NumberField(q, false, Decimal, false, w)
    else if conv == 'o' then NumberField(q, false, Octal, false, w)
    else if conv == 'c' then
      Field(q.left, false, q.width, false, CharBody(w), 1)
    else if conv == 's' then Field(q.left, false, q.width, false, args.text(w), |args.text(w)|)
    else ""
  }

  lemma FieldHasNoNul(left: bool, zero: bool, width: nat, negative: bool, body: string, natural: nat)
    requires '\0' !in body
    ensures '\0' !in Field(left, zero, width, negative, body, natural)
  {}

  lemma NumberFieldHasNoNul(q: Registers, signed: bool, radix: Radix, caps: bool, w: Word)
    ensures '\0' !in NumberField(q, signed, radix, caps, w)
  {
    var m := Magnitude(q, signed, w);
    FieldHasNoNul(q.left, q.zero, q.width, m.0, Numeral(m.1, radix, caps), |Numeral(m.1, radix, caps)|);
  }

  /** No conversion writes a NUL: %c of a zero byte writes nothing. */
  lemma ConvertedHasNoNul(q: Registers, conv: char, w: Word, args: Arguments)
    ensures '\0' !in Converted(q, conv, w, args)
  {
    match conv {
      case 'X' => NumberFieldHasNoNul(q, false, Hex, true, w);
      case 'x' | 'p' | 'n' => NumberFieldHasNoNul(q, false, Hex, false, w);
      case 'd' | 'i' => NumberFieldHasNoNul(q, true, Decimal, false, w);
      case 'u' => NumberFieldHasNoNul(q, false, Decimal, false, w);
      case 'o' => NumberFieldHasNoNul(q, false, Octal, false, w);
      case 'c' => FieldHasNoNul(q.left, false, q.width, false, CharBody(w), 1);
      case 's' => FieldHasNoNul(q.left, false, q.width, false, args.text(w), |args.text(w)|);
      case _ =>
    }
  }

  /** Appends `n` copies of `c`. */
  method Pad(str: string, c: char, n: nat) returns (r: string)
    ensures r == str + Fill(c, n)
  {
    r := str;
    var left: nat := n;
    while left > 0
      invariant left <= n && r + Fill(c, left) == str + Fill(c, n)
    {
      r := r + [c];
      left := left - 1;
    }
  }

  /** Sign and left padding: what stands in front of the body, and the width still open. */
  method EmitFront(left: bool, zero: bool, width: nat, negative: bool, actual_wd: nat)
      returns (str: string, given_wd: nat)
    ensures var sign := Sign(negative);
            var pad := if !left && width > actual_wd then width - actual_wd else 0;
            && str == (if zero then sign + Fill('0', pad) else Fill(' ', pad) + sign)
            && given_wd == width - pad
  {
    str, given_wd := "", width;
    if negative && zero {
      str := "-";
    }
    if !left && given_wd > actual_wd {
      str := Pad(str, if zero then '0' else ' ', given_wd - actual_wd);
      given_wd := actual_wd;
    }
    if negative && !zero {
      str := str + ['-'];
    }
  }

  method CopyBody(front: string, body: string) returns (str: string)
    ensures str == front + body
  {
    str := front;
    var where := 0;
    while where < |body|
      invariant where <= |body| && str == front + body[..where]
    {
      str := str + [body[where]];
      where := where + 1;
    }
    assert body[..where] == body;
  }

  /** A field as front, body and right padding. */
  lemma FieldParts(left: bool, zero: bool, width: nat, negative: bool, body: string, natural: nat)
    ensures var needed := natural + |Sign(negative)|;
            var pad := if width > needed then width - needed else 0;
            var before := if left then 0 else pad;
            var front := if zero then Sign(negative) + Fill('0', before) else Fill(' ', before) + Sign(negative);
            Field(left, zero, width, negative, body, natural) == front + body + Fill(' ', pad - before)
  {
    assert Fill('0', 0) == "" && Fill(' ', 0) == "";
  }

  /** The padding and copying that print one field. */
  method Emit(left: bool, zero: bool, width: nat, negative: bool, body: string, natural: nat) returns (str: string)
    ensures str == Field(left, zero, width, negative, body, natural)
  {
    FieldParts(left, zero, width, negative, body, natural);
    var actual_wd := if negative then natural + 1 else natural;
    var given_wd;
    str, given_wd := EmitFront(left, zero, width, negative, actual_wd);
    str := CopyBody(str, body);
    if given_wd < actual_wd {
      given_wd := 0;
    } else {
      given_wd := given_wd - actual_wd;
    }
    str := Pad(str, ' ', given_wd);
  }

  // ---------- the machine ----------

  /** What a conversion character prints, given the registers and the index of the next argument. */
  type Render = (Registers, char, nat) -> string

  function Rendering(args: Arguments): Render {
    (q: Registers, conv: char, k: nat) => Converted(q, conv, args.slot(k), args)
  }

  function Then(s: string, rest: Option<string>): (r: Option<string>)
    ensures s == "" ==> r == rest
    ensures rest == Some("") ==> r == Some(s)
  {
    if rest.Some? then
      assert "" + rest.value == rest.value && s + "" == s;
      Some(s + rest.value)
    else None
  }

  predicate IsModifier(c: char) {
    c == 'F' || c == 'N' || c == 'l' || c == 'h'
  }

  /** What is printed from registers `q` at the top of the loop, with `s` still to be read and argument
      `k` next.  None: the scan runs past the end of the format. */
  function Scan(q: Registers, s: string, k: nat, render: Render): Option<string>
    requires q.state <= 3
    decreases |s|, 5
  {
    if s == "" then Some("")
    else if q.state > 0 then Fall(q, s, k, render)
    else if s[0] != '%' then Then([s[0]], Scan(q, s[1..], k, render))
    else Fall(q.(state := 1), s[1..], k, render)
  }

  /** The same in the middle of the switch, where the end of the format is not noticed. */
  function Fall(q: Registers, s: string, k: nat, render: Render): Option<string>
    requires 1 <= q.state <= 4
    decreases |s|, 4 - q.state
  {
    if s == "" then None
    else
      var c := s[0];
      if q.state == 1 then
        if c == '%' then Then("%", Scan(IDLE, s[1..], k, render))
        else if c == '-' then Scan(if q.left then IDLE else q.(left := true), s[1..], k, render)
        else if c == '0' then Fall(q.(state := 2, zero := true), s[1..], k, render)
        else Fall(q.(state := 2), s, k, render)
      else if q.state == 2 then
        if IsDecimal(c) then Scan(q.(width := Wrap(10 * q.width + DigitValue(c))), s[1..], k, render)
        else Fall(q.(state := 3), s, k, render)
      else if q.state == 3 then
        if IsModifier(c) then Scan(q.(long := q.long || c == 'l', short := q.short || c == 'h'), s[1..], k, render)
        else Fall(q.(state := 4), s, k, render)
      else
        Then(render(q, c, k),
             Scan(IDLE, s[1..], if TakesArgument(c) then k + 1 else k, render))
  }

  method ConvertNumeric(q: Registers, signed: bool, radix: Radix, caps: bool, w: Word) returns (str: string)
    ensures str == NumberField(q, signed, radix, caps, w)
  {
    var m := Magnitude(q, signed, w);
    var buf := new char[BUFLEN];
    var start := ConvertNumber(m.1, radix, caps, buf);
    ghost var numeral := Numeral(m.1, radix, caps);
    var digits := buf[start..BUFLEN - 1];
    assert digits == numeral by {
      assert buf[start..] == digits + [buf[BUFLEN - 1]];
    }
    str := Emit(q.left, q.zero, q.width, m.0, digits, |digits|);
  }

  /** State 4: the conversion characters. */
  method Convert(q: Registers, conv: char, w: Word, args: Arguments) returns (str: string)
    ensures str == Converted(q, conv, w, args) && '\0' !in str
  {
    ConvertedHasNoNul(q, conv, w, args);
    match conv {
      case 'X' => str := ConvertNumeric(q, false, Hex, true, w);
      case 'x' | 'p' | 'n' => str := ConvertNumeric(q, false, Hex, false, w);
      case 'd' | 'i' => str := ConvertNumeric(q, true, Decimal, false, w);
      case 'u' => str := ConvertNumeric(q, false, Decimal, false, w);
      case 'o' => str := ConvertNumeric(q, false, Octal, false, w);
      case 'c' =>
        str := Emit(q.left, false, q.width, false, CharBody(w), 1);
      case 's' => str := Emit(q.left, false, q.width, false, args.text(w), |args.text(w)|);
      case _ => str := "";
    }
  }

  lemma ThenTwice(a: string, b: string, rest: Option<string>)
    ensures Then(a, Then(b, rest)) == Then(a + b, rest)
  {
    if rest.Some? {
      assert a + (b + rest.value) == (a + b) + rest.value;
    }
  }

  /** One pass through the switch with a character at hand: new registers, how far the format pointer
      moved, the next argument, and what was written.  `over`: the pointer met the end on the way. */
  method Switch(q0: Registers, s: string, k0: nat, args: Arguments)
      returns (over: bool, q: Registers, moved: nat, k: nat, str: string)
    requires s != "" && q0.state <= 3 && (q0.state == 0 ==> q0 == IDLE)
    ensures '\0' !in s ==> '\0' !in str
    ensures over ==> Scan(q0, s, k0, Rendering(args)) == None
    ensures !over ==> 0 < moved <= |s| && q.state <= 3 && (q.state == 0 ==> q == IDLE)
    ensures !over ==> Scan(q0, s, k0, Rendering(args)) == Then(str, Scan(q, s[moved..], k, Rendering(args)))
  {
    over, q, moved, k, str := false, q0, 0, k0, "";
    if q.state == 0 {
      if s[0] != '%' {
        return false, q, 1, k, [s[0]];
      }
      q, moved := q.(state := 1), 1;
      if |s| == 1 {
        return true, q, moved, k, str;
      }
    }
    over, q, moved, k, str := SwitchFlags(q, s, moved, k, args);
  }

  /** State 1: flags. */
  method SwitchFlags(q0: Registers, s: string, at: nat, k0: nat, args: Arguments)
      returns (over: bool, q: Registers, moved: nat, k: nat, str: string)
    requires at < |s| && 1 <= q0.state <= 3
    ensures '\0' !in str
    ensures over ==> Fall(q0, s[at..], k0, Rendering(args)) == None
    ensures !over ==> 0 < moved <= |s| && q.state <= 3 && (q.state == 0 ==> q == IDLE)
    ensures !over ==> Fall(q0, s[at..], k0, Rendering(args)) == Then(str, Scan(q, s[moved..], k, Rendering(args)))
  {
    q, moved, k, str := q0, at, k0, "";
    if q.state == 1 {
      assert s[at..][1..] == s[at + 1..];
      if s[at] == '%' {
        return false, IDLE, at + 1, k, "%";
      }
      if s[at] == '-' {
        return false, if q.left then IDLE else q.(left := true), at + 1, k, "";
      }
      q := q.(state := 2);
      if s[at] == '0' {
        q, moved := q.(zero := true), at + 1;
        if moved == |s| {
          return true, q, moved, k, "";
        }
      }
    }
    over := false;
    q, moved, k, str := SwitchRest(q, s, moved, k, args);
  }

  /** States 2 to 4: width, modifiers, conversion. */
  method SwitchRest(q0: Registers, s: string, at: nat, k0: nat, args: Arguments)
      returns (q: Registers, moved: nat, k: nat, str: string)
    requires at < |s| && 2 <= q0.state <= 3
    ensures '\0' !in str
    ensures moved == at + 1 && q.state <= 3 && (q.state == 0 ==> q == IDLE)
    ensures Fall(q0, s[at..], k0, Rendering(args)) == Then(str, Scan(q, s[moved..], k, Rendering(args)))
  {
    assert s[at..][1..] == s[at + 1..];
    var c := s[at];
    if q0.state == 2 && IsDecimal(c) {
      return q0.(width := Wrap(10 * q0.width + DigitValue(c))), at + 1, k0, "";
    }
    q := q0.(state := 3);
    assert Fall(q0, s[at..], k0, Rendering(args)) == Fall(q, s[at..], k0, Rendering(args));
    q, k, str := SwitchConversion(q, c, s[at + 1..], k0, args);
    assert s[at..] == [c] + s[at + 1..];
    moved := at + 1;
  }

  /** States 3 and 4 at the character `c`. */
  method SwitchConversion(q0: Registers, c: char, rest: string, k0: nat, args: Arguments)
      returns (q: Registers, k: nat, str: string)
    requires q0.state == 3
    ensures '\0' !in str && q.state <= 3 && (q.state == 0 ==> q == IDLE)
    ensures Fall(q0, [c] + rest, k0, Rendering(args)) == Then(str, Scan(q, rest, k, Rendering(args)))
  {
    assert ([c] + rest)[1..] == rest;
    if IsModifier(c) {
      return q0.(long := q0.long || c == 'l', short := q0.short || c == 'h'), k0, "";
    }
    q := q0.(state := 4);
    assert Fall(q0, [c] + rest, k0, Rendering(args)) == Fall(q, [c] + rest, k0, Rendering(args));
    str := Convert(q, c, args.slot(k0), args);
    k := if TakesArgument(c) then k0 + 1 else k0;
    q := IDLE;
  }

  /** The scanning loop.  The characters written and their count; None when the scan leaves the format. */
  method Vsnprintf(fmt: CString, args: Arguments) returns (str: Option<string>, count: Word)
    ensures str == Scan(IDLE, fmt, 0, Rendering(args))
    ensures str.Some? ==> count == Wrap(|str.value|) && '\0' !in str.value
  {
    var out, q, i, k := "", IDLE, 0, 0;
    count := 0;
    assert fmt[0..] == fmt;
    while i < |fmt|
      invariant i <= |fmt| && q.state <= 3 && (q.state == 0 ==> q == IDLE)
      invariant Scan(IDLE, fmt, 0, Rendering(args)) == Then(out, Scan(q, fmt[i..], k, Rendering(args)))
      invariant count == Wrap(|out|) && '\0' !in out
    {
      var over, q', moved, k', field := Switch(q, fmt[i..], k, args);
      if over {
        return None, count;
      }
      assert fmt[i..][moved..] == fmt[i + moved..];
      ThenTwice(out, field, Scan(q', fmt[i + moved..], k', Rendering(args)));
      WrapAdd(|out|, |field|);
      out, count := out + field, Wrap(count + |field|);
      q, i, k := q', i + moved, k';
    }
    return Some(out), count;
  }

  // ---------- the format language ----------

  /** The pieces a format string is made of. */
  datatype Directive =
    | Literal(c: char)
    | Percent(left: bool)
    | Discarded
    | Conversion(left: bool, zero: bool, digits: string, modifiers: string, conv: char)

  function Mark(present: bool, c: char): string {
    if present then [c] else ""
  }

  /** How a directive is written. */
  function Text(d: Directive): string {
    match d
    case Literal(c) => [c]
    case Percent(left) => "%" + Mark(left, '-') + "%"
    case Discarded => "%--"
    case Conversion(left, zero, digits, modifiers, conv) => "%" + Prefix(left, zero, digits, modifiers) + [conv]
  }

  function Prefix(left: bool, zero: bool, digits: string, modifiers: string): string {
    Mark(left, '-') + Mark(zero, '0') + digits + modifiers
  }

  predicate PrefixOk(zero: bool, digits: string, modifiers: string) {
    && (forall c :: c in digits ==> IsDecimal(c))
    && (forall c :: c in modifiers ==> IsModifier(c))
    && (!zero && digits != "" ==> digits[0] != '0')
  }

  /** What makes the written form unambiguous. */
  predicate Legal(d: Directive) {
    match d
    case Literal(c) => c != '%'
    case Percent(_) => true
    case Discarded => true
    case Conversion(left, zero, digits, modifiers, conv) =>
      && PrefixOk(zero, digits, modifiers)
      && !IsModifier(conv)
      && (modifiers == "" ==> !IsDecimal(conv))
      && (!zero && digits == "" && modifiers == "" ==> conv != '%' && conv != '-')
  }

  /** What a directive prints when argument `k` is next. */
  function Printed(d: Directive, k: nat, render: Render): string {
    match d
    case Literal(c) => [c]
    case Percent(_) => "%"
    case Discarded => ""
    case Conversion(left, zero, digits, modifiers, conv) =>
      render(Settings(left, zero, digits, modifiers), conv, k)
  }

  function Settings(left: bool, zero: bool, digits: string, modifiers: string): Registers {
    Registers(4, left, zero, Wrap(Value(digits, 10)), 'l' in modifiers, 'h' in modifiers)
  }

  function Uses(d: Directive): nat {
    if d.Conversion? && TakesArgument(d.conv) then 1 else 0
  }

  lemma {:induction false} ScanModifiers(q: Registers, modifiers: string, tail: string, k: nat, render: Render)
    requires q.state == 3 && tail != "" && forall c :: c in modifiers ==> IsModifier(c)
    ensures Fall(q, modifiers + tail, k, render) ==
            Fall(q.(long := q.long || 'l' in modifiers, short := q.short || 'h' in modifiers), tail, k, render)
    decreases |modifiers|
  {
    if modifiers == "" {
      assert modifiers + tail == tail;
    } else {
      var c, rest := modifiers[0], modifiers[1..];
      assert (modifiers + tail)[1..] == rest + tail;
      ScanModifiers(q.(long := q.long || c == 'l', short := q.short || c == 'h'), rest, tail, k, render);
      assert modifiers == [c] + rest;
    }
  }

  /** Reading one digit of the width. */
  lemma DigitStep(q: Registers, before: string, c: char, s: string, k: nat, render: Render)
    requires q.state == 2 && q.width == Wrap(Value(before, 10)) && IsDecimal(c)
    ensures Fall(q, [c] + s, k, render) == Scan(q.(width := Wrap(Value(before + [c], 10))), s, k, render)
  {
    assert ([c] + s)[1..] == s;
    assert (before + [c])[..|before|] == before;
    WidthStep(Value(before, 10), DigitValue(c));
  }

  lemma {:induction false} ScanDigits(q: Registers, before: string, digits: string, tail: string,
                                      k: nat, render: Render)
    requires q.state == 2 && tail != "" && q.width == Wrap(Value(before, 10))
    requires forall c :: c in digits ==> IsDecimal(c)
    ensures Fall(q, digits + tail, k, render) ==
            Fall(q.(width := Wrap(Value(before + digits, 10))), tail, k, render)
    decreases |digits|
  {
    if digits == "" {
      assert digits + tail == tail && before + digits == before;
    } else {
      var c, rest := digits[0], digits[1..];
      var q' := q.(width := Wrap(Value(before + [c], 10)));
      assert digits + tail == [c] + (rest + tail);
      assert before + [c] + rest == before + digits;
      calc {
        Fall(q, [c] + (rest + tail), k, render);
        { DigitStep(q, before, c, rest + tail, k, render); }
        Scan(q', rest + tail, k, render);
        { assert rest + tail != ""; }
        Fall(q', rest + tail, k, render);
        { ScanDigits(q', before + [c], rest, tail, k, render); }
        Fall(q'.(width := Wrap(Value(before + [c] + rest, 10))), tail, k, render);
      }
    }
  }

  lemma WidthStep(v: nat, d: nat)
    ensures Wrap(10 * Wrap(v) + d) == Wrap(10 * v + d)
  {
    WrapMul(v, 10);
    WrapAdd(10 * Wrap(v), d);
    WrapAdd(10 * v, d);
  }

  lemma StartStep(s: string, k: nat, render: Render)
    ensures Scan(IDLE, "%" + s, k, render) == Fall(IDLE.(state := 1), s, k, render)
  {
    assert ("%" + s)[1..] == s;
  }

  lemma DashStep(left: bool, s: string, k: nat, render: Render)
    requires s != ""
    ensures Fall(IDLE.(state := 1), Mark(left, '-') + s, k, render) ==
            Fall(IDLE.(state := 1, left := left), s, k, render)
  {
    if left {
      assert ("-" + s)[1..] == s;
    } else {
      assert "" + s == s;
    }
  }

  lemma PercentStep(q: Registers, s: string, k: nat, render: Render)
    requires q.state == 1
    ensures Fall(q, "%" + s, k, render) == Then("%", Scan(IDLE, s, k, render))
  {
    assert ("%" + s)[1..] == s;
  }

  lemma SecondDashStep(q: Registers, s: string, k: nat, render: Render)
    requires q.state == 1 && q.left
    ensures Fall(q, "-" + s, k, render) == Scan(IDLE, s, k, render)
  {
    assert ("-" + s)[1..] == s;
  }

  lemma ConversionStep(q: Registers, conv: char, s: string, k: nat, render: Render)
    requires q.state == 4
    ensures Fall(q, [conv] + s, k, render) ==
            Then(render(q, conv, k), Scan(IDLE, s, if TakesArgument(conv) then k + 1 else k, render))
  {
    assert ([conv] + s)[1..] == s;
  }

  /** State 1 ends at the zero flag or at the first character that is no flag. */
  lemma ZeroStep(q: Registers, zero: bool, s: string, k: nat, render: Render)
    requires q.state == 1 && !q.zero && s != ""
    requires !zero ==> s[0] != '%' && s[0] != '-' && s[0] != '0'
    ensures Fall(q, Mark(zero, '0') + s, k, render) == Fall(q.(state := 2, zero := zero), s, k, render)
  {
    if zero {
      assert ("0" + s)[1..] == s;
    } else {
      assert "" + s == s;
    }
  }

  /** What may follow the flags, the width and the modifiers. */
  predicate Follows(zero: bool, digits: string, modifiers: string, tail: string) {
    && PrefixOk(zero, digits, modifiers) && tail != "" && !IsModifier(tail[0])
    && (modifiers == "" ==> !IsDecimal(tail[0]))
    && (!zero && digits == "" && modifiers == "" ==> tail[0] != '%' && tail[0] != '-')
  }

  lemma AfterFlags(digits: string, modifiers: string, tail: string)
    requires Follows(false, digits, modifiers, tail)
    ensures var c := (digits + (modifiers + tail))[0]; c != '%' && c != '-' && c != '0'
  {
    if digits != "" {
      assert digits[0] in digits;
    } else if modifiers != "" {
      assert modifiers[0] in modifiers;
    }
  }

  /** Leaving the width: the next character is no digit. */
  lemma LeaveWidth(q: Registers, s: string, k: nat, render: Render)
    requires q.state == 2 && s != "" && !IsDecimal(s[0])
    ensures Fall(q, s, k, render) == Fall(q.(state := 3), s, k, render)
  {}

  /** Width, then modifiers. */
  lemma ScanWidthAndModifiers(q: Registers, zero: bool, digits: string, modifiers: string, tail: string,
                              k: nat, render: Render)
    requires q.state == 2 && q.width == 0 && !q.long && !q.short && Follows(zero, digits, modifiers, tail)
    ensures Fall(q, digits + (modifiers + tail), k, render) ==
            Fall(Settings(q.left, q.zero, digits, modifiers).(state := 3), tail, k, render)
  {
    var s := modifiers + tail;
    assert "" + digits == digits;
    var q2 := q.(width := Wrap(Value(digits, 10)));
    assert !IsDecimal(s[0]) by {
      if modifiers != "" { assert modifiers[0] in modifiers; }
    }
    calc {
      Fall(q, digits + s, k, render);
      { ScanDigits(q, "", digits, s, k, render); }
      Fall(q2, s, k, render);
      { LeaveWidth(q2, s, k, render); }
      Fall(q2.(state := 3), s, k, render);
      { ScanModifiers(q2.(state := 3), modifiers, tail, k, render); }
      Fall(Settings(q.left, q.zero, digits, modifiers).(state := 3), tail, k, render);
    }
  }

  /** Everything between the % and the conversion character only loads the registers. */
  lemma ScanPrefix(left: bool, zero: bool, digits: string, modifiers: string, tail: string, k: nat, render: Render)
    requires Follows(zero, digits, modifiers, tail)
    ensures Fall(IDLE.(state := 1), Prefix(left, zero, digits, modifiers) + tail, k, render) ==
            Fall(Settings(left, zero, digits, modifiers), tail, k, render)
  {
    var s2 := digits + (modifiers + tail);
    var s1 := Mark(zero, '0') + s2;
    assert Prefix(left, zero, digits, modifiers) + tail == Mark(left, '-') + s1;
    DashStep(left, s1, k, render);
    if !zero {
      AfterFlags(digits, modifiers, tail);
    }
    ZeroStep(IDLE.(state := 1, left := left), zero, s2, k, render);
    ScanWidthAndModifiers(IDLE.(state := 2, left := left, zero := zero), zero, digits, modifiers, tail, k, render);
  }

  lemma ScanPercent(left: bool, rest: string, k: nat, render: Render)
    ensures Scan(IDLE, Text(Percent(left)) + rest, k, render) == Then("%", Scan(IDLE, rest, k, render))
  {
    var s := Mark(left, '-') + ("%" + rest);
    assert Text(Percent(left)) + rest == "%" + s;
    StartStep(s, k, render);
    DashStep(left, "%" + rest, k, render);
    PercentStep(IDLE.(state := 1, left := left), rest, k, render);
  }

  lemma ScanDiscarded(rest: string, k: nat, render: Render)
    ensures Scan(IDLE, Text(Discarded) + rest, k, render) == Scan(IDLE, rest, k, render)
  {
    var s := Mark(true, '-') + ("-" + rest);
    assert Text(Discarded) + rest == "%" + s;
    StartStep(s, k, render);
    DashStep(true, "-" + rest, k, render);
    SecondDashStep(IDLE.(state := 1, left := true), rest, k, render);
  }

  lemma ScanConversion(d: Directive, rest: string, k: nat, render: Render)
    requires d.Conversion? && Legal(d)
    ensures Scan(IDLE, Text(d) + rest, k, render) == Then(Printed(d, k, render), Scan(IDLE, rest, k + Uses(d), render))
  {
    var tail := [d.conv] + rest;
    var prefix := Prefix(d.left, d.zero, d.digits, d.modifiers);
    assert Text(d) + rest == "%" + (prefix + tail);
    StartStep(prefix + tail, k, render);
    ScanPrefix(d.left, d.zero, d.digits, d.modifiers, tail, k, render);
    ConversionStep(Settings(d.left, d.zero, d.digits, d.modifiers), d.conv, rest, k, render);
  }

  /** The machine handles one directive and is idle again. */
  lemma ScanDirective(d: Directive, rest: string, k: nat, render: Render)
    requires Legal(d)
    ensures Scan(IDLE, Text(d) + rest, k, render) == Then(Printed(d, k, render), Scan(IDLE, rest, k + Uses(d), render))
  {
    match d
    case Literal(c) => assert (Text(d) + rest)[1..] == rest;
    case Percent(left) => ScanPercent(left, rest, k, render);
    case Discarded => ScanDiscarded(rest, k, render);
    case Conversion(_, _, _, _, _) => ScanConversion(d, rest, k, render);
  }

  // ---------- whole formats ----------

  function Texts(ds: seq<Directive>): string {
    if ds == [] then "" else Text(ds[0]) + Texts(ds[1..])
  }

  function PrintedAll(ds: seq<Directive>, k: nat, render: Render): string {
    if ds == [] then "" else Printed(ds[0], k, render) + PrintedAll(ds[1..], k + Uses(ds[0]), render)
  }

  function UsesAll(ds: seq<Directive>): nat {
    if ds == [] then 0 else Uses(ds[0]) + UsesAll(ds[1..])
  }

  predicate AllLegal(ds: seq<Directive>) {
    ds == [] || (Legal(ds[0]) && AllLegal(ds[1..]))
  }

  /** How a format may break off: not at all, or inside a conversion. */
  datatype Ending = Whole | Cut(left: bool, zero: bool, digits: string, modifiers: string)

  function EndingText(e: Ending): string {
    match e
    case Whole => ""
    case Cut(left, zero, digits, modifiers) => "%" + Prefix(left, zero, digits, modifiers)
  }

  predicate EndingOk(e: Ending) {
    e.Cut? ==> PrefixOk(e.zero, e.digits, e.modifiers)
  }

  /** The last character was a bare % or the zero flag: the scan steps over the end of the format. */
  predicate RunsOver(e: Ending) {
    e.Cut? && e.digits == "" && e.modifiers == "" && (e.zero || !e.left)
  }

  /** The machine prints `out` for the part of `s` before `rest`, and is idle there. */
  ghost predicate Prints(s: string, k: nat, out: string, rest: string, k': nat, render: Render) {
    Scan(IDLE, s, k, render) == Then(out, Scan(IDLE, rest, k', render))
  }

  /** A directive reduced to its text, what it prints and how many arguments it takes. */
  datatype Piece = Piece(text: string, printed: string, uses: nat)

  function Behind(p: Piece, rest: string): string {
    p.text + rest
  }

  /** Whatever follows, the machine prints the piece and is idle behind it. */
  ghost predicate Faithful(p: Piece, k: nat, render: Render) {
    forall rest: string {:trigger Behind(p, rest)} :: Prints(Behind(p, rest), k, p.printed, rest, k + p.uses, render)
  }

  function PieceTexts(ps: seq<Piece>, rest: string): string {
    if ps == [] then rest else Behind(ps[0], PieceTexts(ps[1..], rest))
  }

  function PiecesPrinted(ps: seq<Piece>): string {
    if ps == [] then "" else ps[0].printed + PiecesPrinted(ps[1..])
  }

  function PiecesUse(ps: seq<Piece>): nat {
    if ps == [] then 0 else ps[0].uses + PiecesUse(ps[1..])
  }

  ghost predicate AllFaithful(ps: seq<Piece>, k: nat, render: Render) {
    ps == [] || (Faithful(ps[0], k, render) && AllFaithful(ps[1..], k + ps[0].uses, render))
  }

  lemma PrintsChain(s: string, k: nat, a: string, t: string, k1: nat, b: string, rest: string, k2: nat, render: Render)
    requires Prints(s, k, a, t, k1, render) && Prints(t, k1, b, rest, k2, render)
    ensures Prints(s, k, a + b, rest, k2, render)
  {
    ThenTwice(a, b, Scan(IDLE, rest, k2, render));
  }

  lemma {:induction false} PrintsPieces(ps: seq<Piece>, rest: string, k: nat, render: Render)
    requires AllFaithful(ps, k, render)
    ensures Prints(PieceTexts(ps, rest), k, PiecesPrinted(ps), rest, k + PiecesUse(ps), render)
    decreases |ps|
  {
    if ps != [] {
      var p, t := ps[0], PieceTexts(ps[1..], rest);
      PrintsPieces(ps[1..], rest, k + p.uses, render);
      assert Prints(Behind(p, t), k, p.printed, t, k + p.uses, render);
      PrintsChain(Behind(p, t), k, p.printed, t, k + p.uses, PiecesPrinted(ps[1..]), rest, k + PiecesUse(ps), render);
    }
  }

  function PieceOf(d: Directive, k: nat, render: Render): Piece {
    Piece(Text(d), Printed(d, k, render), Uses(d))
  }

  lemma PieceIsFaithful(d: Directive, k: nat, render: Render)
    requires Legal(d)
    ensures Faithful(PieceOf(d, k, render), k, render)
  {
    forall rest: string {:trigger Behind(PieceOf(d, k, render), rest)}
      ensures Prints(Behind(PieceOf(d, k, render), rest), k, Printed(d, k, render), rest, k + Uses(d), render)
    {
      ScanDirective(d, rest, k, render);
    }
  }

  function PiecesOf(ds: seq<Directive>, k: nat, render: Render): seq<Piece> {
    if ds == [] then [] else [PieceOf(ds[0], k, render)] + PiecesOf(ds[1..], k + Uses(ds[0]), render)
  }

  /** One more piece in front. */
  lemma ConsText(p: Piece, ps: seq<Piece>, rest: string)
    ensures PieceTexts([p] + ps, rest) == Behind(p, PieceTexts(ps, rest))
  {
    assert ([p] + ps)[1..] == ps;
  }

  lemma ConsPrinted(p: Piece, ps: seq<Piece>)
    ensures PiecesPrinted([p] + ps) == p.printed + PiecesPrinted(ps)
  {
    assert ([p] + ps)[1..] == ps;
  }

  lemma ConsUse(p: Piece, ps: seq<Piece>)
    ensures PiecesUse([p] + ps) == p.uses + PiecesUse(ps)
  {
    assert ([p] + ps)[1..] == ps;
  }

  lemma ConsFaithful(p: Piece, ps: seq<Piece>, k: nat, render: Render)
    requires Faithful(p, k, render) && AllFaithful(ps, k + p.uses, render)
    ensures AllFaithful([p] + ps, k, render)
  {
    assert ([p] + ps)[1..] == ps;
  }

  lemma {:induction false} PiecesText(ds: seq<Directive>, rest: string, k: nat, render: Render)
    ensures PieceTexts(PiecesOf(ds, k, render), rest) == Texts(ds) + rest
    decreases |ds|
  {
    if ds == [] {
      assert Texts(ds) + rest == rest;
    } else {
      var k1 := k + Uses(ds[0]);
      ConsText(PieceOf(ds[0], k, render), PiecesOf(ds[1..], k1, render), rest);
      PiecesText(ds[1..], rest, k1, render);
      TextsSplit(ds, rest);
    }
  }

  lemma {:induction false} PiecesEffect(ds: seq<Directive>, k: nat, render: Render)
    ensures PiecesPrinted(PiecesOf(ds, k, render)) == PrintedAll(ds, k, render)
    decreases |ds|
  {
    if ds != [] {
      var p, ps := PieceOf(ds[0], k, render), PiecesOf(ds[1..], k + Uses(ds[0]), render);
      PiecesEffect(ds[1..], k + Uses(ds[0]), render);
      assert PiecesOf(ds, k, render) == [p] + ps;
      ConsPrinted(p, ps);
    }
  }

  lemma {:induction false} PiecesUseAll(ds: seq<Directive>, k: nat, render: Render)
    ensures PiecesUse(PiecesOf(ds, k, render)) == UsesAll(ds)
    decreases |ds|
  {
    if ds != [] {
      var p, ps := PieceOf(ds[0], k, render), PiecesOf(ds[1..], k + Uses(ds[0]), render);
      PiecesUseAll(ds[1..], k + Uses(ds[0]), render);
      assert PiecesOf(ds, k, render) == [p] + ps;
      ConsUse(p, ps);
    }
  }

  lemma {:induction false} PiecesAreFaithful(ds: seq<Directive>, k: nat, render: Render)
    requires AllLegal(ds)
    ensures AllFaithful(PiecesOf(ds, k, render), k, render)
    decreases |ds|
  {
    if ds != [] {
      var k1 := k + Uses(ds[0]);
      var p, ps := PieceOf(ds[0], k, render), PiecesOf(ds[1..], k1, render);
      PieceIsFaithful(ds[0], k, render);
      PiecesAreFaithful(ds[1..], k1, render);
      ConsFaithful(p, ps, k, render);
    }
  }

  /** A sequence of directives prints its parts one after the other. */
  lemma PrintsDirectives(ds: seq<Directive>, rest: string, k: nat, render: Render)
    requires AllLegal(ds)
    ensures Prints(Texts(ds) + rest, k, PrintedAll(ds, k, render), rest, k + UsesAll(ds), render)
  {
    PiecesText(ds, rest, k, render);
    PiecesEffect(ds, k, render);
    PiecesUseAll(ds, k, render);
    PiecesAreFaithful(ds, k, render);
    PrintsPieces(PiecesOf(ds, k, render), rest, k, render);
  }

  lemma TextsSplit(ds: seq<Directive>, rest: string)
    requires ds != []
    ensures Texts(ds) + rest == Text(ds[0]) + (Texts(ds[1..]) + rest)
  {
    var t, u := Text(ds[0]), Texts(ds[1..]);
    assert (t + u) + rest == t + (u + rest);
  }

  lemma LastDigit(q: Registers, c: char, k: nat, render: Render)
    requires q.state == 2 && IsDecimal(c)
    ensures Fall(q, [c], k, render) == Some("")
  {}

  lemma LastModifier(q: Registers, c: char, k: nat, render: Render)
    requires q.state == 3 && IsModifier(c)
    ensures Fall(q, [c], k, render) == Some("")
  {}

  /** A format that ends inside the width or the modifiers prints nothing for it. */
  lemma CutInside(q: Registers, digits: string, modifiers: string, k: nat, render: Render)
    requires q.state == 2 && q.width == 0 && PrefixOk(true, digits, modifiers) && digits + modifiers != ""
    ensures Fall(q, digits + modifiers, k, render) == Some("")
  {
    if modifiers == "" {
      var n := |digits| - 1;
      assert digits[n] in digits && digits + modifiers == digits[..n] + [digits[n]];
      ScanDigits(q, "", digits[..n], [digits[n]], k, render);
      LastDigit(q.(width := Wrap(Value("" + digits[..n], 10))), digits[n], k, render);
    } else {
      var n := |modifiers| - 1;
      var q2 := q.(width := Wrap(Value("" + digits, 10)));
      ScanDigits(q, "", digits, modifiers, k, render);
      assert modifiers[0] in modifiers;
      assert Fall(q2, modifiers, k, render) == Fall(q2.(state := 3), modifiers, k, render);
      assert modifiers[n] in modifiers && modifiers == modifiers[..n] + [modifiers[n]];
      ScanModifiers(q2.(state := 3), modifiers[..n], [modifiers[n]], k, render);
      LastModifier(q2.(state := 3, long := q2.long || 'l' in modifiers[..n],
                       short := q2.short || 'h' in modifiers[..n]), modifiers[n], k, render);
    }
  }

  /** The part of an ending behind the flags. */
  lemma CutFlags(q: Registers, zero: bool, digits: string, modifiers: string, k: nat, render: Render)
    requires q.state == 1 && q.width == 0 && !q.zero && PrefixOk(zero, digits, modifiers)
    requires zero || digits + modifiers != ""
    ensures Fall(q, Mark(zero, '0') + (digits + modifiers), k, render) ==
            if digits + modifiers == "" then None else Some("")
  {
    var s := digits + modifiers;
    if s == "" {
      assert Mark(true, '0') + s == "0" && "0"[1..] == "";
    } else {
      if !zero {
        if digits != "" { assert digits[0] in digits; } else { assert s == modifiers && modifiers[0] in modifiers; }
      }
      ZeroStep(q, zero, s, k, render);
      CutInside(q.(state := 2, zero := zero), digits, modifiers, k, render);
    }
  }

  lemma ScanEnding(e: Ending, k: nat, render: Render)
    requires EndingOk(e)
    ensures Scan(IDLE, EndingText(e), k, render) == if RunsOver(e) then None else Some("")
  {
    if e.Cut? {
      var s := e.digits + e.modifiers;
      var behind := Mark(e.zero, '0') + s;
      assert EndingText(e) == "%" + (Mark(e.left, '-') + behind);
      StartStep(Mark(e.left, '-') + behind, k, render);
      if behind == "" {
        assert s == "" && !e.zero;
        DashAlone(e.left, k, render);
        assert Mark(e.left, '-') + behind == Mark(e.left, '-');
      } else {
        DashStep(e.left, behind, k, render);
        CutFlags(IDLE.(state := 1, left := e.left), e.zero, e.digits, e.modifiers, k, render);
      }
    }
  }

  lemma DashAlone(left: bool, k: nat, render: Render)
    ensures Fall(IDLE.(state := 1), Mark(left, '-'), k, render) == if left then Some("") else None
  {}

  // ---------- every format string is made of directives ----------

  /** The longest prefix of characters that satisfy `p`. */
  lemma SplitWhile(s: string, p: char -> bool) returns (a: string, b: string)
    ensures s == a + b && (forall c :: c in a ==> p(c)) && (b != "" ==> !p(b[0]))
  {
    if s == "" || !p(s[0]) {
      a, b := "", s;
    } else {
      a, b := SplitWhile(s[1..], p);
      a := [s[0]] + a;
      assert s == [s[0]] + s[1..];
    }
  }

  /** What follows a % and its flags: width, modifiers, and the rest. */
  lemma SplitConversion(s: string) returns (digits: string, modifiers: string, tail: string)
    ensures s == digits + modifiers + tail && PrefixOk(true, digits, modifiers)
    ensures tail != "" ==> !IsModifier(tail[0]) && (modifiers == "" ==> !IsDecimal(tail[0]))
  {
    var more;
    digits, more := SplitWhile(s, IsDecimal);
    modifiers, tail := SplitWhile(more, IsModifier);
    assert digits + (modifiers + tail) == digits + modifiers + tail;
    assert modifiers == "" ==> more == tail;
  }

  /** The part of a format up to and including its first directive. */
  lemma FirstDirective(fmt: string) returns (d: Directive, rest: string, e: Ending)
    requires fmt != ""
    ensures EndingOk(e)
    ensures if e.Whole? then Legal(d) && fmt == Text(d) + rest && |rest| < |fmt| else fmt == EndingText(e)
  {
    d, rest, e := Discarded, "", Whole;
    if fmt[0] != '%' {
      d, rest := Literal(fmt[0]), fmt[1..];
      return;
    }
    var s := fmt[1..];
    var left := s != "" && s[0] == '-';
    var s1 := if left then s[1..] else s;
    assert fmt == "%" + (Mark(left, '-') + s1);
    if s1 != "" && s1[0] == '%' {
      d, rest := Percent(left), s1[1..];
      assert s1 == "%" + rest;
    } else if left && s1 != "" && s1[0] == '-' {
      rest := s1[1..];
      assert s1 == "-" + rest;
      assert Text(Discarded) == "%" + Mark(left, '-') + "-";
    } else {
      d, rest, e := FirstConversion(left, s1);
      assert e.Whole? ==> fmt == Text(d) + rest;
    }
  }

  lemma PrefixGrouping(left: bool, zero: bool, digits: string, modifiers: string, tail: string)
    ensures Mark(left, '-') + (Mark(zero, '0') + (digits + modifiers + tail)) ==
            Prefix(left, zero, digits, modifiers) + tail
  {}

  lemma TextGrouping(left: bool, zero: bool, digits: string, modifiers: string, conv: char, rest: string)
    ensures Text(Conversion(left, zero, digits, modifiers, conv)) + rest ==
            "%" + (Prefix(left, zero, digits, modifiers) + ([conv] + rest))
  {
    var p := Prefix(left, zero, digits, modifiers);
    assert ("%" + p + [conv]) + rest == "%" + (p + ([conv] + rest));
  }

  lemma FirstConversion(left: bool, s: string) returns (d: Directive, rest: string, e: Ending)
    requires s != "" ==> s[0] != '%' && s[0] != '-'
    ensures EndingOk(e)
    ensures if e.Whole? then d.Conversion? && Legal(d) && "%" + (Mark(left, '-') + s) == Text(d) + rest && |rest| < |s|
            else "%" + (Mark(left, '-') + s) == EndingText(e)
  {
    var zero := s != "" && s[0] == '0';
    var s2 := if zero then s[1..] else s;
    assert s == Mark(zero, '0') + s2;
    var digits, modifiers, tail := SplitConversion(s2);
    d, rest, e := Discarded, "", Whole;
    PrefixGrouping(left, zero, digits, modifiers, tail);
    if tail == "" {
      e := Cut(left, zero, digits, modifiers);
      assert Prefix(left, zero, digits, modifiers) + tail == Prefix(left, zero, digits, modifiers);
    } else {
      d, rest := Conversion(left, zero, digits, modifiers, tail[0]), tail[1..];
      assert tail == [tail[0]] + rest;
      TextGrouping(left, zero, digits, modifiers, tail[0], rest);
      assert digits == "" && modifiers == "" ==> s2 == tail;
    }
  }

  lemma Decompose(fmt: string) returns (ds: seq<Directive>, e: Ending)
    ensures AllLegal(ds) && EndingOk(e) && fmt == Texts(ds) + EndingText(e)
    decreases |fmt|
  {
    if fmt == "" {
      ds, e := [], Whole;
    } else {
      var d, rest;
      d, rest, e := FirstDirective(fmt);
      if e.Cut? {
        ds := [];
        assert fmt == Texts(ds) + EndingText(e);
      } else {
        var more;
        more, e := Decompose(rest);
        ds := [d] + more;
        assert ds[1..] == more;
        TextsSplit(ds, EndingText(e));
      }
    }
  }

  lemma PrintsToEnd(s: string, k: nat, out: string, rest: string, k': nat, render: Render)
    requires Prints(s, k, out, rest, k', render)
    ensures Scan(IDLE, rest, k', render) == None ==> Scan(IDLE, s, k, render) == None
    ensures Scan(IDLE, rest, k', render) == Some("") ==> Scan(IDLE, s, k, render) == Some(out)
  {}

  /** What directives and an ending mean, for any way of rendering arguments. */
  lemma MeaningOf(ds: seq<Directive>, e: Ending, render: Render)
    requires AllLegal(ds) && EndingOk(e)
    ensures Scan(IDLE, Texts(ds) + EndingText(e), 0, render) ==
            if RunsOver(e) then None else Some(PrintedAll(ds, 0, render))
  {
    var rest := EndingText(e);
    PrintsDirectives(ds, rest, 0, render);
    ScanEnding(e, UsesAll(ds), render);
    PrintsToEnd(Texts(ds) + rest, 0, PrintedAll(ds, 0, render), rest, UsesAll(ds), render);
  }

  /** Every format is a sequence of directives and an ending, and the machine prints exactly what the
      directives print; it runs past the end exactly when the ending is a bare % or zero flag. */
  lemma FormatMeaning(fmt: CString, args: Arguments) returns (ds: seq<Directive>, e: Ending)
    ensures AllLegal(ds) && EndingOk(e) && fmt == Texts(ds) + EndingText(e)
    ensures Scan(IDLE, fmt, 0, Rendering(args)) ==
            if RunsOver(e) then None else Some(PrintedAll(ds, 0, Rendering(args)))
  {
    ds, e := Decompose(fmt);
    MeaningOf(ds, e, Rendering(args));
  }

  // ---------- what a numeric field looks like ----------

  /** Number of minus signs. */
  function Dashes(s: string): nat {
    if s == "" then 0 else (if s[0] == '-' then 1 else 0) + Dashes(s[1..])
  }

  lemma {:induction false} DashesConcat(a: string, b: string)
    ensures Dashes(a + b) == Dashes(a) + Dashes(b)
  {
    if a == "" {
      assert a + b == b;
    } else {
      assert (a + b)[1..] == a[1..] + b;
      DashesConcat(a[1..], b);
    }
  }

  lemma {:induction false} NoDashes(s: string)
    requires '-' !in s
    ensures Dashes(s) == 0
  {
    if s != "" {
      NoDashes(s[1..]);
    }
  }

  /** Length of the sign. */
  function Len(negative: bool): nat {
    if negative then 1 else 0
  }

  lemma ThreeParts(a: string, b: string, c: string)
    ensures Dashes(a + b + c) == Dashes(a) + Dashes(b) + Dashes(c)
  {
    DashesConcat(a + b, c);
    DashesConcat(a, b);
  }

  /** The only dash in a field is its sign. */
  lemma FieldDashes(left: bool, zero: bool, width: nat, negative: bool, body: string)
    requires '-' !in body
    ensures Dashes(Field(left, zero, width, negative, body, |body|)) == Len(negative)
  {
    var sign := Sign(negative);
    var pad := if width > |body| + |sign| then width - |body| - |sign| else 0;
    var fill := Fill(if zero && !left then '0' else ' ', pad);
    NoDashes(body);
    NoDashes(fill);
    assert Dashes(sign) == Len(negative);
    if left {
      ThreeParts(sign, body, fill);
    } else if zero {
      ThreeParts(sign, fill, body);
    } else {
      ThreeParts(fill, sign, body);
    }
  }

  function Larger(a: nat, b: nat): nat {
    if a > b then a else b
  }

  /** `part` stands at offset `at` of the field. */
  predicate Stands(field: string, part: string, at: int) {
    0 <= at && at + |part| <= |field| && field[at..at + |part|] == part
  }

  /** Outside [a, b) the field holds only the filler. */
  predicate FilledOutside(field: string, a: int, b: int, filler: char) {
    forall i :: 0 <= i < |field| && !(a <= i < b) ==> field[i] == filler
  }

  /** A field, position by position: its length, where sign and body stand, and the filler everywhere else.
      Zeros go between sign and body, blanks to the side of both. */
  predicate LaidOut(field: string, left: bool, zero: bool, width: nat, negative: bool, body: string) {
    var n := |body| + Len(negative);
    var last := |field| - |body|;
    && |field| == Larger(width, n)
    && if left then Stands(field, Sign(negative) + body, 0) && FilledOutside(field, 0, n, ' ')
       else if zero then
         && Stands(field, Sign(negative), 0) && Stands(field, body, last)
         && FilledOutside(field[Len(negative)..], last - Len(negative), |field|, '0')
       else
         Stands(field, Sign(negative) + body, |field| - n) && FilledOutside(field, |field| - n, |field|, ' ')
  }

  lemma LaidOutLeft(zero: bool, width: nat, negative: bool, body: string)
    ensures LaidOut(Field(true, zero, width, negative, body, |body|), true, zero, width, negative, body)
  {
    var n := |body| + Len(negative);
    var field := Field(true, zero, width, negative, body, |body|);
    assert field == (Sign(negative) + body) + Fill(' ', |field| - n);
  }

  lemma LaidOutRight(width: nat, negative: bool, body: string)
    ensures LaidOut(Field(false, false, width, negative, body, |body|), false, false, width, negative, body)
  {
    var n := |body| + Len(negative);
    var field := Field(false, false, width, negative, body, |body|);
    assert field == Fill(' ', |field| - n) + (Sign(negative) + body);
  }

  lemma LaidOutZeros(width: nat, negative: bool, body: string)
    ensures LaidOut(Field(false, true, width, negative, body, |body|), false, true, width, negative, body)
  {
    var n := |body| + Len(negative);
    var field := Field(false, true, width, negative, body, |body|);
    assert field == Sign(negative) + (Fill('0', |field| - n) + body);
    assert field[Len(negative)..] == Fill('0', |field| - n) + body;
  }

  lemma FieldIsLaidOut(left: bool, zero: bool, width: nat, negative: bool, body: string)
    ensures LaidOut(Field(left, zero, width, negative, body, |body|), left, zero, width, negative, body)
  {
    if left {
      LaidOutLeft(zero, width, negative, body);
    } else if zero {
      LaidOutZeros(width, negative, body);
    } else {
      LaidOutRight(width, negative, body);
    }
  }

  /** A numeric field: the larger of its width and its natural length, the digits and the sign in their
      places, the filler asked for, and one minus sign exactly when the value is negative. */
  lemma NumberFieldShape(q: Registers, signed: bool, radix: Radix, caps: bool, w: Word)
    ensures var m := Magnitude(q, signed, w);
            var field, digits := NumberField(q, signed, radix, caps, w), Numeral(m.1, radix, caps);
            && LaidOut(field, q.left, q.zero, q.width, m.0, digits)
            && Dashes(field) == Len(m.0)
  {
    var m := Magnitude(q, signed, w);
    var digits := Numeral(m.1, radix, caps);
    FieldDashes(q.left, q.zero, q.width, m.0, digits);
    FieldIsLaidOut(q.left, q.zero, q.width, m.0, digits);
    assert NumberField(q, signed, radix, caps, w) == Field(q.left, q.zero, q.width, m.0, digits, |digits|);
  }

  lemma EmptyField(left: bool, width: nat)
    ensures var field := Field(left, false, width, false, "", 1);
            |field| == Larger(width, 1) - 1 && FilledOutside(field, 0, 0, ' ')
  {}

  /** %s fills its width with blanks on the side asked for, whatever the zero flag. */
  lemma StringFieldShape(q: Registers, w: Word, args: Arguments)
    ensures LaidOut(Converted(q, 's', w, args), q.left, false, q.width, false, args.text(w))
  {
    FieldIsLaidOut(q.left, false, q.width, false, args.text(w));
    assert Converted(q, 's', w, args) == Field(q.left, false, q.width, false, args.text(w), |args.text(w)|);
  }

  /** So does %c, but a zero byte leaves its own place out. */
  lemma CharFieldShape(q: Registers, w: Word, args: Arguments)
    ensures var field := Converted(q, 'c', w, args);
            if CharBody(w) != "" then LaidOut(field, q.left, false, q.width, false, CharBody(w))
            else |field| == Larger(q.width, 1) - 1 && FilledOutside(field, 0, 0, ' ')
  {
    var body := CharBody(w);
    FieldIsLaidOut(q.left, false, q.width, false, body);
    EmptyField(q.left, q.width);
    assert Converted(q, 'c', w, args) == Field(q.left, false, q.width, false, body, 1);
  }

  // ---------- printing, then parsing ----------

  lemma PlainConversion(conv: char, k: nat, render: Render)
    requires !IsModifier(conv) && !IsDecimal(conv) && conv != '%' && conv != '-'
    ensures Scan(IDLE, ['%', conv], k, render) == Some(render(IDLE.(state := 4), conv, k))
  {
    var d := Conversion(false, false, "", "", conv);
    assert Text(d) + "" == ['%', conv];
    ScanDirective(d, "", k, render);
  }

  lemma PlainNumber(radix: Radix, caps: bool, w: Word)
    ensures NumberField(IDLE.(state := 4), false, radix, caps, w) == Numeral(w, radix, caps)
  {}

  /** atoi reads back what %u prints, for every 32-bit value. */
  lemma PrintedDecimalParsesBack(args: Arguments, unset: Word)
    ensures var s := Scan(IDLE, "%u", 0, Rendering(args));
            s.Some? && AtoiValue(s.value, unset) == args.slot(0)
  {
    PlainConversion('u', 0, Rendering(args));
    assert "%u" == ['%', 'u'];
    PlainNumber(Decimal, false, args.slot(0));
    DecimalRoundTrip(args.slot(0), unset);
  }

  lemma PrintsMarked(conv: char, number: string, render: Render)
    requires Scan(IDLE, ['%', conv], 0, render) == Some(number)
    ensures Scan(IDLE, ['0', 'x', '%', conv], 0, render) == Some(['0', 'x'] + number)
  {
    ScanDirective(Literal('x'), ['%', conv], 0, render);
    ScanDirective(Literal('0'), ['x', '%', conv], 0, render);
    assert Text(Literal('x')) + ['%', conv] == ['x', '%', conv];
    assert Text(Literal('0')) + ['x', '%', conv] == ['0', 'x', '%', conv];
    ThenTwice("0", "x", Some(number));
    assert "0" + "x" == ['0', 'x'];
  }

  /** atoi reads back what 0x%x and 0x%X print, for every 32-bit value. */
  lemma PrintedHexParsesBack(caps: bool, args: Arguments, unset: Word)
    ensures var s := Scan(IDLE, ['0', 'x', '%', if caps then 'X' else 'x'], 0, Rendering(args));
            s.Some? && AtoiValue(s.value, unset) == args.slot(0)
  {
    var conv := if caps then 'X' else 'x';
    var number := Numeral(args.slot(0), Hex, caps);
    PlainConversion(conv, 0, Rendering(args));
    PlainNumber(Hex, caps, args.slot(0));
    PrintsMarked(conv, number, Rendering(args));
    HexRoundTrip(args.slot(0), caps, 'x', unset);
  }
}
