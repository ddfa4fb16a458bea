/** Digit strings: the conversion loop of vsnprintf and its inverse, atoi. */
module Numerals {
  import opened Words
  import opened Arithmetic
  import opened Sequences

  /** C strings: no character is NUL. */
  type CString = s: string | '\0' !in s

  // ---------- printing ----------

  datatype Radix = Octal | Decimal | Hex {
    function Base(): (b: nat)
      ensures 8 <= b <= 16
    {
      match this
      case Octal => 8
      case Decimal => 10
      case Hex => 16
    }

    function Quotient(n: nat): (q: nat)
      ensures q <= n && (q == 0 <==> n < Base()) && (n > 0 ==> q < n)
    {
      match this
      case Octal => n / 8
      case Decimal => n / 10
      case Hex => n / 16
    }

    function Remainder(n: nat): (d: nat)
      ensures d < Base() && n == Base() * Quotient(n) + d
    {
      match this
      case Octal => n % 8
      case Decimal => n % 10
      case Hex => n % 16
    }
  }

  function DigitChar(d: nat, caps: bool): (c: char)
    requires d < 16
    ensures c != '\0' && c != '-'
  {
    if d < 10 then '0' + d as char
    else if caps then 'A' + (d - 10) as char
    else 'a' + (d - 10) as char
  }

  /** The numeral of `n`, most significant digit first; zero is one digit. */
  function Numeral(n: nat, radix: Radix, caps: bool): (s: string)
    ensures s != "" && '\0' !in s && '-' !in s
  {
    LeadingDigits(radix.Quotient(n), radix, caps) + [DigitChar(radix.Remainder(n), caps)]
  }

  /** The digits of `n`, none for zero. */
  function LeadingDigits(n: nat, radix: Radix, caps: bool): (s: string)
    ensures '\0' !in s && '-' !in s
  {
    if n == 0 then ""
    else LeadingDigits(radix.Quotient(n), radix, caps) + [DigitChar(radix.Remainder(n), caps)]
  }

  lemma {:induction false} LeadingDigitsLength(n: nat, radix: Radix, caps: bool, k: nat)
    requires n < Pow(radix.Base(), k)
    ensures |LeadingDigits(n, radix, caps)| <= k
  {
    if n > 0 {
      LeadingDigitsLength(radix.Quotient(n), radix, caps, k - 1);
    }
  }

  const BUFLEN: nat := 16

  /** A 32-bit value never needs more than 11 digits, so the 15 cells before the NUL are enough. */
  lemma NumeralFitsBuffer(n: Word, radix: Radix, caps: bool)
    ensures |Numeral(n, radix, caps)| <= 11 < BUFLEN
  {
    assert radix.Quotient(n) < Pow(radix.Base(), 10) by {
      match radix
      case Octal => assert Pow(8, 10) == 0x4000_0000;
      case Decimal => assert Pow(10, 10) == 10_000_000_000;
      case Hex => assert Pow(16, 10) == 0x100_0000_0000;
    }
    LeadingDigitsLength(radix.Quotient(n), radix, caps, 10);
  }

  lemma PeelDigit(n: nat, radix: Radix, caps: bool, tail: string)
    ensures Numeral(n, radix, caps) + tail ==
            LeadingDigits(radix.Quotient(n), radix, caps) + ([DigitChar(radix.Remainder(n), caps)] + tail)
    ensures n > 0 ==> LeadingDigits(n, radix, caps) == Numeral(n, radix, caps)
  {
    Regroup(LeadingDigits(radix.Quotient(n), radix, caps), [DigitChar(radix.Remainder(n), caps)], tail);
  }

  /** The conversion loop: digits are stored from the end of the buffer towards its start. */
  method ConvertNumber(n: Word, radix: Radix, caps: bool, buf: array<char>) returns (start: nat)
    requires buf.Length == BUFLEN
    modifies buf
    ensures start < BUFLEN - 1
    ensures buf[start..] == Numeral(n, radix, caps) + ['\0']
  {
    NumeralFitsBuffer(n, radix, caps);
    ghost var whole := Numeral(n, radix, caps) + ['\0'];
    var num := n;
    start := BUFLEN - 1;
    buf[start] := '\0';
    var first := true;
    while first || num != 0
      invariant start <= BUFLEN - 1
      invariant first ==> num == n && buf[start..] == ['\0']
      invariant !first ==> start < BUFLEN - 1 && whole == LeadingDigits(num, radix, caps) + buf[start..]
      decreases first, num
    {
      var c := DigitChar(radix.Remainder(num), caps);
      ghost var tail := buf[start..];
      assert whole == LeadingDigits(radix.Quotient(num), radix, caps) + ([c] + tail) by {
        PeelDigit(num, radix, caps, tail);
      }
      num := radix.Quotient(num);
      start := start - 1;
      buf[start] := c;
      assert buf[start..] == [c] + tail;
      first := false;
    }
  }

  // ---------- parsing ----------

  predicate IsDecimal(c: char) {
    '0' <= c <= '9'
  }

  predicate IsHexDigit(c: char) {
    IsDecimal(c) || 'A' <= c <= 'F' || 'a' <= c <= 'f'
  }

  function DigitValue(c: char): nat {
    if IsDecimal(c) then c as nat - '0' as nat
    else if 'A' <= c <= 'F' then c as nat - 'A' as nat + 10
    else if 'a' <= c <= 'f' then c as nat - 'a' as nat + 10
    else 0
  }

  /** Positional value of a digit string. */
  function Value(s: string, base: nat): nat {
    if s == "" then 0 else base * Value(s[..|s| - 1], base) + DigitValue(s[|s| - 1])
  }

  /** Length of the longest prefix of decimal digits. */
  function DecimalPrefix(s: string): (n: nat)
    ensures n <= |s| && (forall i :: 0 <= i < n ==> IsDecimal(s[i])) && (n < |s| ==> !IsDecimal(s[n]))
  {
    if s == "" || !IsDecimal(s[0]) then 0 else 1 + DecimalPrefix(s[1..])
  }

  /** In the hexadecimal branch a character that is no digit repeats the value found to its right;
      at the right end it takes whatever the uninitialised variable held. */
  function StaleDigit(s: string, j: nat, unset: Word): nat
    requires j <= |s|
    decreases |s| - j
  {
    if j == |s| then unset
    else if IsHexDigit(s[j]) then DigitValue(s[j])
    else StaleDigit(s, j + 1, unset)
  }

  /** Weighted sum of the characters from `j` on. */
  function HexSum(s: string, j: nat, unset: Word): nat
    requires j <= |s|
    decreases |s| - j
  {
    if j == |s| then 0
    else HexSum(s, j + 1, unset) + Pow(16, |s| - 1 - j) * StaleDigit(s, j, unset)
  }

  predicate HasHexPrefix(s: string) {
    |s| >= 2 && s[0] == '0' && (s[1] == 'x' || s[1] == 'X')
  }

  function AtoiValue(s: string, unset: Word): Word {
    if HasHexPrefix(s) then Wrap(HexSum(s[2..], 0, unset))
    else Wrap(Value(s[..DecimalPrefix(s)], 10))
  }

  /** 32-bit arithmetic keeps the low 32 bits. */
  function Wrap(x: nat): Word {
    x % WORD
  }

  lemma WrapMul(x: nat, m: nat)
    ensures Wrap(Wrap(x) * m) == Wrap(m * x)
  {
    var q, r := x / WORD, x % WORD;
    assert m * x == (m * q) * WORD + r * m;
    WrapMultiple(m * q, r * m);
  }

  lemma WrapMultiple(k: nat, r: nat)
    ensures Wrap(k * WORD + r) == Wrap(r)
  {}

  lemma WrapAdd(x: nat, y: nat)
    ensures Wrap(Wrap(x) + Wrap(y)) == Wrap(x + y)
    ensures Wrap(Wrap(x) + y) == Wrap(x + y)
  {}

  method Power(a: Word, b: nat) returns (pro: Word)
    ensures pro == Wrap(Pow(a, b))
  {
    pro := 1;
    for i := 0 to b
      invariant pro == Wrap(Pow(a, i))
    {
      WrapMul(Pow(a, i), a);
      pro := Wrap(pro * a);
    }
  }

  /** The three range tests of the hexadecimal branch: a character that is no digit keeps `val`. */
  method ReadDigit(c: char, val: nat) returns (v: nat)
    ensures v == if IsHexDigit(c) then DigitValue(c) else val
  {
    v := val;
    if '0' <= c <= '9' { v := c as nat - '0' as nat; }
    if 'A' <= c <= 'F' { v := c as nat - 'A' as nat + 10; }
    if 'a' <= c <= 'f' { v := c as nat - 'a' as nat + 10; }
  }

  /** ret + p * val on 32 bits. */
  function MulAdd(ret: Word, p: Word, val: nat): Word {
    Wrap(ret + p * val)
  }

  /** The characters from `len` on are read. */
  ghost predicate HexRead(buf: CString, len: nat, unset: Word, val: nat, ret: Word) {
    len <= |buf| && val == StaleDigit(buf, len, unset) && ret == Wrap(HexSum(buf, len, unset))
  }

  lemma HexReadOn(buf: CString, len: nat, unset: Word, val: nat, ret: Word, p: Word, val': nat)
    requires len < |buf| && HexRead(buf, len + 1, unset, val, ret) && p == Wrap(Pow(16, |buf| - 1 - len))
    requires val' == StaleDigit(buf, len, unset)
    ensures HexRead(buf, len, unset, val', MulAdd(ret, p, val'))
  {
    HexSumStep(buf, len, unset, p);
  }

  method AtoiHex(buf: CString, unset: Word) returns (ret: Word)
    ensures ret == Wrap(HexSum(buf, 0, unset))
  {
    ret := 0;
    var len: nat, i: nat, val: nat := |buf|, 0, unset;
    while len > 0
      invariant i == |buf| - len && HexRead(buf, len, unset, val, ret)
    {
      len := len - 1;
      var p := Power(16, i);
      ghost var before := val;
      val := ReadDigit(buf[len], val);
      HexReadOn(buf, len, unset, before, ret, p, val);
      ret := MulAdd(ret, p, val);
      i := i + 1;
    }
  }

  lemma WrapMulAdd(x: nat, w: nat, d: nat)
    ensures Wrap(Wrap(x) + Wrap(w) * d) == Wrap(x + w * d)
  {
    var p := Wrap(w) * d;
    WrapAdd(x, p);
    WrapAdd(p, x);
    WrapMul(w, d);
    WrapAdd(d * w, x);
    assert d * w == w * d;
  }

  lemma HexSumStep(s: string, j: nat, unset: Word, p: Word)
    requires j < |s| && p == Wrap(Pow(16, |s| - 1 - j))
    ensures MulAdd(Wrap(HexSum(s, j + 1, unset)), p, StaleDigit(s, j, unset)) == Wrap(HexSum(s, j, unset))
  {
    WrapMulAdd(HexSum(s, j + 1, unset), Pow(16, |s| - 1 - j), StaleDigit(s, j, unset));
  }

  method Atoi(s: CString, unset: Word) returns (ret: Word)
    ensures ret == AtoiValue(s, unset)
  {
    if |s| >= 2 && s[0] == '0' && (s[1] == 'x' || s[1] == 'X') {
      ret := AtoiHex(s[2..], unset);
    } else {
      ret := 0;
      var i := 0;
      while i < |s| && '0' <= s[i] <= '9'
        invariant i <= |s| && (forall j :: 0 <= j < i ==> IsDecimal(s[j]))
        invariant ret == Wrap(Value(s[..i], 10))
      {
        assert s[..i + 1][..i] == s[..i];
        WrapMul(Value(s[..i], 10), 10);
        WrapAdd(10 * Value(s[..i], 10), DigitValue(s[i]));
        ret := Wrap(ret * 10);
        ret := Wrap(ret + (s[i] as nat - '0' as nat));
        i := i + 1;
      }
      DecimalPrefixIs(s, i);
    }
  }

  lemma DecimalPrefixIs(s: string, n: nat)
    requires n <= |s| && (forall i :: 0 <= i < n ==> IsDecimal(s[i])) && (n < |s| ==> !IsDecimal(s[n]))
    ensures DecimalPrefix(s) == n
  {
    var m := DecimalPrefix(s);
    assert m < |s| ==> !IsDecimal(s[m]);
  }

  // ---------- printing, then parsing ----------

  lemma ValueAppend(s: string, c: char, base: nat)
    ensures Value(s + [c], base) == base * Value(s, base) + DigitValue(c)
  {
    assert (s + [c])[..|s|] == s;
  }

  lemma DigitCharValue(d: nat, caps: bool)
    requires d < 16
    ensures DigitValue(DigitChar(d, caps)) == d && IsHexDigit(DigitChar(d, caps))
    ensures d < 10 ==> IsDecimal(DigitChar(d, caps))
  {}

  lemma {:induction false} LeadingDigitsValue(n: nat, radix: Radix, caps: bool)
    ensures Value(LeadingDigits(n, radix, caps), radix.Base()) == n
  {
    if n > 0 {
      var q, d := radix.Quotient(n), radix.Remainder(n);
      LeadingDigitsValue(q, radix, caps);
      ValueAppend(LeadingDigits(q, radix, caps), DigitChar(d, caps), radix.Base());
      DigitCharValue(d, caps);
    }
  }

  predicate AllDigits(s: string, radix: Radix) {
    forall c :: c in s ==> IsHexDigit(c) && (radix.Hex? || IsDecimal(c))
  }

  lemma {:induction false} LeadingDigitsAreDigits(n: nat, radix: Radix, caps: bool)
    ensures AllDigits(LeadingDigits(n, radix, caps), radix)
  {
    if n > 0 {
      LeadingDigitsAreDigits(radix.Quotient(n), radix, caps);
      DigitCharValue(radix.Remainder(n), caps);
    }
  }

  lemma NumeralValue(n: nat, radix: Radix, caps: bool)
    ensures Value(Numeral(n, radix, caps), radix.Base()) == n
    ensures AllDigits(Numeral(n, radix, caps), radix)
  {
    var q, d := radix.Quotient(n), radix.Remainder(n);
    LeadingDigitsValue(q, radix, caps);
    LeadingDigitsAreDigits(q, radix, caps);
    ValueAppend(LeadingDigits(q, radix, caps), DigitChar(d, caps), radix.Base());
    DigitCharValue(d, caps);
  }

  lemma ValueStep(s: string, j: nat, base: nat)
    requires j < |s|
    ensures Value(s[..j + 1], base) == base * Value(s[..j], base) + DigitValue(s[j])
  {
    assert s[..j + 1][..j] == s[..j];
  }

  lemma ShiftWeight(w: nat, v: nat, d: nat)
    ensures w * (16 * v + d) == (16 * w) * v + w * d
  {}

  lemma {:induction false} HexSumSplits(s: string, j: nat, unset: Word)
    requires j <= |s| && forall i :: 0 <= i < |s| ==> IsHexDigit(s[i])
    ensures Value(s, 16) == Pow(16, |s| - j) * Value(s[..j], 16) + HexSum(s, j, unset)
    decreases |s| - j
  {
    if j == |s| {
      assert s[..j] == s;
    } else {
      HexSumSplits(s, j + 1, unset);
      ValueStep(s, j, 16);
      ShiftWeight(Pow(16, |s| - 1 - j), Value(s[..j], 16), DigitValue(s[j]));
      assert Pow(16, |s| - j) == 16 * Pow(16, |s| - 1 - j);
    }
  }

  /** For proper hexadecimal digits the weighted sum is the positional value. */
  lemma HexSumIsValue(s: string, unset: Word)
    requires AllDigits(s, Hex)
    ensures HexSum(s, 0, unset) == Value(s, 16)
  {
    assert forall i :: 0 <= i < |s| ==> s[i] in s;
    HexSumSplits(s, 0, unset);
    assert Value(s[..0], 16) == 0;
  }

  lemma WrapOfWord(n: Word)
    ensures Wrap(n) == n
  {}

  lemma DecimalAtoi(s: string, unset: Word)
    requires AllDigits(s, Decimal)
    ensures AtoiValue(s, unset) == Wrap(Value(s, 10))
  {
    assert forall i :: 0 <= i < |s| ==> s[i] in s;
    DecimalPrefixIs(s, |s|);
    assert s[..|s|] == s;
    assert !HasHexPrefix(s);
  }

  /** atoi undoes %u for every 32-bit value. */
  lemma DecimalRoundTrip(n: Word, unset: Word)
    ensures AtoiValue(Numeral(n, Decimal, false), unset) == n
  {
    var s := Numeral(n, Decimal, false);
    assert Value(s, 10) == n && AllDigits(s, Decimal) by { NumeralValue(n, Decimal, false); }
    WrapOfWord(n);
    DecimalAtoi(s, unset);
  }

  lemma NoHexPrefix(s: string, rest: string)
    requires (forall i :: 0 <= i < |s| ==> '0' <= s[i] <= '9') && (rest != "" ==> !('0' <= rest[0] <= '9'))
    requires s == "0" ==> rest == "" || (rest[0] != 'x' && rest[0] != 'X')
    ensures !HasHexPrefix(s + rest)
  {
    var all := s + rest;
    if s != "" { assert all[0] == s[0]; } else if rest != "" { assert all[0] == rest[0]; }
    if |s| > 1 { assert all[1] == s[1]; } else if |s| == 1 && rest != "" { assert all[1] == rest[0]; }
  }

  /** The decimal branch stops at the first character that is no digit. */
  lemma AtoiStops(s: string, rest: string, unset: Word)
    requires (forall i :: 0 <= i < |s| ==> '0' <= s[i] <= '9') && (rest != "" ==> !('0' <= rest[0] <= '9'))
    requires s == "0" ==> rest == "" || (rest[0] != 'x' && rest[0] != 'X')
    ensures AtoiValue(s + rest, unset) == Value(s, 10) % 0x1_0000_0000
  {
    var all := s + rest;
    assert rest != "" ==> all[|s|] == rest[0];
    DecimalPrefixIs(all, |s|);
    assert all[..|s|] == s;
    NoHexPrefix(s, rest);
  }

  /** Digits count by their places. */
  lemma ValueExamples()
    ensures Value("4096", 10) == 4096 && Value("17", 8) == 15 && Value("bEEf", 16) == 0xBEEF
  {
    assert "4096"[..3] == "409" && "409"[..2] == "40" && "40"[..1] == "4" && "4"[..0] == "";
    assert "17"[..1] == "1" && "1"[..0] == "";
    assert "bEEf"[..3] == "bEE" && "bEE"[..2] == "bE" && "bE"[..1] == "b" && "b"[..0] == "";
  }

  /** In the hexadecimal branch a character that is no digit repeats the digit behind it. */
  lemma AtoiRepeats(unset: Word)
    ensures AtoiValue("0x1g2", unset) == 0x122
  {
    var s := "1g2";
    assert "0x1g2"[2..] == s;
    assert HexSum(s, 3, unset) == 0 && StaleDigit(s, 2, unset) == 2 && StaleDigit(s, 1, unset) == 2;
    assert Pow(16, 1) == 16 && Pow(16, 2) == 256;
    assert HexSum(s, 2, unset) == 2 && HexSum(s, 1, unset) == 34 && HexSum(s, 0, unset) == 290;
  }

  lemma HexAtoi(s: string, mark: char, unset: Word)
    requires AllDigits(s, Hex) && (mark == 'x' || mark == 'X')
    ensures AtoiValue(['0', mark] + s, unset) == Wrap(Value(s, 16))
  {
    HexSumIsValue(s, unset);
    assert (['0', mark] + s)[2..] == s;
  }

  /** atoi undoes %x and %X behind a 0x prefix for every 32-bit value. */
  lemma HexRoundTrip(n: Word, caps: bool, mark: char, unset: Word)
    requires mark == 'x' || mark == 'X'
    ensures AtoiValue(['0', mark] + Numeral(n, Hex, caps), unset) == n
  {
    var s := Numeral(n, Hex, caps);
    assert Value(s, 16) == n && AllDigits(s, Hex) by { NumeralValue(n, Hex, caps); }
    WrapOfWord(n);
    HexAtoi(s, mark, unset);
  }
}
