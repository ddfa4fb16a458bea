/** The shell's tokenizer: it cuts a command line in place, and an escaped space does not separate. */
module Shell {
  import opened Numerals
  import opened Names
  import opened Cutting
  import opened Sequences

  const ARGNUM: nat := 255
  const CMDLEN: nat := 256

  predicate IsBlank(c: char) {
    c == ' ' || c == '\t'
  }

  /** A tab separates always, a space unless a backslash of the same token stands before it. */
  predicate Separates(t: string, start: nat, j: nat)
    requires start <= j < |t|
  {
    t[j] == '\t' || (t[j] == ' ' && (j == start || t[j - 1] != '\\'))
  }

  /** Where the token that starts at `start` ends, searching from `j`. */
  function TokenEnd(t: string, start: nat, j: nat): (n: nat)
    requires start <= j <= |t|
    ensures j <= n <= |t| && (n < |t| ==> Separates(t, start, n))
    decreases |t| - j
  {
    if j == |t| || Separates(t, start, j) then j else TokenEnd(t, start, j + 1)
  }

  function SkipBlanks(t: string, j: nat): (n: nat)
    requires j <= |t|
    ensures j <= n <= |t| && (n < |t| ==> !IsBlank(t[n])) && (j < |t| && IsBlank(t[j]) ==> j < n)
    decreases |t| - j
  {
    if j == |t| || !IsBlank(t[j]) then j else SkipBlanks(t, j + 1)
  }

  /** The arguments of a command line from position `at` on. */
  function TokensFrom(t: string, at: nat): seq<string>
    requires at <= |t|
    decreases |t| - at
  {
    if at == |t| then []
    else
      var end := TokenEnd(t, at, at);
      [t[at..end]] + TokensFrom(t, SkipBlanks(t, end))
  }

  function Tokens(t: string): seq<string> {
    TokensFrom(t, 0)
  }

  // ---------- words, joined and cut again ----------

  /** Words with single spaces between them. */
  function Joined(words: seq<string>): string {
    if words == [] then ""
    else if |words| == 1 then words[0]
    else words[0] + " " + Joined(words[1..])
  }

  /** No position of the word separates, nor does it escape the space behind it. */
  ghost predicate IsWord(w: string) {
    w != "" && w[|w| - 1] != '\\' && forall j :: 0 <= j < |w| ==> !Separates(w, 0, j)
  }

  ghost predicate AllWords(words: seq<string>) {
    words == [] || (IsWord(words[0]) && AllWords(words[1..]))
  }

  lemma {:induction false} TokenEndIs(t: string, start: nat, j: nat, n: nat)
    requires start <= j <= n <= |t| && (n < |t| ==> Separates(t, start, n))
    requires forall i :: j <= i < n ==> !Separates(t, start, i)
    ensures TokenEnd(t, start, j) == n
    decreases n - j
  {
    if j < n {
      TokenEndIs(t, start, j + 1, n);
    }
  }

  /** A word in the line, followed by a space or the end, is one token. */
  lemma WordIsToken(t: string, at: nat, w: string)
    requires IsWord(w) && at + |w| <= |t| && t[at..at + |w|] == w
    requires at + |w| < |t| ==> t[at + |w|] == ' '
    ensures TokenEnd(t, at, at) == at + |w| && !IsBlank(t[at])
  {
    assert forall i :: 0 <= i < |w| ==> t[at + i] == t[at..at + |w|][i] == w[i];
    forall i | at <= i < at + |w| ensures !Separates(t, at, i) {
      assert !Separates(w, 0, i - at) && t[at + (i - at)] == w[i - at];
      assert i > at ==> t[at + (i - 1 - at)] == w[i - 1 - at];
    }
    assert t[at + (|w| - 1)] == w[|w| - 1];
    assert !Separates(w, 0, 0) && t[at + 0] == w[0];
    TokenEndIs(t, at, at, at + |w|);
  }

  lemma SuffixParts(t: string, at: nat, w: string, rest: string)
    requires at <= |t| && t[at..] == w + " " + rest
    ensures at + |w| < |t| && t[at..at + |w|] == w && t[at + |w|] == ' ' && t[at + |w| + 1..] == rest
  {
    assert forall i :: 0 <= i < |t| - at ==> t[at + i] == t[at..][i];
  }

  /** The line from `at` on reads as `list`. */
  ghost predicate ReadsAs(t: string, at: nat, list: seq<string>) {
    at <= |t| && TokensFrom(t, at) == list
  }

  lemma ReadsOn(t: string, at: nat, end: nat, next: nat, rest: seq<string>)
    requires at < |t| && end == TokenEnd(t, at, at) && next == SkipBlanks(t, end) && ReadsAs(t, next, rest)
    ensures ReadsAs(t, at, [t[at..end]] + rest)
  {}

  lemma JoinedStartsUnblank(words: seq<string>)
    requires words != [] && AllWords(words)
    ensures Joined(words) != "" && !IsBlank(Joined(words)[0])
  {
    assert Joined(words)[0] == words[0][0] && !Separates(words[0], 0, 0);
  }

  /** The line ends with the word at `at`. */
  lemma LastWord(t: string, at: nat, w: string)
    requires at <= |t| && t[at..] == w && IsWord(w)
    ensures ReadsAs(t, at, [w])
  {
    var end := at + |w|;
    assert end == |t| && t[at..end] == w;
    WordIsToken(t, at, w);
    ReadsOn(t, at, end, end, []);
    assert [w] + [] == [w];
  }

  /** A word, a space, and a rest that starts with no blank. */
  lemma OneMoreWord(t: string, at: nat, w: string, rest: string, list: seq<string>)
    requires at <= |t| && t[at..] == w + " " + rest && IsWord(w) && rest != "" && !IsBlank(rest[0])
    requires at + |w| + 1 <= |t| ==> ReadsAs(t, at + |w| + 1, list)
    ensures ReadsAs(t, at, [w] + list)
  {
    var end := at + |w|;
    SuffixParts(t, at, w, rest);
    WordIsToken(t, at, w);
    assert t[end + 1] == t[end + 1..][0];
    assert SkipBlanks(t, end) == end + 1;
    ReadsOn(t, at, end, end + 1, list);
  }

  lemma {:induction false} TokensOfSuffix(t: string, at: nat, words: seq<string>)
    requires at <= |t| && t[at..] == Joined(words) && AllWords(words)
    ensures ReadsAs(t, at, words)
    decreases |words|
  {
    if words != [] {
      var w, tail := words[0], words[1..];
      assert words == [w] + tail;
      if tail == [] {
        LastWord(t, at, w);
      } else {
        SuffixParts(t, at, w, Joined(tail));
        TokensOfSuffix(t, at + |w| + 1, tail);
        JoinedStartsUnblank(tail);
        OneMoreWord(t, at, w, Joined(tail), tail);
      }
    }
  }

  /** Cutting undoes joining. */
  lemma TokensOfWords(words: seq<string>)
    requires AllWords(words)
    ensures Tokens(Joined(words)) == words
  {
    assert Joined(words)[0..] == Joined(words);
    TokensOfSuffix(Joined(words), 0, words);
  }

  // ---------- lines with any blanks ----------

  /** No tab, no space without a backslash before it, and no backslash at the end. */
  predicate PlainWord(w: string) {
    w != "" && w[|w| - 1] != '\\' && forall j :: 0 <= j < |w| ==> Inside(w, j)
  }

  predicate Inside(w: string, j: nat)
    requires j < |w|
  {
    w[j] != '\t' && (w[j] == ' ' ==> j > 0 && w[j - 1] == '\\')
  }

  /** Spaces and tabs. */
  predicate Gap(g: string) {
    forall j :: 0 <= j < |g| ==> g[j] == ' ' || g[j] == '\t'
  }

  /** Each word with the blanks behind it; only the last word needs none. */
  function Line(words: seq<string>, gaps: seq<string>): string
    requires |gaps| == |words|
  {
    if words == [] then "" else words[0] + gaps[0] + Line(words[1..], gaps[1..])
  }

  predicate LineOk(words: seq<string>, gaps: seq<string>) {
    |gaps| == |words| &&
    forall k :: 0 <= k < |words| ==> PlainWord(words[k]) && Gap(gaps[k]) && (k < |words| - 1 ==> gaps[k] != "")
  }

  lemma {:induction false} SkipsGap(t: string, at: nat, end: nat)
    requires at <= end <= |t| && (end < |t| ==> !IsBlank(t[end]))
    requires forall i :: at <= i < end ==> t[i] == ' ' || t[i] == '\t'
    ensures SkipBlanks(t, at) == end
    decreases end - at
  {
    if at < end {
      SkipsGap(t, at + 1, end);
    }
  }

  /** A plain word is one token, whatever blank or end follows. */
  lemma PlainWordIsToken(t: string, at: nat, w: string)
    requires PlainWord(w) && at + |w| <= |t| && forall i :: 0 <= i < |w| ==> t[at + i] == w[i]
    requires at + |w| < |t| ==> t[at + |w|] == ' ' || t[at + |w|] == '\t'
    ensures TokenEnd(t, at, at) == at + |w| && !IsBlank(t[at])
  {
    forall i | at <= i < at + |w| ensures !Separates(t, at, i) {
      var j := i - at;
      assert Inside(w, j) && t[at + j] == w[j];
      if j > 0 { assert t[at + (j - 1)] == w[j - 1]; }
    }
    assert t[at + (|w| - 1)] == w[|w| - 1] && t[at + 0] == w[0] && Inside(w, 0);
    TokenEndIs(t, at, at, at + |w|);
  }

  lemma LineParts(t: string, at: nat, w: string, g: string, rest: string)
    requires at <= |t| && t[at..] == w + g + rest
    ensures at + |w| + |g| + |rest| == |t| && forall i :: 0 <= i < |w| ==> t[at + i] == w[i]
    ensures forall i :: 0 <= i < |g| ==> t[at + |w| + i] == g[i]
    ensures t[at + |w| + |g|..] == rest
  {
    var s := t[at..];
    assert forall i :: 0 <= i < |s| ==> t[at + i] == s[i];
    forall i | 0 <= i < |g| ensures t[at + |w| + i] == g[i] { assert t[at + (|w| + i)] == s[|w| + i]; }
    assert s[|w| + |g|..] == rest && s[|w| + |g|..] == t[at + |w| + |g|..];
  }

  /** The first word of a line, and the gap behind it. */
  lemma FirstWord(t: string, at: nat, w: string, g: string, rest: string, list: seq<string>)
    requires at <= |t| && t[at..] == w + g + rest && PlainWord(w) && Gap(g)
    requires rest != "" ==> g != "" && !IsBlank(rest[0])
    requires ReadsAs(t, at + |w| + |g|, list)
    ensures ReadsAs(t, at, [w] + list)
  {
    LineParts(t, at, w, g, rest);
    var end, next := at + |w|, at + |w| + |g|;
    assert t[at..end] == w;
    if g != "" { assert t[end + 0] == g[0]; }
    PlainWordIsToken(t, at, w);
    forall i | end <= i < next ensures t[i] == ' ' || t[i] == '\t' { assert t[end + (i - end)] == g[i - end]; }
    if rest != "" { assert t[next..][0] == t[next]; }
    SkipsGap(t, end, next);
    ReadsOn(t, at, end, next, list);
  }

  lemma LineStartsPlain(words: seq<string>, gaps: seq<string>)
    requires LineOk(words, gaps) && words != []
    ensures Line(words, gaps) != "" && !IsBlank(Line(words, gaps)[0])
  {
    var w := words[0];
    assert PlainWord(w) && Inside(w, 0);
    assert Line(words, gaps)[0] == w[0];
  }

  lemma LineRest(words: seq<string>, gaps: seq<string>)
    requires LineOk(words, gaps) && words != []
    ensures LineOk(words[1..], gaps[1..])
  {
    forall k | 0 <= k < |words| - 1
      ensures PlainWord(words[1..][k]) && Gap(gaps[1..][k]) && (k < |words| - 2 ==> gaps[1..][k] != "")
    {
      assert PlainWord(words[k + 1]) && Gap(gaps[k + 1]);
    }
  }

  lemma LineStep(words: seq<string>, gaps: seq<string>)
    requires LineOk(words, gaps) && words != []
    ensures LineOk(words[1..], gaps[1..]) && PlainWord(words[0]) && Gap(gaps[0])
    ensures var rest := Line(words[1..], gaps[1..]);
            Line(words, gaps) == words[0] + gaps[0] + rest && (rest != "" ==> gaps[0] != "" && !IsBlank(rest[0]))
  {
    LineRest(words, gaps);
    if |words| > 1 {
      LineStartsPlain(words[1..], gaps[1..]);
    }
  }

  lemma {:induction false} TokensOfLineFrom(t: string, at: nat, words: seq<string>, gaps: seq<string>)
    requires LineOk(words, gaps) && at <= |t| && t[at..] == Line(words, gaps)
    ensures ReadsAs(t, at, words)
    decreases |words|
  {
    if words != [] {
      var w, g, tail, rest := words[0], gaps[0], words[1..], Line(words[1..], gaps[1..]);
      LineStep(words, gaps);
      LineParts(t, at, w, g, rest);
      TokensOfLineFrom(t, at + |w| + |g|, tail, gaps[1..]);
      FirstWord(t, at, w, g, rest, tail);
      assert words == [w] + tail;
    }
  }

  /** A line of plain words with any blanks between and behind them is cut into the words. */
  lemma TokensOfLine(words: seq<string>, gaps: seq<string>)
    requires LineOk(words, gaps)
    ensures Tokens(Line(words, gaps)) == words
  {
    assert Line(words, gaps)[0..] == Line(words, gaps);
    TokensOfLineFrom(Line(words, gaps), 0, words, gaps);
  }

  // ---------- names, listed and typed back ----------

  function Escaped(names: seq<string>): (r: seq<string>)
    ensures |r| == |names| && forall i :: 0 <= i < |r| ==> r[i] == Escape(names[i])
  {
    if names == [] then [] else [Escape(names[0])] + Escaped(names[1..])
  }

  /** Names that survive the command line. */
  predicate Typable(name: string) {
    name != "" && '\t' !in name && name[|name| - 1] != '\\'
  }

  /** In an escaped name no position separates, and its last character is that of the name. */
  lemma {:induction false} EscapeNeverSeparates(name: string)
    requires '\t' !in name
    ensures forall j :: 0 <= j < |Escape(name)| ==> !Separates(Escape(name), 0, j)
    ensures name != "" ==> Escape(name)[0] != ' ' && Escape(name)[|Escape(name)| - 1] == name[|name| - 1]
  {
    if name != "" {
      var head := if name[0] == ' ' then "\\ " else [name[0]];
      var rest := Escape(name[1..]);
      EscapeNeverSeparates(name[1..]);
      var e := Escape(name);
      assert e == head + rest;
      forall j | 0 <= j < |e| ensures !Separates(e, 0, j) {
        if j >= |head| {
          assert !Separates(rest, 0, j - |head|) && e[j] == rest[j - |head|];
        }
      }
    }
  }

  lemma {:induction false} EscapedNamesAreWords(names: seq<string>)
    requires forall i :: 0 <= i < |names| ==> Typable(names[i])
    ensures AllWords(Escaped(names))
  {
    if names != [] {
      EscapeNeverSeparates(names[0]);
      EscapedNamesAreWords(names[1..]);
      assert Escaped(names)[1..] == Escaped(names[1..]);
    }
  }

  /** Listing names, typing them back and cutting the line gives exactly the listed names. */
  lemma ListedNamesAreTyped(names: seq<string>)
    requires forall i :: 0 <= i < |names| ==> Typable(names[i])
    ensures Tokens(Joined(Escaped(names))) == Escaped(names)
  {
    EscapedNamesAreWords(names);
    TokensOfWords(Escaped(names));
  }

  // ---------- cutting in place ----------

  /** Runs over one token from `at` on; the buffer is only read. */
  method FindTokenEnd(buf: array<char>, t: string, at: nat) returns (ccp: nat)
    requires '\0' !in t && at < |t| && !IsBlank(t[at]) && Uncut(buf[..], t, at)
    ensures ccp == TokenEnd(t, at, at) && at < ccp
  {
    ccp := at;
    while buf[ccp] != '\0' && !((buf[ccp] == ' ' && buf[ccp - 1] != '\\') || buf[ccp] == '\t')
      invariant at <= ccp <= |t|
      invariant TokenEnd(t, at, ccp) == TokenEnd(t, at, at)
      decreases |t| - ccp
    {
      ccp := ccp + 1;
    }
  }

  /** Overwrites the blanks behind a token with NULs. */
  method CutBlanks(buf: array<char>, t: string, at: nat) returns (ccp: nat)
    requires '\0' !in t && Uncut(buf[..], t, at)
    modifies buf
    ensures ccp == SkipBlanks(t, at) && buf[..] == Nulled(old(buf[..]), at, ccp)
  {
    ccp := at;
    while buf[ccp] == ' ' || buf[ccp] == '\t'
      invariant at <= ccp <= |t| && SkipBlanks(t, ccp) == SkipBlanks(t, at)
      invariant forall j :: at <= j < ccp ==> buf[j] == '\0'
      invariant forall j :: 0 <= j < buf.Length && !(at <= j < ccp) ==> buf[j] == old(buf[j])
      decreases |t| - ccp
    {
      buf[ccp] := '\0';
      ccp := ccp + 1;
    }
  }

  /** `done` and the tokens of the rest are the tokens of the line. */
  ghost predicate Remaining(t: string, at: nat, done: seq<string>) {
    at <= |t| && done + TokensFrom(t, at) == Tokens(t)
  }

  lemma OneMoreToken(t: string, at: nat, done: seq<string>)
    requires at < |t| && Remaining(t, at, done)
    ensures var end := TokenEnd(t, at, at);
            Remaining(t, SkipBlanks(t, end), done + [t[at..end]])
  {
    var end := TokenEnd(t, at, at);
    Regroup(done, [t[at..end]], TokensFrom(t, SkipBlanks(t, end)));
  }

  /** One round of the loop: over a token, then over the blanks behind it. */
  method CutToken(sc: array<char>, c: CString, start: nat, ghost table: seq<nat>, ghost done: seq<string>)
      returns (ccp: nat, ghost token: string)
    requires start < |c| && !IsBlank(c[start]) && InPlace(sc[..], c, start, table, done) && Remaining(c, start, done)
    modifies sc
    ensures start < ccp <= |c| && (ccp < |c| ==> !IsBlank(c[ccp]))
    ensures InPlace(sc[..], c, ccp, table + [start], done + [token]) && Remaining(c, ccp, done + [token])
  {
    ghost var end := TokenEnd(c, start, start);
    token := c[start..end];
    OneMoreToken(c, start, done);
    InPlaceStep(sc[..], c, start, end, SkipBlanks(c, end), table, done);
    ccp := FindTokenEnd(sc, c, start);
    ccp := CutBlanks(sc, c, ccp);
  }

  /** shell_gen_args: the argument table points into the buffer, at the tokens of the line. */
  method GenArgs(c: CString, sc: array<char>) returns (ok: bool, argtable: seq<nat>)
    requires |c| <= CMDLEN && sc.Length == CMDLEN + 1 && (c != "" ==> !IsBlank(c[0]))
    modifies sc
    ensures ok <==> |Tokens(c)| <= 255
    ensures ok ==> AllStringsAt(sc[..], argtable, Tokens(c))
  {
    forall j | 0 <= j < |c| + 1 {
      sc[j] := if j < |c| then c[j] else '\0';
    }
    argtable := [];
    ghost var done: seq<string> := [];
    var ccp := 0;
    while sc[ccp] != '\0'
      invariant 0 <= ccp <= |c| && (ccp < |c| ==> !IsBlank(c[ccp])) && |argtable| <= ARGNUM
      invariant InPlace(sc[..], c, ccp, argtable, done)
      invariant Remaining(c, ccp, done)
      decreases |c| - ccp
    {
      if |argtable| >= ARGNUM {
        return false, [];
      }
      var start := ccp;
      ghost var token;
      ccp, token := CutToken(sc, c, start, argtable, done);
      argtable, done := argtable + [start], done + [token];
    }
    ok := true;
  }

  lemma {:induction false} TokensFromAreFew(t: string, at: nat)
    requires at <= |t| && (at < |t| ==> !IsBlank(t[at]))
    ensures 2 * |TokensFrom(t, at)| <= |t| - at + 1
    decreases |t| - at
  {
    if at < |t| {
      var end := TokenEnd(t, at, at);
      assert end > at;
      TokensFromAreFew(t, SkipBlanks(t, end));
    }
  }

  /** No line of CMDLEN characters has too many arguments. */
  lemma TokensAreFew(t: string)
    requires t != "" ==> !IsBlank(t[0])
    ensures 2 * |Tokens(t)| <= |t| + 1
  {
    TokensFromAreFew(t, 0);
  }

  /** shell_parse up to the dispatch: leading blanks are skipped, and an empty line fails. */
  method Parse(input: CString, sc: array<char>) returns (ok: bool, argtable: seq<nat>)
    requires |input| <= CMDLEN && sc.Length == CMDLEN + 1
    modifies sc
    ensures var line := input[SkipBlanks(input, 0)..];
            && (ok <==> line != "")
            && (ok ==> AllStringsAt(sc[..], argtable, Tokens(line)))
  {
    var dup := 0;
    while dup < |input| && (input[dup] == ' ' || input[dup] == '\t')
      invariant 0 <= dup <= |input| && SkipBlanks(input, dup) == SkipBlanks(input, 0)
    {
      dup := dup + 1;
    }
    var line: CString := input[dup..];
    if line == "" {
      return false, [];
    }
    TokensAreFew(line);
    ok, argtable := GenArgs(line, sc);
  }
}
