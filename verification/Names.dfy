/** File names as the directory readers list them, and the string comparison that looks them up. */
module Names {
  import opened Numerals

  /** A backslash before each space. */
  function Escape(name: string): (s: string)
    ensures |s| >= |name| && (name == "" <==> s == "")
  {
    if name == "" then ""
    else (if name[0] == ' ' then "\\ " else [name[0]]) + Escape(name[1..])
  }

  function Unescape(s: string): string {
    if s == "" then ""
    else if |s| >= 2 && s[0] == '\\' && s[1] == ' ' then " " + Unescape(s[2..])
    else [s[0]] + Unescape(s[1..])
  }

  lemma {:induction false} EscapeRoundTrip(name: string)
    ensures Unescape(Escape(name)) == name
  {
    if name != "" {
      var rest := Escape(name[1..]);
      EscapeRoundTrip(name[1..]);
      assert name == [name[0]] + name[1..];
      if name[0] == ' ' {
        assert Escape(name)[2..] == rest;
      } else {
        assert Escape(name)[1..] == rest;
        assert rest != "" ==> rest[0] != ' ';
      }
    }
  }

  lemma {:induction false} EscapeConcat(a: string, b: string)
    ensures Escape(a + b) == Escape(a) + Escape(b)
  {
    if a == "" {
      assert a + b == b;
    } else {
      assert (a + b)[1..] == a[1..] + b;
      EscapeConcat(a[1..], b);
    }
  }

  lemma {:induction false} EscapeOfPlain(a: string)
    requires ' ' !in a
    ensures Escape(a) == a
  {
    if a != "" {
      assert a[0] in a && forall c :: c in a[1..] ==> c in a;
      EscapeOfPlain(a[1..]);
      assert a == [a[0]] + a[1..];
    }
  }

  /** A backslash goes before each space, and nothing else changes. */
  lemma EscapeIs(a: string, b: string)
    requires ' ' !in a
    ensures Escape(a) == a && Escape(a + " " + b) == a + "\\ " + Escape(b)
  {
    EscapeOfPlain(a);
    EscapeConcat(a + " ", b);
    EscapeConcat(a, " ");
    assert " "[1..] == "" && Escape(" ") == "\\ " + "";
  }

  /** Listed names stand for their originals one to one. */
  lemma EscapeIsInjective(a: string, b: string)
    ensures Escape(a) == Escape(b) <==> a == b
  {
    EscapeRoundTrip(a);
    EscapeRoundTrip(b);
  }

  /** What string functions see of a buffer: the characters before the first NUL. */
  function Visible(s: string): (r: CString)
    ensures '\0' !in s ==> r == s
  {
    if s == "" || s[0] == '\0' then "" else [s[0]] + Visible(s[1..])
  }

  lemma {:induction false} EscapeAppend(name: string, c: char)
    ensures Escape(name + [c]) == Escape(name) + if c == ' ' then "\\ " else [c]
  {
    if name == "" {
      assert name + [c] == [c];
    } else {
      assert (name + [c])[1..] == name[1..] + [c];
      EscapeAppend(name[1..], c);
    }
  }

  /** The copying loop of the directory readers. */
  method EscapeName(name: string) returns (filename: string)
    ensures filename == Escape(name)
  {
    filename := "";
    var j := 0;
    while j < |name|
      invariant 0 <= j <= |name| && filename == Escape(name[..j])
    {
      EscapeAppend(name[..j], name[j]);
      assert name[..j + 1] == name[..j] + [name[j]];
      if name[j] != ' ' {
        filename := filename + [name[j]];
      } else {
        filename := filename + ['\\'];
        filename := filename + [name[j]];
      }
      j := j + 1;
    }
    assert name[..j] == name;
  }

  /** A C string in memory: the characters, then NUL. */
  function Terminated(s: string): string {
    s + ['\0']
  }

  /** strcmp over terminated strings: zero exactly for equal strings. */
  method Strcmp(s1: CString, s2: CString) returns (cmp: int)
    ensures cmp == 0 <==> s1 == s2
  {
    var a, b := Terminated(s1), Terminated(s2);
    var i := 0;
    while true
      invariant 0 <= i <= |s1| && i <= |s2| && s1[..i] == s2[..i]
      decreases |s1| - i
    {
      cmp := a[i] as int - b[i] as int;
      if cmp != 0 || a[i] == '\0' || b[i] == '\0' {
        assert cmp == 0 ==> i == |s1| && i == |s2| && s1[..i] == s1 && s2[..i] == s2;
        return;
      }
      i := i + 1;
    }
  }
}
