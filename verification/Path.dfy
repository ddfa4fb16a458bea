/** ext2_chdir: cutting a path at its slashes and walking the directories it names. */
module Path {
  import opened Options
  import opened Numerals
  import opened Names
  import opened Cutting
  import opened Sequences
  import opened Ext2Dir
  import opened Ext2Volume

  const DIRECTORY_NUM: nat := 10
  const PATH_LEN: nat := 100

  // ---------- cutting ----------

  function SlashAt(s: string, j: nat): (n: nat)
    requires j <= |s|
    ensures j <= n <= |s| && (n < |s| ==> s[n] == '/')
    decreases |s| - j
  {
    if j == |s| || s[j] == '/' then j else SlashAt(s, j + 1)
  }

  /** Newlines behind a slash are skipped with it. */
  function SkipSlashes(s: string, j: nat): (n: nat)
    requires j <= |s|
    ensures j <= n <= |s| && (j < |s| && s[j] == '/' ==> j < n)
    decreases |s| - j
  {
    if j == |s| || (s[j] != '/' && s[j] != '\n') then j else SkipSlashes(s, j + 1)
  }

  /** The table the code builds from position `at` on; a leading slash gives an empty first token. */
  function TokensFrom(s: string, at: nat): seq<string>
    requires at <= |s|
    decreases |s| - at
  {
    if at == |s| then []
    else
      var end := SlashAt(s, at);
      [s[at..end]] + TokensFrom(s, SkipSlashes(s, end))
  }

  function PathTokens(s: string): seq<string> {
    TokensFrom(s, 0)
  }

  /** Newlines at the front are dropped. */
  function TrimNewlines(s: string): (r: string)
    ensures |r| <= |s| && (s == "" || s[0] != '\n' ==> r == s)
  {
    if s != "" && s[0] == '\n' then TrimNewlines(s[1..]) else s
  }

  /** The names in a path: its longest pieces without slashes, less the newlines directly behind a slash. */
  function Components(read: string, s: string): seq<string>
    decreases |s|
  {
    if s == "" then Whole(read)
    else if s[0] == '/' then Whole(read) + Components("", TrimNewlines(s[1..]))
    else Components(read + [s[0]], s[1..])
  }

  function Whole(read: string): seq<string> {
    if read == "" then [] else [read]
  }

  lemma {:induction false} TrimOfJoin(p: string, q: string)
    ensures TrimNewlines(p + "/" + q) == TrimNewlines(p) + "/" + q
  {
    if p != "" {
      assert (p + "/" + q)[1..] == p[1..] + "/" + q;
      TrimOfJoin(p[1..], q);
    }
  }

  lemma {:induction false} ComponentsOfJoin(read: string, p: string, q: string)
    ensures Components(read, p + "/" + q) == Components(read, p) + Components("", TrimNewlines(q))
    decreases |p|
  {
    var s := p + "/" + q;
    if p == "" {
      assert s[1..] == q;
    } else {
      assert s[0] == p[0] && s[1..] == p[1..] + "/" + q;
      if p[0] == '/' {
        var rest := TrimNewlines(p[1..]);
        TrimOfJoin(p[1..], q);
        ComponentsOfJoin("", rest, q);
        assert Whole(read) + (Components("", rest) + Components("", TrimNewlines(q))) ==
               Whole(read) + Components("", rest) + Components("", TrimNewlines(q));
      } else {
        ComponentsOfJoin(read + [p[0]], p[1..], q);
      }
    }
  }

  function NonEmpty(tokens: seq<string>): seq<string> {
    if tokens == [] then [] else Whole(tokens[0]) + NonEmpty(tokens[1..])
  }

  lemma {:induction false} ComponentsReadOn(read: string, s: string, j: nat)
    requires j <= |s|
    ensures var n := SlashAt(s, j);
            Components(read, s[j..]) == Components(read + s[j..n], s[n..])
    decreases |s| - j
  {
    var n := SlashAt(s, j);
    if j == n {
      assert read + s[j..n] == read;
    } else {
      ComponentsReadOn(read + [s[j]], s, j + 1);
      assert s[j..][1..] == s[j + 1..];
      assert read + [s[j]] + s[j + 1..n] == read + s[j..n];
    }
  }

  lemma {:induction false} ComponentsSkip(s: string, j: nat)
    requires j <= |s|
    ensures Components("", TrimNewlines(s[j..])) == Components("", s[SkipSlashes(s, j)..])
    decreases |s| - j
  {
    if j < |s| && (s[j] == '/' || s[j] == '\n') {
      assert s[j..][1..] == s[j + 1..];
      ComponentsSkip(s, j + 1);
    }
  }

  lemma AtSlash(read: string, s: string, n: nat)
    requires n <= |s| && (n < |s| ==> s[n] == '/')
    ensures Components(read, s[n..]) == Whole(read) + Components("", s[SkipSlashes(s, n)..])
  {
    if n < |s| {
      assert s[n..][1..] == s[n + 1..];
      ComponentsSkip(s, n + 1);
    }
  }

  lemma {:induction false} TokensFromAreComponents(s: string, at: nat)
    requires at <= |s|
    ensures NonEmpty(TokensFrom(s, at)) == Components("", s[at..])
    ensures |TokensFrom(s, at)| == |Components("", s[at..])| + if at < |s| && s[at] == '/' then 1 else 0
    decreases |s| - at
  {
    if at < |s| {
      var end := SlashAt(s, at);
      var next := SkipSlashes(s, end);
      ComponentsReadOn("", s, at);
      assert "" + s[at..end] == s[at..end];
      NextIsNoSlash(s, end);
      TokensFromAreComponents(s, next);
      AtSlash(s[at..end], s, end);
    }
  }

  /** The code's tokens are the names of the path, with an empty one in front for a leading slash. */
  lemma TokensAreComponents(s: string)
    ensures NonEmpty(PathTokens(s)) == Components("", s)
    ensures |PathTokens(s)| == |Components("", s)| + if s != "" && s[0] == '/' then 1 else 0
  {
    TokensFromAreComponents(s, 0);
    assert s[0..] == s;
  }

  lemma {:induction false} NextIsNoSlash(s: string, j: nat)
    requires j <= |s|
    ensures var n := SkipSlashes(s, j); n < |s| ==> s[n] != '/'
    decreases |s| - j
  {
    if j < |s| && (s[j] == '/' || s[j] == '\n') {
      NextIsNoSlash(s, j + 1);
    }
  }

  // ---------- walking ----------

  datatype Outcome = Reached | NotFound | NotADirectory | TooDeep

  /** The first entry of that name. */
  function Lookup(list: seq<Entry>, name: string): (r: Option<Entry>) {
    if list == [] then None
    else if list[0].name == name then Some(list[0])
    else Lookup(list[1..], name)
  }

  /** Where the walk ends and how; a failing token leaves the directory reached so far. */
  function Walk(fs: Listing, dir: nat, tokens: seq<string>): (nat, Outcome)
    decreases |tokens|
  {
    if tokens == [] then (dir, Reached)
    else if tokens[0] == "" then Walk(fs, dir, tokens[1..])
    else match Lookup(fs(dir), tokens[0])
      case None => (dir, NotFound)
      case Some(e) => if e.kind.Directory? then Walk(fs, e.inode, tokens[1..]) else (dir, NotADirectory)
  }

  function Chdir(fs: Listing, dir: nat, path: string): (nat, Outcome) {
    if |PathTokens(path)| > DIRECTORY_NUM then (dir, TooDeep) else Walk(fs, dir, PathTokens(path))
  }

  lemma {:induction false} WalkSkipsEmpty(fs: Listing, dir: nat, tokens: seq<string>)
    ensures Walk(fs, dir, tokens) == Walk(fs, dir, NonEmpty(tokens))
    decreases |tokens|
  {
    if tokens != [] {
      if tokens[0] == "" {
        assert NonEmpty(tokens) == NonEmpty(tokens[1..]);
        WalkSkipsEmpty(fs, dir, tokens[1..]);
      } else {
        assert NonEmpty(tokens)[0] == tokens[0] && NonEmpty(tokens)[1..] == NonEmpty(tokens[1..]);
        var e := Lookup(fs(dir), tokens[0]);
        if e.Some? {
          WalkSkipsEmpty(fs, e.value.inode, tokens[1..]);
        }
      }
    }
  }

  lemma {:induction false} WalkComposes(fs: Listing, dir: nat, a: seq<string>, b: seq<string>)
    ensures var r := Walk(fs, dir, a);
            Walk(fs, dir, a + b) == if r.1.Reached? then Walk(fs, r.0, b) else r
    decreases |a|
  {
    if a == [] {
      assert a + b == b;
    } else {
      assert (a + b)[0] == a[0] && (a + b)[1..] == a[1..] + b;
      var e := Lookup(fs(dir), a[0]);
      if a[0] == "" {
        WalkComposes(fs, dir, a[1..], b);
      } else if e.Some? {
        WalkComposes(fs, e.value.inode, a[1..], b);
      }
    }
  }

  // ---------- what a walk does, by positions in the listings ----------

  /** Entry `k` is the first one of that name. */
  ghost predicate FirstOf(list: seq<Entry>, name: string, k: nat) {
    k < |list| && list[k].name == name && forall j :: 0 <= j < k ==> list[j].name != name
  }

  /** Entering a name from `dir`: the first entry of that name is entered if it is a directory, and nothing else is. */
  ghost predicate Enters(list: seq<Entry>, dir: nat, name: string, dir': nat, outcome: Outcome) {
    && (forall k: nat :: FirstOf(list, name, k) && list[k].kind == Directory ==>
          dir' == list[k].inode && outcome == Reached)
    && (forall k: nat :: FirstOf(list, name, k) && list[k].kind != Directory ==>
          dir' == dir && outcome == NotADirectory)
    && ((forall j :: 0 <= j < |list| ==> list[j].name != name) ==> dir' == dir && outcome == NotFound)
  }

  lemma {:induction false} LookupIsFirst(list: seq<Entry>, name: string)
    ensures forall k: nat :: FirstOf(list, name, k) ==> Lookup(list, name) == Some(list[k])
    ensures (forall j :: 0 <= j < |list| ==> list[j].name != name) <==> Lookup(list, name) == None
  {
    if list != [] {
      LookupIsFirst(list[1..], name);
      forall k: nat | FirstOf(list, name, k) ensures Lookup(list, name) == Some(list[k]) {
        if k > 0 {
          assert list[0].name != name;
          assert FirstOf(list[1..], name, k - 1) by {
            forall j | 0 <= j < k - 1 ensures list[1..][j].name != name { assert list[j + 1].name != name; }
          }
        }
      }
      if Lookup(list, name) == None {
        forall j | 0 <= j < |list| ensures list[j].name != name {
          if j > 0 { assert list[1..][j - 1].name != name; }
        }
      }
    }
  }

  /** One name. */
  lemma OneName(fs: Listing, dir: nat, name: string)
    requires name != ""
    ensures Enters(fs(dir), dir, name, Walk(fs, dir, [name]).0, Walk(fs, dir, [name]).1)
  {
    LookupIsFirst(fs(dir), name);
    var e := Lookup(fs(dir), name);
    if e.Some? {
      assert Walk(fs, e.value.inode, []) == (e.value.inode, Reached);
    }
  }

  /** What a name does is determined by the listing. */
  lemma EntersOnce(list: seq<Entry>, dir: nat, name: string, a: nat, x: Outcome, b: nat, y: Outcome)
    requires Enters(list, dir, name, a, x) && Enters(list, dir, name, b, y)
    ensures a == b && x == y
  {
    if !forall j :: 0 <= j < |list| ==> list[j].name != name {
      var k := FirstPosition(list, name);
    }
  }

  lemma {:induction false} FirstPosition(list: seq<Entry>, name: string) returns (k: nat)
    requires exists j :: 0 <= j < |list| && list[j].name == name
    ensures FirstOf(list, name, k)
  {
    if list[0].name == name {
      k := 0;
    } else {
      var j :| 0 <= j < |list| && list[j].name == name;
      assert list[1..][j - 1].name == name;
      k := FirstPosition(list[1..], name);
      forall i | 0 <= i < k + 1 ensures list[i].name != name {
        if i > 0 { assert list[1..][i - 1].name != name; }
      }
      k := k + 1;
    }
  }

  /** The directories visited: each name leads from one to the next, and the walk ends with the last name or at the
      first one that cannot be entered. */
  ghost predicate Visits(fs: Listing, names: seq<string>, dirs: seq<nat>, outcome: Outcome) {
    && 0 < |dirs| <= |names| + 1
    && (forall j :: 0 <= j < |dirs| - 1 ==> Enters(fs(dirs[j]), dirs[j], names[j], dirs[j + 1], Reached))
    && var last := |dirs| - 1;
       if last == |names| then outcome == Reached
       else outcome != Reached && Enters(fs(dirs[last]), dirs[last], names[last], dirs[last], outcome)
  }

  lemma {:induction false} WalkVisits(fs: Listing, dir: nat, names: seq<string>) returns (dirs: seq<nat>)
    requires forall j :: 0 <= j < |names| ==> names[j] != ""
    ensures Visits(fs, names, dirs, Walk(fs, dir, names).1)
    ensures dirs[0] == dir && dirs[|dirs| - 1] == Walk(fs, dir, names).0
    decreases |names|
  {
    dirs := [dir];
    if names != [] {
      OneName(fs, dir, names[0]);
      assert names == [names[0]] + names[1..];
      WalkComposes(fs, dir, [names[0]], names[1..]);
      var first := Walk(fs, dir, [names[0]]);
      if first.1 == Reached {
        var rest := WalkVisits(fs, first.0, names[1..]);
        dirs := [dir] + rest;
        VisitsMore(fs, dir, names, rest, Walk(fs, dir, names).1);
      }
    }
  }

  lemma VisitsMore(fs: Listing, dir: nat, names: seq<string>, rest: seq<nat>, outcome: Outcome)
    requires names != [] && Visits(fs, names[1..], rest, outcome)
    requires Enters(fs(dir), dir, names[0], rest[0], Reached)
    ensures Visits(fs, names, [dir] + rest, outcome)
  {
    var dirs := [dir] + rest;
    forall j | 0 <= j < |dirs| - 1 ensures Enters(fs(dirs[j]), dirs[j], names[j], dirs[j + 1], Reached) {
      if j > 0 {
        assert Enters(fs(rest[j - 1]), rest[j - 1], names[1..][j - 1], rest[j], Reached);
      }
    }
  }

  lemma {:induction false} ComponentsAreNames(read: string, s: string, j: nat)
    requires j < |Components(read, s)|
    ensures Components(read, s)[j] != ""
    decreases |s|
  {
    if s != "" {
      if s[0] == '/' {
        var whole := Whole(read);
        if j >= |whole| { ComponentsAreNames("", TrimNewlines(s[1..]), j - |whole|); }
      } else {
        ComponentsAreNames(read + [s[0]], s[1..], j);
      }
    }
  }

  /** A path of up to ten tokens visits the directories that its names lead to; a longer one goes nowhere. */
  lemma PathVisits(fs: Listing, dir: nat, path: string) returns (dirs: seq<nat>)
    ensures |PathTokens(path)| > 10 ==> Chdir(fs, dir, path) == (dir, TooDeep)
    ensures |PathTokens(path)| <= 10 ==>
              && Visits(fs, Components("", path), dirs, Chdir(fs, dir, path).1)
              && dirs[0] == dir && dirs[|dirs| - 1] == Chdir(fs, dir, path).0
  {
    var names := Components("", path);
    forall j | 0 <= j < |names| ensures names[j] != "" { ComponentsAreNames("", path, j); }
    dirs := WalkVisits(fs, dir, names);
    if |PathTokens(path)| <= 10 {
      ChdirFollowsComponents(fs, dir, path);
    }
  }

  /** A path without slashes is one name, unless it is empty. */
  lemma {:induction false} PlainNames(read: string, s: string)
    requires '/' !in s
    ensures Components(read, s) == if read + s == "" then [] else [read + s]
    decreases |s|
  {
    if s == "" {
      assert read + s == read;
    } else {
      assert forall c :: c in s[1..] ==> c in s;
      PlainNames(read + [s[0]], s[1..]);
      assert read + [s[0]] + s[1..] == read + s;
    }
  }

  /** Within the limits a path means the walk over its names, so empty pieces have no effect. */
  lemma ChdirFollowsComponents(fs: Listing, dir: nat, path: string)
    requires |PathTokens(path)| <= DIRECTORY_NUM
    ensures Chdir(fs, dir, path) == Walk(fs, dir, Components("", path))
  {
    TokensAreComponents(path);
    WalkSkipsEmpty(fs, dir, PathTokens(path));
  }

  /** The number of tokens of p/q. */
  lemma TokensOfJoin(p: string, q: string)
    ensures |PathTokens(p + "/" + q)| ==
            (if p == "" then 1 else |PathTokens(p)|) + |Components("", TrimNewlines(q))|
  {
    var path := p + "/" + q;
    ComponentsOfJoin("", p, q);
    TokensAreComponents(path);
    TokensAreComponents(p);
    assert path[0] == if p == "" then '/' else p[0];
  }

  /** Within the limits, no part of p/q exceeds them either. */
  lemma PartsFit(p: string, q: string)
    requires |PathTokens(p + "/" + q)| <= DIRECTORY_NUM
    ensures |PathTokens(p)| <= DIRECTORY_NUM && |PathTokens(TrimNewlines(q))| <= DIRECTORY_NUM
  {
    TokensOfJoin(p, q);
    TokensAreComponents(TrimNewlines(q));
    if p != "" { SomeToken(p); }
  }

  /** Changing to p/q is changing to p and from there to q, unless p already fails, or both have more than ten
      tokens together.  Newlines in front of q are dropped behind the slash; any other q is used as it is. */
  lemma ChdirComposes(fs: Listing, dir: nat, p: string, q: string)
    ensures var r := Chdir(fs, dir, p);
            Chdir(fs, dir, p + "/" + q) ==
            if (if p == "" then 1 else |PathTokens(p)|) + |Components("", TrimNewlines(q))| > DIRECTORY_NUM
            then (dir, TooDeep)
            else if r.1.Reached? then Chdir(fs, r.0, TrimNewlines(q)) else r
    ensures q == "" || q[0] != '\n' ==> TrimNewlines(q) == q
  {
    TokensOfJoin(p, q);
    if |PathTokens(p + "/" + q)| <= DIRECTORY_NUM {
      JoinWithinLimits(fs, dir, p, q);
    }
  }

  lemma JoinWithinLimits(fs: Listing, dir: nat, p: string, q: string)
    requires |PathTokens(p + "/" + q)| <= DIRECTORY_NUM
    ensures var r := Chdir(fs, dir, p);
            Chdir(fs, dir, p + "/" + q) == if r.1.Reached? then Chdir(fs, r.0, TrimNewlines(q)) else r
  {
    var q' := TrimNewlines(q);
    PartsFit(p, q);
    ComponentsOfJoin("", p, q);
    ChdirFollowsComponents(fs, dir, p + "/" + q);
    ChdirFollowsComponents(fs, dir, p);
    var a, b := Components("", p), Components("", q');
    WalkComposes(fs, dir, a, b);
    ChdirFollowsComponents(fs, Walk(fs, dir, a).0, q');
  }

  lemma SomeToken(s: string)
    requires s != ""
    ensures |PathTokens(s)| >= 1
  {}

  // ---------- the code ----------

  /** `done` and the tokens of the rest are the tokens of the path. */
  ghost predicate Remaining(t: string, at: nat, done: seq<string>) {
    at <= |t| && done + TokensFrom(t, at) == PathTokens(t)
  }

  lemma OneMorePathToken(t: string, at: nat, done: seq<string>)
    requires at < |t| && Remaining(t, at, done)
    ensures Remaining(t, SkipSlashes(t, SlashAt(t, at)), done + [t[at..SlashAt(t, at)]])
  {
    Regroup(done, [t[at..SlashAt(t, at)]], TokensFrom(t, SkipSlashes(t, SlashAt(t, at))));
  }

  method FindSlash(sc: array<char>, c: CString, start: nat) returns (ccp: nat)
    requires start < |c| && Uncut(sc[..], c, start)
    ensures ccp == SlashAt(c, start)
  {
    ccp := start;
    while sc[ccp] != '\0' && sc[ccp] != '/'
      invariant start <= ccp <= |c| && SlashAt(c, ccp) == SlashAt(c, start)
      decreases |c| - ccp
    {
      ccp := ccp + 1;
    }
  }

  method CutSlashes(sc: array<char>, c: CString, at: nat) returns (ccp: nat)
    requires Uncut(sc[..], c, at)
    modifies sc
    ensures ccp == SkipSlashes(c, at) && sc[..] == Nulled(old(sc[..]), at, ccp)
  {
    ccp := at;
    while sc[ccp] == '/' || sc[ccp] == '\n'
      invariant at <= ccp <= |c| && SkipSlashes(c, ccp) == SkipSlashes(c, at)
      invariant forall j :: at <= j < ccp ==> sc[j] == '\0'
      invariant forall j :: 0 <= j < sc.Length && !(at <= j < ccp) ==> sc[j] == old(sc[j])
      decreases |c| - ccp
    {
      sc[ccp] := '\0';
      ccp := ccp + 1;
    }
  }

  /** Over one name, then over the slashes behind it, which become NULs. */
  method CutName(sc: array<char>, c: CString, start: nat, ghost table: seq<nat>, ghost done: seq<string>)
      returns (ccp: nat, ghost token: string)
    requires start < |c| && InPlace(sc[..], c, start, table, done)
    modifies sc
    ensures token == c[start..SlashAt(c, start)] && ccp == SkipSlashes(c, SlashAt(c, start)) && start < ccp
    ensures InPlace(sc[..], c, ccp, table + [start], done + [token])
  {
    ghost var end := SlashAt(c, start);
    token := c[start..end];
    InPlaceStep(sc[..], c, start, end, SkipSlashes(c, end), table, done);
    ccp := FindSlash(sc, c, start);
    ccp := CutSlashes(sc, c, ccp);
  }

  method NextName(sc: array<char>, c: CString, start: nat, ghost table: seq<nat>, ghost done: seq<string>)
      returns (ccp: nat, ghost token: string)
    requires start < |c| && InPlace(sc[..], c, start, table, done) && Remaining(c, start, done)
    modifies sc
    ensures start < ccp <= |c|
    ensures InPlace(sc[..], c, ccp, table + [start], done + [token]) && Remaining(c, ccp, done + [token])
  {
    OneMorePathToken(c, start, done);
    ccp, token := CutName(sc, c, start, table, done);
  }

  method CutPath(c: CString, sc: array<char>) returns (ok: bool, argtable: seq<nat>)
    requires |c| <= PATH_LEN && sc.Length == PATH_LEN + 1
    modifies sc
    ensures ok <==> |PathTokens(c)| <= 10
    ensures ok ==> AllStringsAt(sc[..], argtable, PathTokens(c))
  {
    forall j | 0 <= j < |c| + 1 {
      sc[j] := if j < |c| then c[j] else '\0';
    }
    argtable := [];
    ghost var done: seq<string> := [];
    var ccp := 0;
    while sc[ccp] != '\0'
      invariant 0 <= ccp <= |c| && |argtable| <= DIRECTORY_NUM
      invariant InPlace(sc[..], c, ccp, argtable, done) && Remaining(c, ccp, done)
      decreases |c| - ccp
    {
      if |argtable| >= DIRECTORY_NUM {
        return false, [];
      }
      var start := ccp;
      ghost var token;
      ccp, token := NextName(sc, c, start, argtable, done);
      argtable, done := argtable + [start], done + [token];
    }
    ok := true;
  }

  /** Reads the C string at an offset. */
  method ReadString(sc: array<char>, at: nat, ghost s: CString) returns (r: CString)
    requires StringAt(sc[..], at, s)
    ensures r == s
  {
    assert forall j :: 0 <= j < |s| ==> sc[at + j] == sc[..][at..at + |s|][j] == s[j];
    var i := 0;
    r := "";
    while sc[at + i] != '\0'
      invariant 0 <= i <= |s| && r == s[..i]
      decreases |s| - i
    {
      r := r + [sc[at + i]];
      i := i + 1;
    }
  }

  /** The search through the listing, by strcmp. */
  method Find(list: seq<Entry>, name: CString) returns (r: Option<Entry>)
    ensures r == Lookup(list, name)
  {
    var temp := 0;
    assert list[0..] == list;
    while temp < |list|
      invariant 0 <= temp <= |list| && Lookup(list[temp..], name) == Lookup(list, name)
    {
      var cmp := Strcmp(list[temp].name, name);
      if cmp == 0 {
        return Some(list[temp]);
      }
      assert list[temp..][1..] == list[temp + 1..];
      temp := temp + 1;
    }
    return None;
  }

  lemma {:induction false} TokensHaveNoNul(s: string, at: nat, k: nat)
    requires '\0' !in s && at <= |s| && k < |TokensFrom(s, at)|
    ensures '\0' !in TokensFrom(s, at)[k]
    decreases |s| - at
  {
    if k > 0 {
      TokensHaveNoNul(s, SkipSlashes(s, SlashAt(s, at)), k - 1);
    }
  }

  /** One token, then the others. */
  lemma WalkStep(fs: Listing, dir: nat, tokens: seq<string>, j: nat)
    requires j < |tokens|
    ensures var r := Walk(fs, dir, [tokens[j]]);
            Walk(fs, dir, tokens[j..]) == if r.1.Reached? then Walk(fs, r.0, tokens[j + 1..]) else r
  {
    assert tokens[j..] == [tokens[j]] + tokens[j + 1..];
    WalkComposes(fs, dir, [tokens[j]], tokens[j + 1..]);
  }

  class WorkingDirectory {
    var currentInode: nat

    constructor (inode: nat)
      ensures currentInode == inode
    {
      currentInode := inode;
    }

    /** One name: the directory is read from its inode on, searched and entered. */
    method EnterName(v: Volume, token: CString) returns (outcome: Outcome)
      requires AllInside(v)
      modifies this
      ensures (currentInode, outcome) == Walk(ListingOf(v), old(currentInode), [token])
      ensures token != "" ==>
                Enters(ListingOf(v)(old(currentInode)), old(currentInode), token, currentInode, outcome)
    {
      if token != "" {
        OneName(ListingOf(v), currentInode, token);
      }
      if token == "" {
        return Reached;
      }
      var blocks := RdInode(v, currentInode);
      var list := RdDir(blocks, v.geometry.blockSize, v.blank);
      var entry := Find(list, token);
      if entry.None? {
        return NotFound;
      }
      if !entry.value.kind.Directory? {
        return NotADirectory;
      }
      currentInode := entry.value.inode;
      return Reached;
    }

    method Ext2Chdir(v: Volume, path: CString, sc: array<char>) returns (outcome: Outcome)
      requires AllInside(v) && |path| <= PATH_LEN && sc.Length == PATH_LEN + 1
      modifies this, sc
      ensures (currentInode, outcome) == Chdir(ListingOf(v), old(currentInode), path)
    {
      var ok, argtable := CutPath(path, sc);
      if !ok {
        return TooDeep;
      }
      ghost var fs, tokens := ListingOf(v), PathTokens(path);
      var j := 0;
      assert tokens[0..] == tokens;
      while j < |argtable|
        invariant 0 <= j <= |argtable| && AllStringsAt(sc[..], argtable, tokens)
        invariant Walk(fs, currentInode, tokens[j..]) == Walk(fs, old(currentInode), tokens)
      {
        TokensHaveNoNul(path, 0, j);
        WalkStep(fs, currentInode, tokens, j);
        var token := ReadString(sc, argtable[j], tokens[j]);
        outcome := EnterName(v, token);
        if !outcome.Reached? {
          return;
        }
        j := j + 1;
      }
      return Reached;
    }
  }
}
