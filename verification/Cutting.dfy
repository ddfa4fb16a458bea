/** Cutting a line into C strings in place: separators become NULs, and a table points at the pieces. */
module Cutting {
  /** The C string at offset `at` of the buffer is `s`. */
  predicate StringAt(buf: seq<char>, at: nat, s: string) {
    at + |s| < |buf| && buf[at..at + |s|] == s && buf[at + |s|] == '\0'
  }

  /** What the loop has still to cut: the buffer from `at` on is untouched. */
  ghost predicate Uncut(buf: seq<char>, t: string, at: nat) {
    at <= |t| < |buf| && (forall j :: at <= j < |t| ==> buf[j] == t[j]) && buf[|t|] == '\0'
  }

  /** The buffer with NULs in [from, to). */
  function Nulled(buf: seq<char>, from: nat, to: nat): (r: seq<char>)
    requires from <= to <= |buf|
    ensures |r| == |buf| && forall j :: 0 <= j < |r| ==> r[j] == if from <= j < to then '\0' else buf[j]
  {
    seq(|buf|, j requires 0 <= j < |buf| => if from <= j < to then '\0' else buf[j])
  }

  ghost predicate AllStringsAt(buf: seq<char>, table: seq<nat>, strings: seq<string>) {
    |table| == |strings| && forall k :: 0 <= k < |table| ==> StringAt(buf, table[k], strings[k])
  }

  /** All strings of the table end before `limit`. */
  ghost predicate AllEndBefore(table: seq<nat>, strings: seq<string>, limit: nat) {
    |table| == |strings| && forall k :: 0 <= k < |table| ==> table[k] + |strings[k]| < limit
  }

  lemma EarlierStringsStay(buf: seq<char>, table: seq<nat>, strings: seq<string>, at: nat, from: nat, to: nat)
    requires AllStringsAt(buf, table, strings) && AllEndBefore(table, strings, at) && at <= from <= to <= |buf|
    ensures AllStringsAt(Nulled(buf, from, to), table, strings)
  {
    var buf' := Nulled(buf, from, to);
    forall k | 0 <= k < |table| ensures StringAt(buf', table[k], strings[k]) {
      assert StringAt(buf, table[k], strings[k]);
      var end := table[k] + |strings[k]|;
      assert buf'[table[k]..end] == buf[table[k]..end];
    }
  }

  lemma NewStringIsAt(buf: seq<char>, t: string, at: nat, end: nat, next: nat)
    requires Uncut(buf, t, at) && at <= end <= next <= |t| && (end == next ==> end == |t|)
    ensures StringAt(Nulled(buf, end, next), at, t[at..end])
  {
    assert Nulled(buf, end, next)[at..end] == t[at..end];
  }

  lemma OneMoreString(buf: seq<char>, table: seq<nat>, strings: seq<string>, at: nat, s: string)
    requires AllStringsAt(buf, table, strings) && StringAt(buf, at, s)
    ensures AllStringsAt(buf, table + [at], strings + [s])
  {}

  lemma OneMoreEnd(table: seq<nat>, strings: seq<string>, limit: nat, at: nat, s: string, limit': nat)
    requires AllEndBefore(table, strings, limit) && limit <= limit' && at + |s| < limit'
    ensures AllEndBefore(table + [at], strings + [s], limit')
  {}

  /** The line before `at` has been cut into `done`, each piece in place. */
  ghost predicate InPlace(buf: seq<char>, t: string, at: nat, table: seq<nat>, done: seq<string>) {
    Uncut(buf, t, at) && AllStringsAt(buf, table, done) && (at < |t| ==> AllEndBefore(table, done, at))
  }

  /** Cutting the piece [at, end) off by NULs in [end, next). */
  lemma InPlaceStep(buf: seq<char>, t: string, at: nat, end: nat, next: nat, table: seq<nat>, done: seq<string>)
    requires InPlace(buf, t, at, table, done) && at < |t|
    requires at <= end <= next <= |t| && (end == next ==> end == |t|)
    ensures Uncut(buf, t, end)
    ensures InPlace(Nulled(buf, end, next), t, next, table + [at], done + [t[at..end]])
  {
    EarlierStringsStay(buf, table, done, at, end, next);
    NewStringIsAt(buf, t, at, end, next);
    OneMoreString(Nulled(buf, end, next), table, done, at, t[at..end]);
    if next < |t| {
      OneMoreEnd(table, done, at, at, t[at..end], next);
    }
  }
}
