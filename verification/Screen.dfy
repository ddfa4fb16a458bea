/** The text screen: kclear_screen, kscroll_display, set_cursor_position and the loop of kprintf. */
module Screen {
  import opened Numerals
  import opened Format
  import opened Words

  const COLS: nat := 80
  const ROWS: nat := 25
  const CELLS: nat := 2000
  const BLANK: nat := 32
  const BLACK: nat := 0x00
  const WHITE: nat := 0x0F
  const BUFFER_SIZE: nat := 100
  /** The text window of the adapter: 32 KB from 0xB8000. */
  const WINDOW: nat := 0x8000

  // ---------- the row log ----------

  /** Everything written since the screen was cleared, as whole rows of 80 cells, and the cell written
      next.  The screen shows the last 25 rows; a pen behind the last cell means a scroll is pending. */
  datatype Log = Log(cells: seq<nat>, pen: nat)

  ghost predicate LogOk(l: Log) {
    |l.cells| % COLS == 0 && |l.cells| >= CELLS && |l.cells| - CELLS <= l.pen <= |l.cells|
  }

  function BlankRow(): (r: seq<nat>)
    ensures |r| == COLS && forall i :: 0 <= i < COLS ==> r[i] == BLANK
  {
    seq(COLS, _ => BLANK)
  }

  function Top(l: Log): (t: int) {
    |l.cells| - CELLS
  }

  /** The pending scroll, if any, adds a blank row. */
  function Open(l: Log): (r: Log)
    ensures LogOk(l) ==> LogOk(r) && r.pen < |r.cells|
  {
    if l.pen == |l.cells| then Log(l.cells + BlankRow(), l.pen) else l
  }

  /** A newline on a parked cursor only performs the pending scroll. */
  function Put(l: Log, c: char): (r: Log)
    requires LogOk(l)
    ensures LogOk(r)
  {
    if c == '\n' then
      if l.pen == |l.cells| then Open(l) else Log(l.cells, (l.pen / COLS + 1) * COLS)
    else Log(Open(l).cells[l.pen := c as nat], l.pen + 1)
  }

  function PutAll(l: Log, s: string): (r: Log)
    requires LogOk(l)
    ensures LogOk(r)
  {
    if s == "" then l else Put(PutAll(l, s[..|s| - 1]), s[|s| - 1])
  }

  lemma PutAllStep(l: Log, s: string, n: nat)
    requires LogOk(l) && n < |s|
    ensures PutAll(l, s[..n + 1]) == Put(PutAll(l, s[..n]), s[n])
  {
    assert s[..n + 1][..n] == s[..n];
  }

  function Cleared(): (l: Log)
    ensures LogOk(l)
  {
    Log(seq(CELLS, _ => BLANK), 10)
  }

  /** Successive calls print one text after the other. */
  lemma {:induction false} PutAllConcat(l: Log, a: string, b: string)
    requires LogOk(l)
    ensures PutAll(l, a + b) == PutAll(PutAll(l, a), b)
    decreases |b|
  {
    if b == "" {
      assert a + b == a;
    } else {
      var n := |b| - 1;
      assert (a + b)[..|a + b| - 1] == a + b[..n];
      PutAllConcat(l, a, b[..n]);
    }
  }

  /** What lies behind the pen is never rewritten, whatever is printed later. */
  lemma {:induction false} HistoryIsKept(l: Log, s: string)
    requires LogOk(l)
    ensures var r := PutAll(l, s);
            l.pen <= r.pen && |l.cells| <= |r.cells| && r.cells[..l.pen] == l.cells[..l.pen]
  {
    if s != "" {
      HistoryIsKept(l, s[..|s| - 1]);
    }
  }

  /** A text without newlines stands in consecutive cells from the pen on. */
  lemma {:induction false} TextIsLogged(l: Log, s: string)
    requires LogOk(l) && '\n' !in s
    ensures var r := PutAll(l, s);
            r.pen == l.pen + |s| && forall i :: 0 <= i < |s| ==> r.cells[l.pen + i] == s[i] as nat
  {
    if s != "" {
      TextIsLogged(l, s[..|s| - 1]);
    }
  }

  lemma CharacterInRow(l: Log, c: char)
    requires LogOk(l) && c != '\n'
    ensures var r := Put(l, c);
            && r.pen == l.pen + 1 && |r.cells| == (if l.pen == |l.cells| then |l.cells| + 80 else |l.cells|)
            && forall j :: r.pen <= j < |r.cells| ==> r.cells[j] == if j < |l.cells| then l.cells[j] else 32
  {}

  /** The cells in front of the pen stay as they were; a new row is blank, and there is one only when it is needed. */
  lemma {:induction false} RestOfScreen(l: Log, s: string)
    requires LogOk(l) && '\n' !in s
    ensures var r := PutAll(l, s);
            && (forall j :: r.pen <= j < |r.cells| ==> r.cells[j] == if j < |l.cells| then l.cells[j] else 32)
            && (|r.cells| == |l.cells| || |r.cells| < r.pen + 80)
  {
    if s != "" {
      var front := s[..|s| - 1];
      RestOfScreen(l, front);
      CharacterInRow(PutAll(l, front), s[|s| - 1]);
      HistoryIsKept(l, front);
    }
  }

  // ---------- newlines ----------

  function Newlines(n: nat): (s: string)
    ensures |s| == n && forall i :: 0 <= i < n ==> s[i] == '\n'
  {
    seq(n, _ => '\n')
  }

  lemma OneMoreNewline(l: Log, n: nat)
    requires LogOk(l) && n > 0
    ensures PutAll(l, Newlines(n)) == Put(PutAll(l, Newlines(n - 1)), '\n')
  {
    assert Newlines(n)[..n - 1] == Newlines(n - 1);
  }

  /** The pen's row on the screen; 25 when a scroll is pending. */
  function RowOf(l: Log): (r: int) {
    (l.pen - (|l.cells| - 2000)) / 80
  }

  lemma NextRow(pen: nat, k: nat)
    requires pen % 80 == 0
    ensures pen / 80 * 80 == pen && (pen + 80 * k) / 80 == pen / 80 + k && (pen + 80 * k) % 80 == 0
  {}

  /** As long as the screen has rows left, n newlines put the pen to the start of the n-th row below and change
      nothing else. */
  lemma {:induction false} NewlinesMoveDown(l: Log, n: nat)
    requires LogOk(l) && l.pen < |l.cells| && n > 0 && RowOf(l) + n <= 25
    ensures PutAll(l, Newlines(n)) == Log(l.cells, (l.pen / 80 + n) * 80)
  {
    OneMoreNewline(l, n);
    if n > 1 {
      NewlinesMoveDown(l, n - 1);
    }
  }

  function Blanks(n: nat): (r: seq<nat>)
    ensures |r| == n && forall i :: 0 <= i < n ==> r[i] == 32
  {
    seq(n, _ => 32)
  }

  /** A log whose last blank rows were added by newlines. */
  function Grown(cells: seq<nat>, rows: nat, pen: nat): Log {
    Log(cells + Blanks(80 * rows), pen)
  }

  lemma ScrollForNewline(cells: seq<nat>, rows: nat, pen: nat)
    requires LogOk(Grown(cells, rows, pen)) && pen == |cells| + 80 * rows
    ensures Put(Grown(cells, rows, pen), '\n') == Grown(cells, rows + 1, pen)
  {
    assert Blanks(80 * rows) + BlankRow() == Blanks(80 * (rows + 1));
    assert (cells + Blanks(80 * rows)) + BlankRow() == cells + (Blanks(80 * rows) + BlankRow());
  }

  lemma LeaveNewRow(cells: seq<nat>, rows: nat, pen: nat)
    requires LogOk(Grown(cells, rows, pen)) && pen % 80 == 0 && pen + 80 == |cells| + 80 * rows
    ensures Put(Grown(cells, rows, pen), '\n') == Grown(cells, rows, pen + 80)
  {
    NextRow(pen, 1);
  }

  /** `n` newlines from `l` leave this log. */
  ghost predicate LeadTo(l: Log, n: nat, rows: nat, pen: nat) {
    LogOk(l) && PutAll(l, Newlines(n)) == Grown(l.cells, rows, pen)
  }

  lemma ParkedStart(l: Log)
    requires LogOk(l)
    ensures LeadTo(l, 0, 0, l.pen)
  {
    assert l.cells + Blanks(80 * 0) == l.cells;
  }

  lemma ParkedScroll(l: Log, n: nat, rows: nat, pen: nat)
    requires LeadTo(l, n, rows, pen) && pen == |l.cells| + 80 * rows
    ensures LeadTo(l, n + 1, rows + 1, pen)
  {
    OneMoreNewline(l, n + 1);
    ScrollForNewline(l.cells, rows, pen);
  }

  lemma ParkedLeave(l: Log, n: nat, rows: nat, pen: nat)
    requires LeadTo(l, n, rows, pen) && pen + 80 == |l.cells| + 80 * rows
    ensures LeadTo(l, n + 1, rows, pen + 80)
  {
    OneMoreNewline(l, n + 1);
    LeaveNewRow(l.cells, rows, pen);
  }

  lemma {:induction false} ParkedPairs(l: Log, m: nat)
    requires LogOk(l) && l.pen == |l.cells|
    ensures LeadTo(l, 2 * m, m, l.pen + 80 * m)
    decreases m
  {
    if m == 0 {
      ParkedStart(l);
    } else {
      ParkedPairs(l, m - 1);
      ParkedScroll(l, 2 * m - 2, m - 1, l.pen + 80 * (m - 1));
      ParkedLeave(l, 2 * m - 1, m, l.pen + 80 * (m - 1));
    }
  }

  /** From a parked pen, a newline only does the scroll, the next one leaves the new row, and so on: two newlines
      for each blank row. */
  lemma NewlinesWhenParked(l: Log, m: nat)
    requires LogOk(l) && l.pen == |l.cells|
    ensures PutAll(l, Newlines(2 * m)) == Log(l.cells + Blanks(80 * m), l.pen + 80 * m)
    ensures PutAll(l, Newlines(2 * m + 1)) == Log(l.cells + Blanks(80 * m + 80), l.pen + 80 * m)
  {
    ParkedPairs(l, m);
    ParkedScroll(l, 2 * m, m, l.pen + 80 * m);
  }

  lemma RowsLeft(pen: nat, cells: nat)
    requires cells % 80 == 0 && pen < cells
    ensures (pen - (cells - 2000)) / 80 < 25 && (pen / 80 + (25 - (pen - (cells - 2000)) / 80)) * 80 == cells
  {
    var q, r, rows := pen / 80, pen % 80, cells / 80;
    assert pen - (cells - 2000) == 80 * (q - rows + 25) + r;
    assert (pen - (cells - 2000)) / 80 == q - rows + 25;
  }

  lemma NewlinesToTheEnd(l: Log, first: nat)
    requires LogOk(l) && l.pen < |l.cells| && first == 25 - RowOf(l)
    ensures PutAll(l, Newlines(first)) == Log(l.cells, |l.cells|)
  {
    RowsLeft(l.pen, |l.cells|);
    NewlinesMoveDown(l, first);
  }

  lemma NewlinesInTurn(l: Log, a: nat, b: nat)
    requires LogOk(l)
    ensures PutAll(l, Newlines(a + b)) == PutAll(PutAll(l, Newlines(a)), Newlines(b))
  {
    assert Newlines(a + b) == Newlines(a) + Newlines(b);
    PutAllConcat(l, Newlines(a), Newlines(b));
  }

  /** So a run of newlines first uses the rows left on the screen. */
  lemma NewlinesOnAndOn(l: Log, first: nat, more: nat)
    requires LogOk(l) && l.pen < |l.cells| && first == 25 - RowOf(l)
    ensures var parked := Log(l.cells, |l.cells|);
            LogOk(parked) && PutAll(l, Newlines(first + more)) == PutAll(parked, Newlines(more))
  {
    NewlinesToTheEnd(l, first);
    NewlinesInTurn(l, first, more);
  }

  /** After clearing, every cell is blank and the pen is in column 10 of the first row. */
  lemma ClearedIs()
    ensures |Cleared().cells| == 2000 && (forall i :: 0 <= i < 2000 ==> Cleared().cells[i] == 32) && Cleared().pen == 10
  {}

  /** A line, an empty line, and a line. */
  lemma BlankLineIsKept()
    ensures var l := PutAll(Cleared(), "a\n\nb");
            l.cells[10] == 'a' as nat && l.cells[160] == 'b' as nat && l.pen == 161
  {
    var s := "a\n\nb";
    PutAllStep(Cleared(), s, 0);
    PutAllStep(Cleared(), s, 1);
    PutAllStep(Cleared(), s, 2);
    PutAllStep(Cleared(), s, 3);
    assert s[..0] == "" && s[..4] == s;
  }

  // ---------- video memory ----------

  /** Character byte of cell `k`; the odd bytes are attributes. */
  function CharAt(v: seq<nat>, k: nat): nat
    requires 2 * k < |v|
  {
    v[2 * k]
  }

  /** The screen shows the last 25 rows of the log. */
  ghost predicate Shown(v: seq<nat>, l: Log) {
    LogOk(l) && |v| == WINDOW && forall k :: 0 <= k < CELLS ==> CharAt(v, k) == l.cells[Top(l) + k]
  }

  /** One row up, with a blank row at the bottom. */
  ghost predicate Scrolled(before: seq<nat>, after: seq<nat>) {
    |before| == |after| == WINDOW &&
    forall k :: 0 <= k < CELLS ==>
      CharAt(after, k) == if k < CELLS - COLS then CharAt(before, k + COLS) else BLANK
  }

  /** All bytes after a scroll: rows move up with their attributes, the last one is blank on black, and
      what lies behind the screen stays. */
  function MovedUp(v: seq<nat>): (r: seq<nat>)
    requires |v| == WINDOW
    ensures |r| == WINDOW
  {
    seq(WINDOW, j requires 0 <= j < WINDOW =>
      if j < 3840 then v[j + 160] else if j >= 4000 then v[j] else if j % 2 == 0 then BLANK else BLACK)
  }

  /** Rows 1 to 24 take the places of rows 0 to 23, with their attributes; row 24 becomes blank on black. */
  lemma MovedUpBytes(v: seq<nat>, row: nat, j: nat)
    requires |v| == 0x8000 && row < 25 && j < 160
    ensures MovedUp(v)[160 * row + j] == if row < 24 then v[160 * (row + 1) + j] else if j % 2 == 0 then 32 else 0x00
    ensures forall k :: 4000 <= k < 0x8000 ==> MovedUp(v)[k] == v[k]
  {}

  lemma MovedUpIsScrolled(v: seq<nat>)
    requires |v| == WINDOW
    ensures Scrolled(v, MovedUp(v))
  {}

  lemma AttributeIsNoCharacter(v: seq<nat>, j: nat, w: nat, l: Log)
    requires Shown(v, l) && 2 * j + 1 < |v|
    ensures Shown(v[2 * j + 1 := w], l)
  {
    var v' := v[2 * j + 1 := w];
    forall k | 0 <= k < CELLS ensures CharAt(v', k) == l.cells[Top(l) + k] {
      assert CharAt(v', k) == CharAt(v, k);
    }
  }

  lemma ScrollOpens(before: seq<nat>, after: seq<nat>, l: Log)
    requires Shown(before, l) && Scrolled(before, after) && l.pen == |l.cells|
    ensures Shown(after, Open(l))
  {
    var o := Open(l);
    forall k | 0 <= k < CELLS ensures CharAt(after, k) == o.cells[Top(o) + k] {
      if k < CELLS - COLS {
        assert CharAt(before, k + COLS) == l.cells[Top(l) + (k + COLS)];
      }
    }
  }

  lemma StoreShows(v: seq<nat>, l: Log, c: nat)
    requires Shown(v, l) && l.pen < |l.cells|
    ensures var j := l.pen - Top(l);
            Shown(v[2 * j := c], Log(l.cells[l.pen := c], l.pen))
  {
    var j := l.pen - Top(l);
    var v', l' := v[2 * j := c], Log(l.cells[l.pen := c], l.pen);
    forall k | 0 <= k < CELLS ensures CharAt(v', k) == l'.cells[Top(l') + k] {
      assert CharAt(v, k) == l.cells[Top(l) + k];
    }
  }

  /** A scroll, and the cursor's attribute at the start of the last row. */
  lemma ScrollIsShown(v: seq<nat>, l: Log)
    requires Shown(v, l) && l.pen == |l.cells|
    ensures Shown(MovedUp(v)[2 * ((ROWS - 1) * COLS) + 1 := WHITE], Open(l))
  {
    MovedUpIsScrolled(v);
    ScrollOpens(v, MovedUp(v), l);
    AttributeIsNoCharacter(MovedUp(v), (ROWS - 1) * COLS, WHITE, Open(l));
  }

  /** A character, its attribute, and the cursor's attribute behind it. */
  lemma CharacterIsShown(v: seq<nat>, l: Log, c: char)
    requires Shown(v, l) && l.pen < |l.cells| && c != '\n'
    ensures var j := l.pen - Top(l);
            Shown(v[2 * j := c as nat][2 * j + 1 := WHITE][2 * (j + 1) + 1 := WHITE], Put(l, c))
  {
    var j := l.pen - Top(l);
    var l', v' := Put(l, c), v[2 * j := c as nat];
    StoreShows(v, l, c as nat);
    assert Shown(v', l') by { assert l'.cells == l.cells[l.pen := c as nat]; }
    AttributeIsNoCharacter(v', j, WHITE, l');
    AttributeIsNoCharacter(v'[2 * j + 1 := WHITE], j + 1, WHITE, l');
  }

  class TextScreen {
    const vidmem: array<nat>
    var cursorX: int
    var cursorY: int
    ghost var log: Log

    /** The cursor is on the pen, and the cells show the log. */
    ghost predicate Valid()
      reads this, vidmem
    {
      && Shown(vidmem[..], log)
      && 0 <= cursorX < COLS && 0 <= cursorY <= ROWS
      && COLS * cursorY + cursorX == log.pen - Top(log)
    }

    constructor ()
      ensures Valid() && log == Cleared() && fresh(vidmem)
    {
      vidmem := new nat[WINDOW];
      cursorX, cursorY, log := 0, 0, Cleared();
      new;
      KclearScreen();
    }

    method KclearScreen()
      requires vidmem.Length == WINDOW
      modifies this, vidmem
      ensures Valid() && log == Cleared() && cursorX == 10 && cursorY == 0
      ensures forall j :: 0 <= j < 4000 ==> vidmem[j] == if j % 2 == 0 then 32 else 0x00
    {
      var i := 0;
      while i < COLS * ROWS
        invariant 0 <= i <= CELLS && COLS * ROWS == CELLS
        invariant forall j :: 0 <= j < 2 * i ==> vidmem[j] == if j % 2 == 0 then BLANK else BLACK
      {
        vidmem[2 * i] := BLANK;
        vidmem[2 * i + 1] := BLACK;
        i := i + 1;
      }
      cursorX, cursorY := 10, 0;
      log := Cleared();
    }

    /** Any column whose attribute byte lies in the window. */
    method SetCursorPosition(x: int, y: int)
      requires vidmem.Length == WINDOW && 2 * (COLS * ROWS + x) + 1 < WINDOW
      modifies this`cursorX, this`cursorY, vidmem
      ensures cursorX == if x < 0 || x == COLS then 0 else x
      ensures var y' := if x == COLS then y + 1 else y;
              cursorY == if y' < 0 || y' > ROWS then 0 else y'
      ensures vidmem[..] == old(vidmem[..])[2 * (cursorY * 80 + cursorX) + 1 := 0x0F]
    {
      var row := y;
      if x < 0 {
        cursorX := 0;
      } else {
        cursorX := x;
      }
      if x == COLS {
        cursorX := 0;
        row := row + 1;
      }
      if row < 0 || row > ROWS {
        cursorY := 0;
      } else {
        cursorY := row;
      }
      var cursorPos := cursorY * COLS + cursorX;
      vidmem[2 * cursorPos + 1] := WHITE;
    }

    /** The two loops of kscroll_display, in place. */
    method MoveUp()
      requires vidmem.Length == WINDOW
      modifies vidmem
      ensures vidmem[..] == MovedUp(old(vidmem[..]))
    {
      ghost var was := vidmem[..];
      var last := COLS * (ROWS - 1) * 2;
      var i := 0;
      while i <= last
        invariant 0 <= i <= last + 1 && last == 3840
        invariant forall j :: 0 <= j < i ==> vidmem[j] == was[j + 160]
        invariant forall j :: i <= j < WINDOW ==> vidmem[j] == was[j]
      {
        vidmem[i] := vidmem[i + 2 * COLS];
        i := i + 1;
      }
      i := last;
      while i < ROWS * COLS * 2
        invariant 3840 <= i <= 4000 && i % 2 == 0
        invariant forall j :: 0 <= j < 3840 ==> vidmem[j] == was[j + 160]
        invariant forall j :: 3840 <= j < i ==> vidmem[j] == if j % 2 == 0 then BLANK else BLACK
        invariant forall j :: 4000 <= j < WINDOW ==> vidmem[j] == was[j]
      {
        vidmem[i] := BLANK;
        vidmem[i + 1] := BLACK;
        i := i + 2;
      }
    }

    method KscrollDisplay()
      requires Valid() && log.pen == |log.cells|
      modifies this, vidmem
      ensures Valid() && log == Open(old(log)) && cursorX == 0 && cursorY == ROWS - 1
    {
      ghost var v: seq<nat> := vidmem[..];
      ScrollIsShown(v, log);
      MoveUp();
      log := Open(log);
      SetCursorPosition(0, cursorY - 1);
      assert vidmem[..] == MovedUp(v)[2 * ((ROWS - 1) * COLS) + 1 := WHITE];
    }

    /** A newline: leave the row, or only do the scroll that is pending. */
    method NewLine()
      requires Valid()
      modifies this, vidmem
      ensures Valid() && log == Put(old(log), '\n') && cursorX == 0
    {
      if cursorY == ROWS {
        KscrollDisplay();
      } else {
        ghost var l := log;
        log := Put(l, '\n');
        AttributeIsNoCharacter(vidmem[..], (cursorY + 1) * COLS, WHITE, log);
        SetCursorPosition(0, cursorY + 1);
      }
    }

    /** Store one character at byte `i`, with the pen on the screen. */
    method StoreChar(c: char, i: nat)
      requires Valid() && c != '\n' && log.pen < |log.cells| && i == 2 * (COLS * cursorY + cursorX)
      modifies this, vidmem
      ensures Valid() && log == Put(old(log), c) && i < 2 * CELLS && i + 2 == 2 * (COLS * cursorY + cursorX)
      ensures vidmem[..] == old(vidmem[..])[i := c as nat][i + 1 := 0x0F][i + 3 := 0x0F]
    {
      ghost var v: seq<nat> := vidmem[..];
      CharacterIsShown(v, log, c);
      log := Put(log, c);
      vidmem[i] := c as nat;
      vidmem[i + 1] := WHITE;
      SetCursorPosition(cursorX + 1, cursorY);
      ghost var v1: seq<nat> := v[i := c as nat];
      ghost var v2: seq<nat> := v1[i + 1 := WHITE];
      assert vidmem[..] == v2[i + 3 := WHITE];
    }

    /** One character, after the pending scroll if there is one. */
    method PutChar(c: char, i: nat) returns (i': nat)
      requires Valid() && c != '\n' && i == 2 * (COLS * cursorY + cursorX)
      modifies this, vidmem
      ensures Valid() && log == Put(old(log), c) && i' == 2 * (COLS * cursorY + cursorX)
      ensures 2 <= i' < 2 * CELLS + 2
      ensures vidmem[i' - 2] == c as nat && vidmem[i' - 1] == 0x0F && vidmem[i' + 1] == 0x0F
    {
      ghost var l := log;
      i' := i;
      if i' == ROWS * COLS * 2 {
        KscrollDisplay();
        i' := (ROWS - 1) * COLS * 2;
      }
      assert log == Open(l) && Put(Open(l), c) == Put(l, c);
      StoreChar(c, i');
      i' := i' + 2;
    }

    /** kprintf: format into a 100-byte buffer, then write the buffer to the screen. */
    method Kprintf(fmt: CString, args: Arguments) returns (ret: Word)
      requires Valid()
      requires Scan(IDLE, fmt, 0, Rendering(args)).Some?
      requires |Scan(IDLE, fmt, 0, Rendering(args)).value| < BUFFER_SIZE
      modifies this, vidmem
      ensures Valid()
      ensures var text := Scan(IDLE, fmt, 0, Rendering(args)).value;
              log == PutAll(old(log), text) && ret == |text|
    {
      var rendered, count := Vsnprintf(fmt, args);
      ret := count;
      WriteBuffer(rendered.value);
    }

    /** The cursor is on the pen, byte `i` is the cell there, and `n` characters have been written since `before`. */
    ghost predicate Written(before: Log, buffer: string, n: nat, i: nat)
      reads this, vidmem
    {
      Valid() && LogOk(before) && n <= |buffer| && log == PutAll(before, buffer[..n]) &&
      i == 2 * (COLS * cursorY + cursorX)
    }

    /** The inner loop: a run of newlines. */
    method WriteNewlines(buffer: string, at: nat, i: nat, ghost before: Log) returns (index: nat, i': nat)
      requires Written(before, buffer, at, i) && at < |buffer|
      modifies this, vidmem
      ensures Written(before, buffer, index, i') && at <= index
      ensures index < |buffer| ==> buffer[index] != '\n'
    {
      index, i' := at, i;
      while buffer[index] == '\n'
        invariant at <= index < |buffer| && Written(before, buffer, index, i')
        decreases |buffer| - index
      {
        PutAllStep(before, buffer, index);
        NewLine();
        i' := cursorY * COLS * 2;
        index := index + 1;
        if index == |buffer| {
          return;
        }
      }
    }

    /** The buffer goes to the screen; `i` follows the cursor. */
    method WriteBuffer(buffer: string)
      requires Valid()
      modifies this, vidmem
      ensures Valid() && log == PutAll(old(log), buffer)
    {
      var i: nat := (cursorY * COLS + cursorX) * 2;
      ghost var before := log;
      var index := 0;
      while index < |buffer|
        invariant 0 <= index <= |buffer| && Written(before, buffer, index, i)
      {
        index, i := WriteNewlines(buffer, index, i, before);
        if index < |buffer| {
          PutAllStep(before, buffer, index);
          i := PutChar(buffer[index], i);
          index := index + 1;
        }
      }
      assert buffer[..index] == buffer;
    }
  }
}
