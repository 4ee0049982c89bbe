/** What typing does to the text of a terminal, character by character and line by line. */
module TermText {
  import opened Common
  import opened TermLog
  import opened TermView

  predicate Plain(s: seq<byte>) { forall i | 0 <= i < |s| :: Printed(s[i]) }

  /** As many rows more as a cursor at `end` needs. */
  ghost function Length(n: nat, end: nat): (r: nat)
    ensures n <= r && end < r
    decreases if end < n then 0 else end - n + 1
  {
    if end < n then n else Length(n + WIDTH, end)
  }

  /** The cells with `s` written at `x`: before and behind it they are what they were, or zero in a new row. */
  ghost function Written(was: seq<byte>, x: nat, s: seq<byte>): (r: seq<byte>)
    ensures |r| == Length(|was|, x + |s|)
  {
    seq(Length(|was|, x + |s|), i requires i >= 0 => Cell(was, x, s, i))
  }

  ghost function Cell(was: seq<byte>, x: nat, s: seq<byte>, i: nat): byte {
    if x <= i < x + |s| then s[i - x] else if i < |was| then was[i] else 0
  }

  lemma {:induction false} LengthGrows(n: nat, e: nat, e': nat)
    requires e <= e'
    ensures Length(Length(n, e), e') == Length(n, e')
    decreases if e < n then 0 else e - n + 1
  {
    if e >= n {
      LengthGrows(n + WIDTH, e, e');
    }
  }

  /** Writing over what was written, from anywhere in it to its end or beyond. */
  lemma {:induction false} WrittenOver(was: seq<byte>, x: nat, s: seq<byte>, n: nat, t: seq<byte>)
    requires n <= |s| && n <= |t|
    ensures Written(Written(was, x, s), x + |s| - n, t) == Written(was, x, s[..|s| - n] + t)
  {
    LengthGrows(|was|, x + |s|, x + |s| - n + |t|);
    var a, b := Written(Written(was, x, s), x + |s| - n, t), Written(was, x, s[..|s| - n] + t);
    forall i | 0 <= i < |a|
      ensures a[i] == b[i]
    {
      CellOver(was, x, s, n, t, i);
    }
  }

  lemma {:induction false} CellOver(was: seq<byte>, x: nat, s: seq<byte>, n: nat, t: seq<byte>, i: nat)
    requires n <= |s| && n <= |t|
    ensures Cell(Written(was, x, s), x + |s| - n, t, i) == Cell(was, x, s[..|s| - n] + t, i)
  {
    var kept := s[..|s| - n];
    if x <= i < x + |kept| {
      assert Written(was, x, s)[i] == Cell(was, x, s, i);
      assert (kept + t)[i - x] == s[i - x];
    } else if x + |kept| <= i < x + |kept| + |t| {
      assert (kept + t)[i - x] == t[i - x - |kept|];
    } else if i < Length(|was|, x + |s|) {
      assert Written(was, x, s)[i] == Cell(was, x, s, i);
    }
  }

  // ---------------------------------------------------------------------
  // Text
  // ---------------------------------------------------------------------

  /** Printed characters stand where the cursor was, one after the other across rows, and the cursor is behind them. */
  lemma {:induction false} TextStands(l: Log, s: seq<byte>)
    requires LogOk(l) && Plain(s)
    ensures TypeAll(l, s) == Log(Written(l.cells, l.cursor, s), l.cursor + |s|)
    decreases |s|
  {
    if s == [] {
      assert Written(l.cells, l.cursor, s) == l.cells;
    } else {
      var c, t := s[0], s[1..];
      OneStands(l, c);
      TypeKeepsLog(l, c);
      var l1 := Log(Written(l.cells, l.cursor, [c]), l.cursor + 1);
      TextStands(l1, t);
      OneThenText(l.cells, l.cursor, c, t);
      assert s == [c] + t;
    }
  }

  lemma {:induction false} OneThenText(was: seq<byte>, x: nat, c: byte, t: seq<byte>)
    ensures Written(Written(was, x, [c]), x + 1, t) == Written(was, x, [c] + t)
  {
    WrittenOver(was, x, [c], 0, t);
    assert [c][..1] == [c];
  }

  lemma {:induction false} LengthOneMore(n: nat, end: nat)
    requires end <= n
    ensures Length(n, end) == if end < n then n else n + WIDTH
  {
  }

  /** The first character, then the others. */
  lemma {:induction false} Headed(l: Log, c: byte, s: seq<byte>)
    requires LogOk(l)
    ensures LogOk(Type(l, c)) && TypeAll(l, [c] + s) == TypeAll(Type(l, c), s)
  {
    TypeKeepsLog(l, c);
    assert ([c] + s)[1..] == s;
  }

  lemma {:induction false} OneStands(l: Log, c: byte)
    requires LogOk(l) && Printed(c)
    ensures Type(l, c) == Log(Written(l.cells, l.cursor, [c]), l.cursor + 1)
  {
    LengthOneMore(|l.cells|, l.cursor + 1);
    assert Type(l, c).cells == Written(l.cells, l.cursor, [c]);
  }

  lemma {:induction false} ReturnIs(l: Log, r: nat)
    requires LogOk(l) && r % WIDTH == 0 && r <= l.cursor < r + WIDTH
    ensures Type(l, RETURN) == Log(l.cells, r)
  {
    RowIs(l.cursor, r / WIDTH, l.cursor - r);
  }

  /** A return goes back to the start of the row; what is printed next stands there. */
  lemma {:induction false} ReturnThenText(l: Log, r: nat, s: seq<byte>)
    requires LogOk(l) && Plain(s) && r % WIDTH == 0 && r <= l.cursor < r + WIDTH
    ensures TypeAll(l, [RETURN] + s) == Log(Written(l.cells, r, s), r + |s|)
  {
    ReturnIs(l, r);
    Headed(l, RETURN, s);
    TextStands(Log(l.cells, r), s);
  }

  /** A newline goes on to the start of the next row, which is there from then on. */
  lemma {:induction false} NewlineIs(l: Log, r: nat)
    requires LogOk(l) && r % WIDTH == 0 && l.cursor < r <= l.cursor + WIDTH
    ensures Type(l, NEWLINE) == Log(Written(l.cells, r, []), r)
  {
    RowAfterIs(l.cursor);
    RowIs(r, r / WIDTH, 0);
    RowIs(RowAfter(l.cursor), l.cursor / WIDTH + 1, 0);
    RowIs(|l.cells|, |l.cells| / WIDTH, 0);
    LengthOneMore(|l.cells|, r);
    assert Type(l, NEWLINE).cells == Written(l.cells, r, []);
  }

  /** What is printed after a newline stands at the start of the next row. */
  lemma {:induction false} NewlineThenText(l: Log, r: nat, s: seq<byte>)
    requires LogOk(l) && Plain(s) && r % WIDTH == 0 && l.cursor < r <= l.cursor + WIDTH
    ensures TypeAll(l, [NEWLINE] + s) == Log(Written(l.cells, r, s), r + |s|)
  {
    NewlineIs(l, r);
    Headed(l, NEWLINE, s);
    TextStands(Log(Written(l.cells, r, []), r), s);
    WrittenOver(l.cells, r, [], 0, s);
    assert [][..0] + s == s;
  }

  // ---------------------------------------------------------------------
  // Going back
  // ---------------------------------------------------------------------

  /** Backspaces erase nothing: the cursor goes back, but not past the first cell that is kept. */
  lemma {:induction false} BackspacesGoBack(l: Log, n: nat)
    requires LogOk(l)
    ensures TypeAll(l, Repeat(BACKSPACE, n))
         == Log(l.cells, if l.cursor - n >= First(l) then l.cursor - n else First(l))
    decreases n
  {
    if n > 0 {
      TypeKeepsLog(l, BACKSPACE);
      assert Repeat(BACKSPACE, n)[1..] == Repeat(BACKSPACE, n - 1);
      BackspacesGoBack(Type(l, BACKSPACE), n - 1);
    }
  }

  /** Text, backspaces over its end, and at least as much text again: the same as had the end never been typed. */
  lemma {:induction false} Retyped(l: Log, s: seq<byte>, n: nat, t: seq<byte>)
    requires LogOk(l) && Plain(s) && Plain(t) && n <= |s| && n <= |t|
    requires First(TypeAll(l, s)) <= l.cursor + |s| - n
    ensures TypeAll(l, s + Repeat(BACKSPACE, n) + t) == TypeAll(l, s[..|s| - n] + t)
  {
    TypedBack(l, s, n);
    Together(l, 0, s + Repeat(BACKSPACE, n), t);
    TypedOver(l, s, n, TypeAll(l, s + Repeat(BACKSPACE, n)), t);
    TextStands(l, s[..|s| - n] + t);
  }

  lemma {:induction false} TypedOver(l: Log, s: seq<byte>, n: nat, back: Log, t: seq<byte>)
    requires LogOk(l) && LogOk(back) && Plain(t) && n <= |s| && n <= |t|
    requires back == Log(Written(l.cells, l.cursor, s), l.cursor + |s| - n)
    ensures TypeAll(back, t) == Log(Written(l.cells, l.cursor, s[..|s| - n] + t), l.cursor + |s| - n + |t|)
  {
    TextStands(back, t);
    WrittenOver(l.cells, l.cursor, s, n, t);
  }

  lemma {:induction false} TypedBack(l: Log, s: seq<byte>, n: nat)
    requires LogOk(l) && Plain(s) && n <= |s| && First(TypeAll(l, s)) <= l.cursor + |s| - n
    ensures LogOk(TypeAll(l, s + Repeat(BACKSPACE, n)))
    ensures TypeAll(l, s + Repeat(BACKSPACE, n)) == Log(Written(l.cells, l.cursor, s), l.cursor + |s| - n)
  {
    TextStands(l, s);
    TypeAllKeepsLog(l, s);
    Together(l, 0, s, Repeat(BACKSPACE, n));
    BackspacesGoBack(TypeAll(l, s), n);
    TypeAllKeepsLog(l, s + Repeat(BACKSPACE, n));
  }

  /** The last character typed is replaced by a backspace and another, also when it filled its row. */
  lemma {:induction false} Replaced(l: Log, c: byte, d: byte)
    requires LogOk(l) && Printed(c) && Printed(d)
    ensures TypeAll(l, [c, BACKSPACE, d]) == TypeAll(l, [d])
  {
    TypeKeepsLog(l, c);
    assert [c][1..] == [];
    assert TypeAll(l, [c]) == Type(l, c);
    assert First(Type(l, c)) <= l.cursor;
    Retyped(l, [c], 1, [d]);
    assert [c] + Repeat(BACKSPACE, 1) + [d] == [c, BACKSPACE, d] && [c][..0] + [d] == [d];
  }

  // ---------------------------------------------------------------------
  // Lines
  // ---------------------------------------------------------------------

  /** Lines as they are typed, each ended by a newline. */
  ghost function Joined(lines: seq<seq<byte>>): seq<byte> {
    if lines == [] then [] else lines[0] + [NEWLINE] + Joined(lines[1..])
  }

  predicate Short(lines: seq<seq<byte>>) {
    forall j | 0 <= j < |lines| :: Plain(lines[j]) && |lines[j]| < WIDTH
  }

  /** The cells with the lines written on rows of their own from `x` on. */
  ghost function Rows(was: seq<byte>, x: nat, lines: seq<seq<byte>>): seq<byte>
    decreases |lines|
  {
    if lines == [] then was
    else
      Rows(Written(Written(was, x, lines[0]), x + WIDTH, []), x + WIDTH, lines[1..])
  }

  /** Lines shorter than a row stand one below the other, and the cursor is below the last. */
  lemma {:induction false} LinesStand(l: Log, lines: seq<seq<byte>>)
    requires LogOk(l) && l.cursor % WIDTH == 0 && Short(lines)
    ensures TypeAll(l, Joined(lines)) == Log(Rows(l.cells, l.cursor, lines), l.cursor + WIDTH * |lines|)
    decreases |lines|
  {
    if lines != [] {
      var s, rest := lines[0], lines[1..];
      LineStands(l, s);
      Together(l, 0, s + [NEWLINE], Joined(rest));
      assert Short(rest);
      LinesStand(TypeAll(l, s + [NEWLINE]), rest);
    }
  }

  lemma {:induction false} LineStands(l: Log, s: seq<byte>)
    requires LogOk(l) && l.cursor % WIDTH == 0 && Plain(s) && |s| < WIDTH
    ensures LogOk(TypeAll(l, s + [NEWLINE])) && (l.cursor + WIDTH) % WIDTH == 0
    ensures TypeAll(l, s + [NEWLINE])
         == Log(Written(Written(l.cells, l.cursor, s), l.cursor + WIDTH, []), l.cursor + WIDTH)
  {
    var x := l.cursor;
    RowIs(x + WIDTH, x / WIDTH + 1, 0);
    OneMore(l, 0, s, NEWLINE);
    TypeAllKeepsLog(l, s + [NEWLINE]);
    TextStands(l, s);
    NewlineIs(Log(Written(l.cells, x, s), x + |s|), x + WIDTH);
  }

  /** Column `i` of the `j`-th row from `x` on. */
  ghost function Column(x: nat, j: nat, i: nat): nat { x + WIDTH * j + i }

  /** What stands in each cell of those rows: the line, and behind it what was there, or zeros. */
  lemma {:induction false} RowsAre(was: seq<byte>, x: nat, lines: seq<seq<byte>>, j: nat, i: nat)
    requires Short(lines) && j < |lines| && i < WIDTH
    ensures Column(x, j, i) < |Rows(was, x, lines)|
    ensures Rows(was, x, lines)[Column(x, j, i)] == Cell(was, Column(x, j, 0), lines[j], Column(x, j, i))
    decreases |lines|
  {
    var s, rest := lines[0], lines[1..];
    var now := Written(Written(was, x, s), x + WIDTH, []);
    RowWritten(was, x, s);
    assert Short(rest);
    if j == 0 {
      RowsKeep(now, x + WIDTH, rest, x + i);
    } else {
      RowsAre(now, x + WIDTH, rest, j - 1, i);
      assert Column(x, j, i) == Column(x + WIDTH, j - 1, i) && Column(x, j, 0) == Column(x + WIDTH, j - 1, 0);
    }
  }

  lemma {:induction false} RowWritten(was: seq<byte>, x: nat, s: seq<byte>)
    requires |s| < WIDTH
    ensures var now := Written(Written(was, x, s), x + WIDTH, []);
      && |was| <= |now| && x + WIDTH < |now|
      && forall i: nat | i < |now| :: now[i] == Cell(was, x, s, i)
  {
  }

  lemma {:induction false} RowsKeep(was: seq<byte>, x: nat, lines: seq<seq<byte>>, i: nat)
    requires Short(lines) && i < x && i < |was|
    ensures |was| <= |Rows(was, x, lines)| && Rows(was, x, lines)[i] == was[i]
    decreases |lines|
  {
    if lines != [] {
      RowWritten(was, x, lines[0]);
      assert Short(lines[1..]);
      RowsKeep(Written(Written(was, x, lines[0]), x + WIDTH, []), x + WIDTH, lines[1..], i);
    }
  }
}
