/** What a terminal shows of its buffer, and when drawing one cell is enough. */
module TermView {
  import opened Common
  import opened TermLog

  /** What the screen shows of the buffer: everything from `top` to the tail, and zeros behind it. */
  ghost function Shown(buf: seq<byte>, top: nat, tail: nat, i: nat): byte
    requires |buf| == BUFFER && top < BUFFER && tail < BUFFER
  {
    if i < Dist(tail, top) then buf[(top + i) % BUFFER] else 0
  }

  ghost predicate Shows(screen: seq<byte>, buf: seq<byte>, top: nat, tail: nat)
    requires |buf| == BUFFER && top < BUFFER && tail < BUFFER
  {
    |screen| == SCREEN && forall i | 0 <= i < SCREEN :: screen[i] == Shown(buf, top, tail, i)
  }

  // ---------------------------------------------------------------------
  // Around the buffer
  // ---------------------------------------------------------------------

  /** Counting from `top`, position `p` is the `Dist(p, top)`-th. */
  lemma Around(top: nat, p: nat, i: nat)
    requires top < BUFFER && p < BUFFER && i < BUFFER
    ensures (top + i) % BUFFER == p <==> i == Dist(p, top)
  {
    if p >= top {
      PosIs(p - top + BUFFER, 1, p - top);
    } else {
      PosIs(p - top + BUFFER, 0, p - top + BUFFER);
    }
    if top + i < BUFFER {
      PosIs(top + i, 0, top + i);
    } else {
      PosIs(top + i, 1, top + i - BUFFER);
    }
  }

  /** A row of the buffer, counting from `top`. */
  lemma RowAround(top: nat, row: nat, i: nat)
    requires top < BUFFER && row + WIDTH <= BUFFER && i < BUFFER && Dist(row, top) + WIDTH <= BUFFER
    ensures row <= (top + i) % BUFFER < row + WIDTH <==> Dist(row, top) <= i < Dist(row, top) + WIDTH
  {
    if row >= top {
      PosIs(row - top + BUFFER, 1, row - top);
    } else {
      PosIs(row - top + BUFFER, 0, row - top + BUFFER);
    }
    if top + i < BUFFER {
      PosIs(top + i, 0, top + i);
    } else {
      PosIs(top + i, 1, top + i - BUFFER);
    }
  }

  /** A step of `j` from `p` to `q` is one of `j` as counted from `top`, too. */
  lemma StepAround(top: nat, p: nat, q: nat, j: nat)
    requires top < BUFFER && p < BUFFER && q < BUFFER && q == (p + j) % BUFFER && Dist(p, top) + j < BUFFER
    ensures Dist(q, top) == Dist(p, top) + j
  {
    var d := Dist(p, top);
    Around(top, p, d);
    var n := (top + d) / BUFFER;
    assert top + d == BUFFER * n + p;
    PosIs(top + (d + j), n + (p + j) / BUFFER, q);
    Around(top, q, d + j);
  }

  // ---------------------------------------------------------------------
  // One character
  // ---------------------------------------------------------------------

  predicate Printed(c: byte) { c != BACKSPACE && c != RETURN && c != NEWLINE }

  /** The top when the next character comes: if the cursor is not on the screen, its row becomes the last one shown. */
  function NextTop(cursor: nat, top: nat): (t: nat)
    requires cursor < BUFFER && top < BUFFER
    ensures t < BUFFER
  {
    if Dist(cursor, top) >= SCREEN then Add(NextRow(cursor), -SCREEN) else top
  }

  /** What a character does to the bytes of the buffer: its own cell is written and a row that is added is cleared. */
  ghost predicate Wrote(was: seq<byte>, now: seq<byte>, l: Log, c: byte)
    requires LogOk(l)
  {
    && |now| == |was| == BUFFER
    && forall i | 0 <= i < BUFFER :: now[i] ==
         if |Type(l, c).cells| > |l.cells| && Pos(|l.cells|) <= i < Pos(|l.cells|) + WIDTH then 0
         else if Printed(c) && i == Pos(l.cursor) then c
         else was[i]
  }

  /**
   * The screen goes on to show the buffer: it is drawn anew, or no cell is drawn, or the cell
   * lies in front of the tail as counted from the top, or it is blank.
   */
  predicate Fine(cursor: nat, tail: nat, top: nat, c: byte)
    requires cursor < BUFFER && tail < BUFFER && top < BUFFER
  {
    Dist(cursor, top) >= SCREEN || !Printed(c) || c == 0 || Dist(cursor, top) < Dist(tail, top)
  }

  /** After one character, drawing its cell is as good as drawing everything if and only if it is fine. */
  lemma DrawOne(screen: seq<byte>, screen': seq<byte>, buf: seq<byte>, buf': seq<byte>, l: Log, c: byte, top: nat)
    requires LogOk(l) && Wrote(buf, buf', l, c) && top < BUFFER && Dist(Pos(l.cursor), top) < SCREEN
    requires Shows(screen, buf, top, Pos(|l.cells|))
    requires screen' == if Printed(c) then screen[Dist(Pos(l.cursor), top) := c] else screen
    ensures Shows(screen', buf', top, Pos(|Type(l, c).cells|)) <==> Fine(Pos(l.cursor), Pos(|l.cells|), top, c)
  {
    var l' := Type(l, c);
    if |l'.cells| == |l.cells| {
      DrawInPlace(screen, screen', buf, buf', l, c, top);
    } else {
      DrawAndGrow(screen, screen', buf, buf', l, c, top);
    }
  }

  lemma DrawInPlace(screen: seq<byte>, screen': seq<byte>, buf: seq<byte>, buf': seq<byte>, l: Log, c: byte, top: nat)
    requires LogOk(l) && Wrote(buf, buf', l, c) && top < BUFFER && Dist(Pos(l.cursor), top) < SCREEN
    requires Shows(screen, buf, top, Pos(|l.cells|)) && |Type(l, c).cells| == |l.cells|
    requires screen' == if Printed(c) then screen[Dist(Pos(l.cursor), top) := c] else screen
    ensures Shows(screen', buf', top, Pos(|l.cells|)) <==> Fine(Pos(l.cursor), Pos(|l.cells|), top, c)
  {
    var tail, cursor := Pos(|l.cells|), Pos(l.cursor);
    var rel := Dist(cursor, top);
    forall i | 0 <= i < SCREEN
      ensures screen'[i] == Shown(buf', top, tail, i) <==>
        i != rel || !Printed(c) || c == 0 || rel < Dist(tail, top)
    {
      Around(top, cursor, i);
    }
    assert screen'[rel] == Shown(buf', top, tail, rel) <==> Fine(cursor, tail, top, c);
  }

  lemma DrawAndGrow(screen: seq<byte>, screen': seq<byte>, buf: seq<byte>, buf': seq<byte>, l: Log, c: byte, top: nat)
    requires LogOk(l) && Wrote(buf, buf', l, c) && top < BUFFER && Dist(Pos(l.cursor), top) < SCREEN
    requires Shows(screen, buf, top, Pos(|l.cells|)) && |Type(l, c).cells| > |l.cells|
    requires screen' == if Printed(c) then screen[Dist(Pos(l.cursor), top) := c] else screen
    ensures Shows(screen', buf', top, Pos(|Type(l, c).cells|)) && Fine(Pos(l.cursor), Pos(|l.cells|), top, c)
  {
    var n, cursor := |l.cells|, Pos(l.cursor);
    var tail, tail' := Pos(n), Pos(n + WIDTH);
    var j := n - l.cursor;
    Grows(l, c);
    AddPos(l.cursor, j);
    StepAround(top, cursor, tail, j);
    StepAround(top, cursor, tail', j + WIDTH);
    forall i | 0 <= i < SCREEN
      ensures screen'[i] == Shown(buf', top, tail', i)
    {
      Around(top, cursor, i);
      RowAround(top, tail, i);
    }
  }

  /** A row is added only from the last one. */
  lemma Grows(l: Log, c: byte)
    requires LogOk(l) && |Type(l, c).cells| > |l.cells|
    ensures |Type(l, c).cells| == |l.cells| + WIDTH && |l.cells| <= l.cursor + WIDTH
    ensures Pos(|l.cells|) + WIDTH <= BUFFER && Pos(|l.cells|) == (Pos(l.cursor) + (|l.cells| - l.cursor)) % BUFFER
    ensures Pos(|l.cells| + WIDTH) == (Pos(l.cursor) + (|l.cells| - l.cursor) + WIDTH) % BUFFER
  {
    RowAfterIs(l.cursor);
    var n, x := |l.cells|, l.cursor;
    PosIs(Pos(x) + (n - x), n / BUFFER - x / BUFFER, Pos(n));
    PosIs(Pos(x) + (n - x) + WIDTH, (n + WIDTH) / BUFFER - x / BUFFER, Pos(n + WIDTH));
    RowStartPos(n);
    RowIs(n, n / WIDTH, 0);
  }

  // ---------------------------------------------------------------------
  // A stream of characters
  // ---------------------------------------------------------------------

  ghost function TypeAll(l: Log, cs: seq<byte>): Log
    requires LogOk(l)
    decreases |cs|
  {
    if cs == [] then l else (TypeKeepsLog(l, cs[0]); TypeAll(Type(l, cs[0]), cs[1..]))
  }

  /** However much is typed, the log stays well formed and never shrinks. */
  lemma {:induction false} TypeAllKeepsLog(l: Log, cs: seq<byte>)
    requires LogOk(l)
    ensures LogOk(TypeAll(l, cs)) && |l.cells| <= |TypeAll(l, cs).cells| <= |l.cells| + WIDTH * |cs|
    decreases |cs|
  {
    if cs != [] {
      TypeKeepsLog(l, cs[0]);
      TypeAllKeepsLog(Type(l, cs[0]), cs[1..]);
    }
  }

  /** The top after a stream of characters. */
  ghost function TopAll(l: Log, top: nat, cs: seq<byte>): (t: nat)
    requires LogOk(l) && top < BUFFER
    ensures t < BUFFER
    decreases |cs|
  {
    if cs == [] then top
    else
      (TypeKeepsLog(l, cs[0]); TopAll(Type(l, cs[0]), NextTop(Pos(l.cursor), top), cs[1..]))
  }

  /** Every character of a stream is fine when it comes. */
  ghost predicate FineAll(l: Log, top: nat, cs: seq<byte>)
    requires LogOk(l) && top < BUFFER
    decreases |cs|
  {
    cs == [] ||
    (TypeKeepsLog(l, cs[0]);
     Fine(Pos(l.cursor), Pos(|l.cells|), top, cs[0])
     && FineAll(Type(l, cs[0]), NextTop(Pos(l.cursor), top), cs[1..]))
  }

  /** One character more at the end. */
  lemma {:induction false} OneMore(l: Log, top: nat, cs: seq<byte>, c: byte)
    requires LogOk(l) && top < BUFFER
    ensures LogOk(TypeAll(l, cs)) && TypeAll(l, cs + [c]) == Type(TypeAll(l, cs), c)
    ensures TopAll(l, top, cs + [c]) == NextTop(Pos(TypeAll(l, cs).cursor), TopAll(l, top, cs))
    ensures FineAll(l, top, cs + [c]) <==>
      FineAll(l, top, cs) && Fine(Pos(TypeAll(l, cs).cursor), Pos(|TypeAll(l, cs).cells|), TopAll(l, top, cs), c)
    decreases |cs|
  {
    TypeKeepsLog(l, c);
    if cs == [] {
      assert cs + [c] == [c] && [c][1..] == [];
    } else {
      assert (cs + [c])[1..] == cs[1..] + [c];
      TypeKeepsLog(l, cs[0]);
      OneMore(Type(l, cs[0]), NextTop(Pos(l.cursor), top), cs[1..], c);
    }
  }

  lemma {:induction false} Together(l: Log, top: nat, cs: seq<byte>, ds: seq<byte>)
    requires LogOk(l) && top < BUFFER
    ensures LogOk(TypeAll(l, cs)) && TypeAll(l, cs + ds) == TypeAll(TypeAll(l, cs), ds)
    ensures TopAll(l, top, cs + ds) == TopAll(TypeAll(l, cs), TopAll(l, top, cs), ds)
    decreases |cs|
  {
    if cs == [] {
      assert cs + ds == ds;
    } else {
      assert (cs + ds)[1..] == cs[1..] + ds;
      TypeKeepsLog(l, cs[0]);
      Together(Type(l, cs[0]), NextTop(Pos(l.cursor), top), cs[1..], ds);
    }
  }

  /** A stream that prints nothing is fine. */
  lemma {:induction false} ControlsAreFine(l: Log, top: nat, cs: seq<byte>)
    requires LogOk(l) && top < BUFFER && forall i | 0 <= i < |cs| :: !Printed(cs[i])
    ensures FineAll(l, top, cs)
    decreases |cs|
  {
    if cs != [] {
      TypeKeepsLog(l, cs[0]);
      ControlsAreFine(Type(l, cs[0]), NextTop(Pos(l.cursor), top), cs[1..]);
    }
  }

  // ---------------------------------------------------------------------
  // A stream after which the screen does not show the buffer
  // ---------------------------------------------------------------------

  function Repeat(c: byte, n: nat): (cs: seq<byte>)
    ensures |cs| == n
  {
    seq(n, _ => c)
  }

  ghost const START: Log := Log(Blank(), 0)

  /** The log after `k` newlines. */
  ghost function Lines(k: nat): Log { Log(seq((k + 1) * WIDTH, _ => 0), k * WIDTH) }

  ghost function LinesTop(k: nat): nat { if k * WIDTH < SCREEN then 0 else k * WIDTH - SCREEN }

  lemma {:induction false} Newlines(k: nat, n: nat)
    requires k + n <= 100
    ensures LogOk(Lines(k)) && TypeAll(Lines(k), Repeat(NEWLINE, n)) == Lines(k + n)
    ensures TopAll(Lines(k), LinesTop(k), Repeat(NEWLINE, n)) == LinesTop(k + n)
    decreases n
  {
    LinesOk(k);
    if n > 0 {
      OneNewline(k);
      Newlines(k + 1, n - 1);
      FirstOfMany(Lines(k), LinesTop(k), NEWLINE, n - 1);
    }
  }

  lemma LinesOk(k: nat)
    requires k <= 100
    ensures LogOk(Lines(k)) && First(Lines(k)) == 0
  {
    RowIs((k + 1) * WIDTH, k + 1, 0);
  }

  lemma OneNewline(k: nat)
    requires k < 100
    ensures LogOk(Lines(k)) && Type(Lines(k), NEWLINE) == Lines(k + 1)
    ensures NextTop(Pos(Lines(k).cursor), LinesTop(k)) == LinesTop(k + 1)
  {
    LinesOk(k);
    var x := k * WIDTH;
    RowIs(x, k, 0);
    PosIs(x, 0, x);
    assert Lines(k).cells + Blank() == Lines(k + 1).cells;
    PosIs((x - LinesTop(k)) + BUFFER, 1, x - LinesTop(k));
    PosIs((k + 1) * WIDTH, 0, (k + 1) * WIDTH);
    if x >= SCREEN {
      PosIs((k + 1) * WIDTH - SCREEN + BUFFER, 1, (k + 1) * WIDTH - SCREEN);
    }
  }

  /** After 100 newlines and some backspaces. */
  ghost function Back(x: nat): Log { Log(Lines(100).cells, x) }

  /** The top when a backspace has come with the cursor at `x`. */
  ghost function BackTop(x: nat): nat {
    if x >= 6080 then 6080 else if x >= 4080 then 4080 else if x >= 2080 then 2080 else if x >= 80 then 80 else 8080
  }

  lemma {:induction false} Backspaces(x: nat, n: nat)
    requires n <= x < 8000
    ensures LogOk(Back(x)) && TypeAll(Back(x), Repeat(BACKSPACE, n)) == Back(x - n)
    ensures TopAll(Back(x), BackTop(x + 1), Repeat(BACKSPACE, n)) == BackTop(x - n + 1)
    decreases n
  {
    LinesOk(100);
    if n > 0 {
      PosIs(x, 0, x);
      BackStep(x);
      Backspaces(x - 1, n - 1);
      FirstOfMany(Back(x), BackTop(x + 1), BACKSPACE, n - 1);
    }
  }

  lemma BackStep(x: nat)
    requires x < 8000
    ensures NextTop(x, BackTop(x + 1)) == BackTop(x)
  {
  }

  /** 100 newlines and 8000 backspaces: the cursor is at the start, and top and tail meet. */
  ghost const STREAM: seq<byte> := Repeat(NEWLINE, 100) + Repeat(BACKSPACE, 8000)

  lemma AfterStream()
    ensures LogOk(START) && TypeAll(START, STREAM) == Back(0) && TopAll(START, 0, STREAM) == 8080
    ensures FineAll(START, 0, STREAM)
  {
    assert START == Lines(0);
    LinesOk(0);
    Together(START, 0, Repeat(NEWLINE, 100), Repeat(BACKSPACE, 8000));
    Newlines(0, 100);
    FirstBack();
    Backspaces(7999, 7999);
    ControlsAreFine(START, 0, STREAM);
  }

  lemma FirstBack()
    ensures LogOk(Lines(100)) && LogOk(Back(7999))
    ensures TypeAll(Lines(100), Repeat(BACKSPACE, 8000)) == TypeAll(Back(7999), Repeat(BACKSPACE, 7999))
    ensures TopAll(Lines(100), LinesTop(100), Repeat(BACKSPACE, 8000))
         == TopAll(Back(7999), BackTop(8000), Repeat(BACKSPACE, 7999))
  {
    LinesOk(100);
    TopJumps();
    FirstOfMany(Lines(100), LinesTop(100), BACKSPACE, 7999);
  }

  lemma TopJumps()
    ensures NextTop(Pos(Lines(100).cursor), LinesTop(100)) == BackTop(8000)
  {
  }

  lemma FirstOfMany(l: Log, top: nat, c: byte, n: nat)
    requires LogOk(l) && top < BUFFER
    ensures LogOk(Type(l, c)) && TypeAll(l, Repeat(c, n + 1)) == TypeAll(Type(l, c), Repeat(c, n))
    ensures TopAll(l, top, Repeat(c, n + 1)) == TopAll(Type(l, c), NextTop(Pos(l.cursor), top), Repeat(c, n))
  {
    TypeKeepsLog(l, c);
    assert Repeat(c, n + 1)[1..] == Repeat(c, n);
  }
}
