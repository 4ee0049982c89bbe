/** The virtual terminal: its scroll buffer and what it shows of it. */
module Term {
  import opened Common
  import opened TermLog
  import opened TermView

  /** The buffer holds the newest part of the log. */
  ghost predicate Holds(buf: seq<byte>, l: Log)
    requires |buf| == BUFFER
  {
    forall x: nat | First(l) <= x < |l.cells| :: buf[Pos(x)] == l.cells[x]
  }

  /** Copy `n` bytes. */
  method Copy(dst: array<byte>, at: nat, src: array<byte>, from: nat, n: nat)
    requires dst != src && at + n <= dst.Length && from + n <= src.Length
    modifies dst
    ensures forall i | 0 <= i < dst.Length :: dst[i] == if at <= i < at + n then src[from + i - at] else old(dst[i])
  {
    var j := 0;
    while j < n
      invariant 0 <= j <= n
      invariant forall i | 0 <= i < dst.Length :: dst[i] == if at <= i < at + j then src[from + i - at] else old(dst[i])
    {
      dst[at + j] := src[from + j];
      j := j + 1;
    }
  }

  class VirtTerm {
    const buf: array<byte>
    /** The cells of the screen. */
    const screen: array<byte>
    var head: nat
    var tail: nat
    var top: nat
    var cursor: nat
    ghost var log: Log

    ghost predicate Valid()
      reads this, buf
    {
      && buf.Length == BUFFER && screen.Length == SCREEN && buf != screen && LogOk(log) && Holds(buf[..], log)
      && head == Pos(First(log)) && tail == Pos(|log.cells|) && cursor == Pos(log.cursor) && top < BUFFER
        && top % WIDTH == 0
    }

    constructor ()
      ensures Valid() && fresh(buf) && fresh(screen) && log == START && top == 0 && Current()
    {
      buf := new byte[BUFFER](_ => 0);
      screen := new byte[SCREEN](_ => 0);
      head, tail, top, cursor := 0, WIDTH, 0, 0;
      log := Log(Blank(), 0);
    }

    /** Zero a range of the buffer. */
    method Clear(from: nat, to: nat)
      requires from <= to <= buf.Length
      modifies buf
      ensures forall i | 0 <= i < buf.Length :: buf[i] == if from <= i < to then 0 else old(buf[i])
    {
      var i := from;
      while i < to
        invariant from <= i <= to
        invariant forall j | 0 <= j < buf.Length :: buf[j] == if from <= j < i then 0 else old(buf[j])
      {
        buf[i] := 0;
        i := i + 1;
      }
    }

    /** The cursor has reached the tail at `at`: add a blank row, and drop the oldest one if the buffer is full. */
    method AdvanceTail(at: nat)
      requires buf.Length == BUFFER && |log.cells| % WIDTH == 0 && |log.cells| > 0 && Holds(buf[..], log)
      requires head == Pos(First(log)) && tail == Pos(|log.cells|) && at == tail
      modifies this`head, this`tail, this`log, buf
      ensures log == old(log).(cells := old(log).cells + Blank())
      ensures Holds(buf[..], log) && head == Pos(First(log)) && tail == Pos(|log.cells|)
      ensures forall i | 0 <= i < BUFFER :: buf[i] == if old(tail) <= i < old(tail) + WIDTH then 0 else old(buf[i])
    {
      ghost var l, n := log, |log.cells|;
      var newTail := NextRow(at);
      TailFacts(l);
      if Dist(tail, head) >= Dist(tail, newTail) {
        head := NextRow(newTail);
      }
      ghost var was := buf[..];
      if tail <= newTail {
        Clear(tail, newTail);
      } else {
        Clear(tail, BUFFER);
        Clear(0, newTail);
      }
      assert forall i | 0 <= i < BUFFER :: buf[..][i] == if Pos(n) <= i < Pos(n) + WIDTH then 0 else was[i];
      log := log.(cells := log.cells + Blank());
      RowAdded(was, buf[..], l, log);
      tail := newTail;
    }

    /** `vt_handle_char`: the terminal does what the log does. */
    method HandleChar(c: byte) returns (put: bool)
      requires Valid()
      modifies this`head, this`tail, this`cursor, this`log, buf
      ensures Valid() && log == Type(old(log), c) && put == Printed(c) && Wrote(old(buf[..]), buf[..], old(log), c)
    {
      put := false;
      if c == BACKSPACE {
        Back();
      } else if c == RETURN {
        RowStart();
      } else if c == NEWLINE {
        NextRowPos(log.cursor);
        TypeKeepsLog(log, c);
        RowAfterIs(log.cursor);
        MoveTo(NextRow(cursor), RowAfter(log.cursor));
      } else {
        put := true;
        Put(c);
      }
    }

    method Back()
      requires Valid()
      modifies this`cursor, this`log
      ensures Valid() && log == Type(old(log), BACKSPACE)
    {
      AtHead(log);
      if cursor != head {
        AddPos(log.cursor, -1);
        cursor := Add(cursor, -1);
        log := Log(log.cells, log.cursor - 1);
      }
    }

    method RowStart()
      requires Valid()
      modifies this`cursor, this`log
      ensures Valid() && log == Type(old(log), RETURN)
    {
      TypeKeepsLog(log, RETURN);
      RowStartPos(log.cursor);
      cursor := cursor / WIDTH * WIDTH;
      log := Log(log.cells, log.cursor / WIDTH * WIDTH);
    }

    method Put(c: byte)
      requires Valid() && Printed(c)
      modifies this`head, this`tail, this`cursor, this`log, buf
      ensures Valid() && log == Type(old(log), c) && Wrote(old(buf[..]), buf[..], old(log), c)
    {
      ghost var l := log;
      TypeKeepsLog(l, c);
      CellWritten(buf[..], l, c);
      buf[cursor] := c;
      assert buf[..] == old(buf[..])[cursor := c];
      AddPos(l.cursor, 1);
      log := l.(cells := l.cells[l.cursor := c]);
      MoveTo(Add(cursor, 1), l.cursor + 1);
    }

    /** `vt_redraw`: five ways of copying that come to one. */
    method Redraw()
      requires buf.Length == BUFFER && screen.Length == SCREEN && buf != screen && top < BUFFER && tail < BUFFER
      modifies screen
      ensures Shows(screen[..], buf[..], top, tail)
    {
      var temp := new byte[SCREEN](_ => 0);
      if top <= tail {
        Copy(temp, 0, buf, top, if tail - top <= SCREEN then tail - top else SCREEN);
      } else {
        var first := BUFFER - top;
        if first >= SCREEN {
          Copy(temp, 0, buf, top, SCREEN);
        } else {
          Copy(temp, 0, buf, top, first);
          Copy(temp, first, buf, 0, if first + tail <= SCREEN then tail else SCREEN - first);
        }
      }
      forall i | 0 <= i < SCREEN
        ensures temp[i] == Shown(buf[..], top, tail, i)
      {
        ShownIs(buf[..], top, tail, i);
      }
      Copy(screen, 0, temp, 0, SCREEN);
    }

    /** The cursor is on the screen. */
    predicate OnScreen()
      reads this
      requires cursor < BUFFER && top < BUFFER
    {
      Dist(cursor, top) < SCREEN
    }

    /** The top of the screen lies between the head of the buffer and the cursor. */
    predicate InView()
      reads this
      requires cursor < BUFFER && top < BUFFER && head < BUFFER
    {
      Dist(top, head) + Dist(cursor, top) == Dist(cursor, head)
    }

    /** If the cursor is not on the screen, move the top so that it is on the last row. */
    method ShowCursor() returns (moved: bool)
      requires Valid()
      modifies this`top
      ensures Valid() && OnScreen() && moved == !old(OnScreen()) && (moved <==> top != old(top))
      ensures top == NextTop(cursor, old(top))
      ensures moved ==> (InView() <==> RowAfter(log.cursor) >= First(log) + SCREEN)
    {
      moved := Dist(cursor, top) >= SCREEN;
      if moved {
        NextRowPos(log.cursor);
        TopMoved(log, NextRow(cursor));
        top := NextRow(cursor);
        top := Add(top, -SCREEN);
      }
    }

    /** What is on the screen is what is in the buffer. */
    ghost predicate Current()
      requires buf.Length == BUFFER && top < BUFFER && tail < BUFFER
      reads this, buf, screen
    {
      Shows(screen[..], buf[..], top, tail)
    }

    /**
     * `vt_provide_char` on the terminal that is shown. The log does what the character says. If
     * the screen showed the buffer before, then it does so after, although often only one cell
     * has been drawn, if and only if the character was fine.
     */
    method ProvideChar(c: byte)
      requires Valid()
      modifies this`head, this`tail, this`cursor, this`log, this`top, buf, screen
      ensures Valid() && log == Type(old(log), c) && top == NextTop(old(cursor), old(top))
      ensures old(Current()) ==> (Current() <==> Fine(old(cursor), old(tail), old(top), c))
    {
      var oldCursor := cursor;
      var moved := ShowCursor();
      ghost var was, l, shown := buf[..], log, Current();
      var put := HandleChar(c);
      if moved {
        Redraw();
        return;
      }
      if put {
        var at := Dist(oldCursor, top);
        screen[at] := c;
      }
      if shown {
        DrawOne(old(screen[..]), screen[..], was, buf[..], l, c, top);
      }
    }

    /** The top is a row between head and tail. */
    ghost predicate TopInside()
      requires Valid()
      reads this, buf
    {
      Dist(top, head) < Dist(tail, head)
    }

    /** To the start of the buffer at most. */
    method ScrollUp(lines: nat)
      requires Valid()
      modifies this`top
      ensures Valid() && var d := Dist(old(top), head);
        Dist(top, head) == if d < lines * WIDTH then 0 else d - lines * WIDTH
    {
      HeadIsRow(log);
      Itself(head);
      if Dist(top, head) < lines * WIDTH {
        top := head;
      } else {
        RowsBack(top, head, lines);
        top := Add(top, -(lines * WIDTH));
      }
    }

    /** To the last row at most. */
    method ScrollDown(lines: nat)
      requires Valid()
      modifies this`top
      ensures Valid() && var e := Dist(tail, old(top));
        Dist(tail, top) == if e < (lines + 1) * WIDTH then WIDTH else e - lines * WIDTH
    {
      TopRow(|log.cells|);
      if Dist(tail, top) < (lines + 1) * WIDTH {
        LastRow(tail);
        top := tail;
        top := Add(top, -WIDTH);
      } else {
        RowsOn(top, tail, lines);
        top := Add(top, lines * WIDTH);
      }
    }

    /**
     * `vt_scroll`, from wherever the top is: up, its distance from the head shrinks by the lines
     * asked for or to nothing; down, its distance from the tail, or to one row. A top inside the
     * buffer stays there, and the screen shows the buffer.
     */
    method Scroll(lines: nat, up: bool)
      requires Valid()
      modifies this`top, screen
      ensures Valid() && Current() && (old(TopInside()) ==> TopInside())
      ensures up ==> var d := Dist(old(top), head);
        Dist(top, head) == if d < lines * WIDTH then 0 else d - lines * WIDTH
      ensures !up ==> var e := Dist(tail, old(top));
        Dist(tail, top) == if e < (lines + 1) * WIDTH then WIDTH else e - lines * WIDTH
    {
      ghost var was := top;
      BufferBounds(log);
      if up {
        ScrollUp(lines);
      } else {
        ScrollDown(lines);
        StaysInside(head, tail, was, top);
      }
      Redraw();
    }

    /** Move the cursor forward to `at`, which is position `x` of the log. */
    method MoveTo(at: nat, ghost x: nat)
      requires Valid() && at == Pos(x) && log.cursor < x <= |log.cells|
      modifies this`head, this`tail, this`cursor, this`log, buf
      ensures log == Advance(old(log).cells, x)
      ensures LogOk(log) ==> Valid()
      ensures forall i | 0 <= i < BUFFER ::
        buf[i] == if x >= |old(log).cells| && old(tail) <= i < old(tail) + WIDTH then 0 else old(buf[i])
    {
      ghost var l := log;
      DistPos(x, l.cursor);
      DistPos(|l.cells|, l.cursor);
      if Dist(at, cursor) >= Dist(tail, cursor) {
        AdvanceTail(at);
      }
      log := log.(cursor := x);
      cursor := at;
    }
  }

  /** One row on from the start of a row. */
  lemma RowOn(n: nat)
    requires n % WIDTH == 0
    ensures NextRow(Pos(n)) == Pos(n + WIDTH) && Pos(n) + WIDTH <= BUFFER
    ensures Pos(n + WIDTH) == if Pos(n) + WIDTH == BUFFER then 0 else Pos(n) + WIDTH
  {
    NextRowPos(n);
    RowAfterIs(n);
    RowStartPos(n);
    RowIs(n, n / WIDTH, 0);
    NextInBuffer(n, Pos(n), n / BUFFER);
  }

  lemma NextInBuffer(n: nat, p: nat, k: nat)
    requires n == BUFFER * k + p && p < BUFFER && p == p / WIDTH * WIDTH
    ensures p + WIDTH <= BUFFER && Pos(n + WIDTH) == if p + WIDTH == BUFFER then 0 else p + WIDTH
  {
    if p + WIDTH == BUFFER {
      PosIs(n + WIDTH, k + 1, 0);
    } else {
      PosIs(n + WIDTH, k, p + WIDTH);
    }
  }

  lemma OnceAround(n: nat)
    ensures Pos(n + BUFFER) == Pos(n)
  {
    PosIs(n + BUFFER, n / BUFFER + 1, Pos(n));
  }

  /** Where the new tail and the new head are. */
  lemma TailFacts(l: Log)
    requires |l.cells| % WIDTH == 0 && |l.cells| > 0
    ensures var n, first := |l.cells|, First(l);
      && NextRow(Pos(n)) == Pos(n + WIDTH) && NextRow(Pos(n + WIDTH)) == Pos(n + 2 * WIDTH)
      && Pos(n) + WIDTH <= BUFFER && Pos(n + WIDTH) == (if Pos(n) + WIDTH == BUFFER then 0 else Pos(n) + WIDTH)
      && Dist(Pos(n), Pos(first)) == n - first && Dist(Pos(n), Pos(n + WIDTH)) == KEPT
      && (n >= KEPT ==> Pos(n + 2 * WIDTH) == Pos(n + WIDTH - KEPT))
  {
    var n := |l.cells|;
    RowOn(n);
    RowIs(n + WIDTH, n / WIDTH + 1, 0);
    RowOn(n + WIDTH);
    DistPos(n, First(l));
    OnceAround(n);
    DistPos(n + BUFFER, n + WIDTH);
    if n >= KEPT {
      OnceAround(n + WIDTH - KEPT);
    }
  }

  /** A blank row behind the log takes the place of the oldest row or of none. */
  lemma RowAdded(was: seq<byte>, now: seq<byte>, l: Log, l': Log)
    requires |was| == |now| == BUFFER && |l.cells| % WIDTH == 0 && Holds(was, l)
    requires l'.cells == l.cells + Blank() && Pos(|l.cells|) + WIDTH <= BUFFER
    requires forall i | 0 <= i < BUFFER :: now[i] == if Pos(|l.cells|) <= i < Pos(|l.cells|) + WIDTH then 0 else was[i]
    ensures Holds(now, l')
  {
    var n := |l.cells|;
    forall x: nat | First(l') <= x < |l'.cells|
      ensures now[Pos(x)] == l'.cells[x]
    {
      if x < n {
        if Pos(n) <= Pos(x) < Pos(n) + WIDTH {
          var j := Pos(x) - Pos(n);
          PosIs(n + j, n / BUFFER, Pos(n) + j);
          SamePos(x, n + j);
        }
      } else {
        var j := x - n;
        PosIs(n + j, n / BUFFER, Pos(n) + j);
      }
    }
  }

  lemma AtHead(l: Log)
    requires LogOk(l)
    ensures Pos(l.cursor) == Pos(First(l)) <==> l.cursor == First(l)
  {
    if Pos(l.cursor) == Pos(First(l)) {
      SamePos(First(l), l.cursor);
    }
  }

  lemma CellWritten(buf: seq<byte>, l: Log, c: byte)
    requires |buf| == BUFFER && LogOk(l) && Holds(buf, l)
    ensures Holds(buf[Pos(l.cursor) := c], l.(cells := l.cells[l.cursor := c]))
  {
    forall x: nat | First(l) <= x < |l.cells|
      ensures buf[Pos(l.cursor) := c][Pos(x)] == l.cells[l.cursor := c][x]
    {
      if Pos(x) == Pos(l.cursor) {
        SamePos(if x <= l.cursor then x else l.cursor, if x <= l.cursor then l.cursor else x);
      }
    }
  }

  lemma ShownIs(buf: seq<byte>, top: nat, tail: nat, i: nat)
    requires |buf| == BUFFER && top < BUFFER && tail < BUFFER && i < SCREEN
    ensures Shown(buf, top, tail, i) ==
            if top <= tail then if i < tail - top then buf[top + i] else 0
            else if i < BUFFER - top then buf[top + i]
            else if i - (BUFFER - top) < tail then buf[i - (BUFFER - top)] else 0
  {
    if top <= tail {
      PosIs(tail - top + BUFFER, 1, tail - top);
    } else {
      PosIs(tail - top + BUFFER, 0, tail - top + BUFFER);
    }
    if top + i < BUFFER {
      PosIs(top + i, 0, top + i);
    } else {
      PosIs(top + i, 1, top + i - BUFFER);
    }
  }

  /** The top moves so that the row of the cursor is the last one shown; it is in view if enough rows are left above. */
  lemma TopMoved(l: Log, next: nat)
    requires LogOk(l) && next == Pos(RowAfter(l.cursor))
    ensures var c, h, t := Pos(l.cursor), Pos(First(l)), Add(next, -SCREEN);
      t % WIDTH == 0 && Dist(c, t) < SCREEN && (Dist(t, h) + Dist(c, t) == Dist(c, h) <==>
        RowAfter(l.cursor) >= First(l) + SCREEN)
  {
    var r := RowAfter(l.cursor);
    // One turn further on, so that the top is a position of the log even when there are few rows.
    var x := r + BUFFER - SCREEN;
    RowAfterIs(l.cursor);
    OnceAround(r);
    AddPos(r + BUFFER, -SCREEN);
    RowsApart(r);
    TopRow(x);
    CursorFromTop(l.cursor, r, x);
    DistPos(l.cursor, First(l));
    TopFromHead(First(l), r, x);
  }

  lemma RowsApart(r: nat)
    requires r % WIDTH == 0
    ensures (r + BUFFER - SCREEN) % WIDTH == 0
  {
    RowIs(r + BUFFER - SCREEN, r / WIDTH + (BUFFER - SCREEN) / WIDTH, 0);
  }

  lemma CursorFromTop(c: nat, r: nat, x: nat)
    requires c < r <= c + WIDTH && x == r + BUFFER - SCREEN
    ensures Dist(Pos(c), Pos(x)) == c + SCREEN - r
  {
    OnceAround(c);
    DistPos(c + BUFFER, x);
  }

  lemma TopFromHead(first: nat, r: nat, x: nat)
    requires first < r && r < first + BUFFER && x == r + BUFFER - SCREEN
    ensures Dist(Pos(x), Pos(first)) == if r >= first + SCREEN then r - SCREEN - first else x - first
  {
    if r >= first + SCREEN {
      OnceAround(r - SCREEN);
      DistPos(r - SCREEN, first);
    } else {
      DistPos(x, first);
    }
  }

  lemma TopRow(x: nat)
    requires x % WIDTH == 0
    ensures Pos(x) % WIDTH == 0
  {
    RowPos(x);
    RowStartPos(x);
    RowIs(x, x / WIDTH, 0);
  }

  lemma HeadIsRow(l: Log)
    requires LogOk(l)
    ensures Pos(First(l)) % WIDTH == 0
  {
    FirstIsRow(l);
    TopRow(First(l));
  }

  lemma Itself(p: nat)
    requires p < BUFFER
    ensures Dist(p, p) == 0
  {
    PosIs(BUFFER, 1, 0);
  }

  lemma RowsBack(top: nat, head: nat, lines: nat)
    requires top < BUFFER && head < BUFFER && top % WIDTH == 0 && lines * WIDTH <= Dist(top, head)
    ensures var to := Add(top, -(lines * WIDTH)); to % WIDTH == 0 && Dist(to, head) == Dist(top, head) - lines * WIDTH
  {
    var d, step, n: int := Dist(top, head), lines * WIDTH, lines;
    Around(head, top, d);
    var to := Add(top, -step);
    PosIs(head + (d - step), (head + d) / BUFFER + (top - step + BUFFER) / BUFFER - 1, to);
    Around(head, to, d - step);
    RowStep(top, -step, -n);
  }

  lemma RowsOn(top: nat, tail: nat, lines: nat)
    requires top < BUFFER && tail < BUFFER && top % WIDTH == 0 && lines * WIDTH <= Dist(tail, top)
    ensures var to := Add(top, lines * WIDTH); to % WIDTH == 0 && Dist(tail, to) == Dist(tail, top) - lines * WIDTH
  {
    var e, step := Dist(tail, top), lines * WIDTH;
    Around(top, tail, e);
    var to := Add(top, step);
    PosIs(to + (e - step), (top + e) / BUFFER - (top + step + BUFFER) / BUFFER + 1, tail);
    Around(to, tail, e - step);
    RowStep(top, step, lines);
  }

  lemma LastRow(tail: nat)
    requires tail < BUFFER && tail % WIDTH == 0
    ensures var to := Add(tail, -WIDTH); to % WIDTH == 0 && Dist(tail, to) == WIDTH
  {
    var to := Add(tail, -WIDTH);
    PosIs(to + WIDTH, 1 - (tail - WIDTH + BUFFER) / BUFFER, tail);
    Around(to, tail, WIDTH);
    RowStep(tail, -WIDTH, -1);
  }

  /** Whole rows from a row of the buffer lead to a row. */
  lemma RowStep(p: nat, step: int, lines: int)
    requires p < BUFFER && p % WIDTH == 0 && step == lines * WIDTH && -BUFFER <= step
    ensures Add(p, step) % WIDTH == 0
  {
    RowIs(p + step + BUFFER, p / WIDTH + lines + BUFFER / WIDTH, 0);
    TopRow(p + step + BUFFER);
  }

  lemma StaysInside(head: nat, tail: nat, was: nat, top: nat)
    requires head < BUFFER && tail < BUFFER && was < BUFFER && top < BUFFER
    requires WIDTH <= Dist(tail, top)
    requires Dist(tail, top) <= Dist(tail, was) || Dist(tail, top) == WIDTH <= Dist(tail, head)
    ensures Dist(was, head) < Dist(tail, head) ==> Dist(top, head) < Dist(tail, head)
  {
    Split(head, tail, was);
    Split(head, tail, top);
  }

  /** Either `p` lies between head and tail, or it lies behind the tail and around to the head. */
  lemma Split(head: nat, tail: nat, p: nat)
    requires head < BUFFER && tail < BUFFER && p < BUFFER
    ensures Dist(p, head) <= Dist(tail, head) ==> Dist(p, head) + Dist(tail, p) == Dist(tail, head)
    ensures Dist(p, head) > Dist(tail, head) ==> Dist(p, head) + Dist(tail, p) == Dist(tail, head) + BUFFER
  {
  }

  lemma FirstIsRow(l: Log)
    requires LogOk(l)
    ensures First(l) % WIDTH == 0
  {
    if |l.cells| > KEPT {
      RowIs(|l.cells| - KEPT, |l.cells| / WIDTH - KEPT / WIDTH, 0);
    }
  }

  /** Head and tail are at row starts at least a row apart, with the cursor between them. */
  lemma BufferBounds(l: Log)
    requires LogOk(l)
    ensures var h, t, c := Pos(First(l)), Pos(|l.cells|), Pos(l.cursor);
      && h % WIDTH == 0 && t % WIDTH == 0 && WIDTH <= Dist(t, h) <= BUFFER - WIDTH && Dist(c, h) < Dist(t, h)
      && Dist(t, h) == (if |l.cells| <= KEPT then |l.cells| else KEPT)
  {
    FirstIsRow(l);
    TopRow(First(l));
    TopRow(|l.cells|);
    DistPos(|l.cells|, First(l));
    DistPos(l.cursor, First(l));
  }

  /** Read around the buffer, the cells from head to tail are the newest rows of the log. */
  lemma BufferMeans(buf: seq<byte>, l: Log, i: nat)
    requires |buf| == BUFFER && LogOk(l) && Holds(buf, l) && i < Dist(Pos(|l.cells|), Pos(First(l)))
    ensures var h, n := Pos(First(l)), Dist(Pos(|l.cells|), Pos(First(l)));
      n <= |l.cells| && buf[(h + i) % BUFFER] == l.cells[|l.cells| - n + i]
  {
    var first := First(l);
    DistPos(|l.cells|, first);
    PosIs(Pos(first) + i, (first + i) / BUFFER - first / BUFFER, Pos(first + i));
  }

  /**
   * A stream of characters does to the terminal what it does to the log. If the screen showed
   * the buffer before, then it does so after every character if and only if all of them are
   * fine: it does while they are, and the first that is not breaks it.
   */
  method ProvideAll(vt: VirtTerm, cs: seq<byte>)
    requires vt.Valid()
    modifies vt, vt.buf, vt.screen
    ensures vt.Valid() && vt.log == TypeAll(old(vt.log), cs) && vt.top == TopAll(old(vt.log), old(vt.top), cs)
    ensures old(vt.Current()) && FineAll(old(vt.log), old(vt.top), cs) ==> vt.Current()
    ensures old(vt.Current()) && cs != [] && FineAll(old(vt.log), old(vt.top), cs[..|cs| - 1]) ==>
      (vt.Current() <==> FineAll(old(vt.log), old(vt.top), cs))
  {
    ghost var l, top, shown := vt.log, vt.top, vt.Current();
    var i := 0;
    while i < |cs|
      invariant 0 <= i <= |cs| && vt.Valid() && vt.log == TypeAll(l, cs[..i]) && vt.top == TopAll(l, top, cs[..i])
      invariant shown && FineAll(l, top, cs[..i]) ==> vt.Current()
      invariant shown && 0 < i && FineAll(l, top, cs[..i - 1]) ==> (vt.Current() <==> FineAll(l, top, cs[..i]))
    {
      OneMore(l, top, cs[..i], cs[i]);
      assert cs[..i] + [cs[i]] == cs[..i + 1];
      vt.ProvideChar(cs[i]);
      i := i + 1;
    }
    assert cs[..i] == cs;
  }

  /** After 100 newlines and 8000 backspaces a letter is drawn that the buffer, seen from the top, does not show. */
  method ScreenFallsBehind() returns (vt: VirtTerm)
    ensures vt.Valid() && !vt.Current()
  {
    vt := new VirtTerm();
    AfterStream();
    ProvideAll(vt, Repeat(NEWLINE, 100) + Repeat(BACKSPACE, 8000));
    AtTheTail(vt.log);
    vt.ProvideChar(65);
  }

  lemma AtTheTail(l: Log)
    requires l == Back(0)
    ensures Dist(Pos(l.cursor), 8080) == 1920 && Pos(|l.cells|) == 8080 && Dist(8080, 8080) == 0
  {
  }
}
