/** A terminal as an unbounded log of rows, of which a circular buffer holds the newest. */
module TermLog {
  import opened Common

  const WIDTH := 80
  const SCREEN := 2000
  const BUFFER := 5 * SCREEN
  /** What the buffer holds at most: one row less than it has room for. */
  const KEPT := BUFFER - WIDTH

  const BACKSPACE: byte := 8
  const NEWLINE: byte := 10
  const RETURN: byte := 13

  // ---------------------------------------------------------------------
  // Positions in the buffer
  // ---------------------------------------------------------------------

  /** `circ_dist` */
  function Dist(to: nat, from: nat): nat
    requires to < BUFFER && from < BUFFER
  {
    (to - from + BUFFER) % BUFFER
  }

  /** `next_row` */
  function NextRow(i: nat): (r: nat)
    ensures r < BUFFER
  {
    (i / WIDTH + 1) * WIDTH % BUFFER
  }

  /** `buf_add`, for steps shorter than the buffer. */
  function Add(i: nat, step: int): (r: nat)
    requires i < BUFFER && -BUFFER <= step
    ensures r < BUFFER
  {
    (i + step + BUFFER) % BUFFER
  }

  /** A position of the log, in the buffer. */
  function Pos(x: nat): (r: nat)
    ensures r < BUFFER
  {
    x % BUFFER
  }

  function RowAfter(x: nat): nat { (x / WIDTH + 1) * WIDTH }

  /** Division with remainder is what it is. */
  lemma RowIs(x: nat, q: nat, r: nat)
    requires x == WIDTH * q + r && r < WIDTH
    ensures x / WIDTH == q && x % WIDTH == r
  {
  }

  lemma PosIs(x: int, n: int, p: nat)
    requires x == BUFFER * n + p && p < BUFFER
    ensures x % BUFFER == p
  {
  }

  lemma DistPos(x: nat, y: nat)
    requires y <= x < y + BUFFER
    ensures Dist(Pos(x), Pos(y)) == x - y
  {
    var n, m := x / BUFFER, y / BUFFER;
    PosIs(Pos(x) - Pos(y) + BUFFER, m - n + 1, x - y);
  }

  lemma AddPos(x: nat, step: int)
    requires -BUFFER <= step <= BUFFER && x + step >= 0
    ensures Add(Pos(x), step) == Pos(x + step)
  {
    var n, m := x / BUFFER, (x + step) / BUFFER;
    PosIs(Pos(x) + step + BUFFER, m - n + 1, Pos(x + step));
  }

  /** Rows of the log are rows of the buffer. */
  lemma RowPos(x: nat)
    ensures x / WIDTH == BUFFER / WIDTH * (x / BUFFER) + Pos(x) / WIDTH
  {
    var n, p := x / BUFFER, Pos(x);
    RowIs(x, BUFFER / WIDTH * n + p / WIDTH, p % WIDTH);
  }

  lemma NextRowPos(x: nat)
    ensures NextRow(Pos(x)) == Pos(RowAfter(x))
  {
    RowPos(x);
    var n, y := x / BUFFER, (Pos(x) / WIDTH + 1) * WIDTH;
    assert RowAfter(x) == BUFFER * n + y;
    PosIs(RowAfter(x), if y == BUFFER then n + 1 else n, if y == BUFFER then 0 else y);
  }

  lemma RowStartPos(x: nat)
    ensures Pos(x) / WIDTH * WIDTH == Pos(x / WIDTH * WIDTH)
  {
    RowPos(x);
    PosIs(x / WIDTH * WIDTH, x / BUFFER, Pos(x) / WIDTH * WIDTH);
  }

  lemma SamePos(x: nat, y: nat)
    requires x <= y < x + BUFFER && Pos(x) == Pos(y)
    ensures x == y
  {
  }

  lemma RowAfterIs(x: nat)
    ensures x < RowAfter(x) <= x + WIDTH && RowAfter(x) % WIDTH == 0
    ensures forall t: nat | t % WIDTH == 0 && x < t :: RowAfter(x) <= t
  {
  }

  // ---------------------------------------------------------------------
  // The log
  // ---------------------------------------------------------------------

  function Blank(): seq<byte> { seq(WIDTH, _ => 0) }

  /** All rows written so far, and the cursor. */
  datatype Log = Log(cells: seq<byte>, cursor: nat)

  ghost predicate LogOk(l: Log) { |l.cells| % WIDTH == 0 && l.cursor < |l.cells| && First(l) <= l.cursor }

  /** The first cell that is still in the buffer. */
  ghost function First(l: Log): nat { if |l.cells| <= KEPT then 0 else |l.cells| - KEPT }

  /** The cursor moves forward; behind the last row a blank one is added. */
  ghost function Advance(cells: seq<byte>, to: nat): Log { Log(if to >= |cells| then cells + Blank() else cells, to) }

  /** One character. */
  ghost function Type(l: Log, c: byte): Log
    requires LogOk(l)
  {
    if c == BACKSPACE then if l.cursor == First(l) then l else Log(l.cells, l.cursor - 1)
    else if c == RETURN then Log(l.cells, l.cursor / WIDTH * WIDTH)
    else if c == NEWLINE then Advance(l.cells, RowAfter(l.cursor))
    else Advance(l.cells[l.cursor := c], l.cursor + 1)
  }

  lemma TypeKeepsLog(l: Log, c: byte)
    requires LogOk(l)
    ensures LogOk(Type(l, c)) && |l.cells| <= |Type(l, c).cells| <= |l.cells| + WIDTH
  {
    RowAfterIs(l.cursor);
  }
}
