/** Format strings, and the output that a format and its arguments stand for. */
module PrintfFormat {
  import opened Common
  import opened PrintfSpec

  /** An argument: what it is as a number, and what it points to if it is a string. */
  datatype Arg = Arg(num: int, text: Option<seq<byte>>)

  /** The format ends at its first NUL. */
  function At(fmt: seq<byte>, i: nat): byte { if i < |fmt| then fmt[i] else 0 }

  function ArgAt(args: seq<Arg>, j: nat): Arg { if j < |args| then args[j] else Arg(0, None) }

  // ---------------------------------------------------------------------
  // Reading a directive
  // ---------------------------------------------------------------------

  predicate IsFlag(c: byte) { c == MINUS || c == PLUS || c == BLANK || c == HASH || c == ZERO }

  function WithFlag(f: Flags, c: byte): Flags {
    if c == MINUS then f.(left := true)
    else if c == PLUS then f.(plus := true)
    else if c == BLANK then f.(space := true)
    else if c == HASH then f.(special := true)
    else f.(zeropad := true)
  }

  /** How far the flags reach. */
  function FlagsEnd(fmt: seq<byte>, i: nat): (r: nat)
    ensures r >= i && (i <= |fmt| ==> r <= |fmt|)
    decreases |fmt| - i
  {
    if IsFlag(At(fmt, i)) then FlagsEnd(fmt, i + 1) else i
  }

  function FlagsFrom(fmt: seq<byte>, i: nat, f: Flags): Flags
    decreases |fmt| - i
  {
    if IsFlag(At(fmt, i)) then FlagsFrom(fmt, i + 1, WithFlag(f, At(fmt, i))) else f
  }

  predicate IsDigit(c: byte) { ZERO <= c <= NINE }

  function DigitsEnd(fmt: seq<byte>, i: nat): (r: nat)
    ensures r >= i && (i <= |fmt| ==> r <= |fmt|)
    decreases |fmt| - i
  {
    if IsDigit(At(fmt, i)) then DigitsEnd(fmt, i + 1) else i
  }

  /** `skip_atoi`, with `acc` read so far. */
  function Atoi(fmt: seq<byte>, i: nat, acc: nat): nat
    decreases |fmt| - i
  {
    if IsDigit(At(fmt, i)) then Atoi(fmt, i + 1, acc * 10 + (At(fmt, i) - ZERO)) else acc
  }

  /** A number read as one of `2 * half` values, half of them negative. */
  function Signed(n: int, half: nat): int
    requires half > 0
  {
    var m := n % (2 * half);
    if m < half then m else m - 2 * half
  }

  const INT: nat := 0x8000_0000
  const SHORT: nat := 0x8000
  const LONGLONG: nat := 0x8000_0000_0000_0000

  /** A width or a precision: the number given (`-1` for none), and where reading goes on in format and arguments. */
  datatype Field = Field(value: int, at: nat, arg: nat)

  /** Digits, or a star for the next argument. */
  function ReadField(fmt: seq<byte>, i: nat, args: seq<Arg>, j: nat): (r: Field)
    ensures i <= r.at && (i <= |fmt| ==> r.at <= |fmt|)
  {
    if IsDigit(At(fmt, i)) then Field(Atoi(fmt, i, 0), DigitsEnd(fmt, i), j)
    else if At(fmt, i) == STAR then Field(Signed(ArgAt(args, j).num, INT), i + 1, j + 1)
    else Field(-1, i, j)
  }

  function ReadPrecision(fmt: seq<byte>, i: nat, args: seq<Arg>, j: nat): (r: Field)
    ensures i <= r.at && (i <= |fmt| ==> r.at <= |fmt|)
  {
    if At(fmt, i) != DOT then Field(-1, i, j)
    else
      var p := ReadField(fmt, i + 1, args, j);
      p.(value := Max(p.value, 0))
  }

  const SMALL_H: byte := 104
  const SMALL_L: byte := 108
  const LARGE_L: byte := 76
  const LARGE_Z: byte := 90
  const SMALL_Q: byte := 113

  /** The size of a number argument: one of the letters above, or zero for none, and where it ends. */
  datatype Size = Size(code: byte, at: nat)

  function Qualifier(fmt: seq<byte>, i: nat): (r: Size)
    ensures i <= r.at && (i <= |fmt| ==> r.at <= |fmt|)
  {
    var c := At(fmt, i);
    var q :=
      if c == SMALL_L && At(fmt, i + 1) == SMALL_L then Size(LARGE_L, i + 2)
      else if c == SMALL_H || c == SMALL_L || c == LARGE_L || c == LARGE_Z then Size(c, i + 1)
      else Size(0, i);
    if At(fmt, q.at) == SMALL_Q then Size(LARGE_L, q.at + 1) else q
  }

  /** A directive: how to convert, which argument comes next, and where its conversion letter is. */
  datatype Spec = Spec(flags: Flags, width: int, precision: int, qualifier: byte, at: nat, arg: nat)

  /** The directive behind a percent sign. A negative width from an argument means left justification. */
  function Directive(fmt: seq<byte>, i: nat, args: seq<Arg>, j: nat): (r: Spec)
    ensures i <= r.at && (i <= |fmt| ==> r.at <= |fmt|)
  {
    var i1 := FlagsEnd(fmt, i);
    Sized(fmt, FlagsFrom(fmt, i, NO_FLAGS), At(fmt, i1) == STAR, ReadField(fmt, i1, args, j), args)
  }

  /** The rest of it, behind the width. */
  function Sized(fmt: seq<byte>, f: Flags, star: bool, w: Field, args: seq<Arg>): (r: Spec)
    ensures w.at <= r.at && (w.at <= |fmt| ==> r.at <= |fmt|)
  {
    var p := ReadPrecision(fmt, w.at, args, w.arg);
    var q := Qualifier(fmt, p.at);
    if star && w.value < 0 then Spec(f.(left := true), -w.value, p.value, q.code, q.at, p.arg)
    else Spec(f, w.value, p.value, q.code, q.at, p.arg)
  }

  // ---------------------------------------------------------------------
  // Carrying a directive out
  // ---------------------------------------------------------------------

  const LETTER_C: byte := 99
  const LETTER_D: byte := 100
  const LETTER_I: byte := 105
  const LETTER_N: byte := 110
  const LETTER_O: byte := 111
  const LETTER_P: byte := 112
  const LETTER_S: byte := 115
  const LETTER_U: byte := 117
  const SMALL_X: byte := 120
  const LARGE_X: byte := 88

  predicate IsNumeric(c: byte) {
    c == LETTER_O || c == SMALL_X || c == LARGE_X || c == LETTER_D || c == LETTER_I || c == LETTER_U
  }

  predicate TakesArg(c: byte) { c == LETTER_C || c == LETTER_S || c == LETTER_P || c == LETTER_N || IsNumeric(c) }

  function Base(c: byte): nat { if c == LETTER_O then 8 else if c == SMALL_X || c == LARGE_X then 16 else 10 }

  function NumFlags(f: Flags, c: byte): Flags {
    if c == LARGE_X then f.(large := true) else if c == LETTER_D || c == LETTER_I then f.(sign := true) else f
  }

  /** A number argument at its size. */
  function Convert(n: int, qualifier: byte, sign: bool): int {
    if qualifier == LARGE_L then Signed(n, LONGLONG)
    else if qualifier == LARGE_Z then n % (2 * INT)
    else if qualifier == SMALL_H then if sign then Signed(n, SHORT) else n % (2 * SHORT)
    else if sign then Signed(n, INT) else n % (2 * INT)
  }

  /** `strnlen`; a negative limit is none. */
  function TextLength(s: seq<byte>, limit: int): nat { if 0 <= limit < |s| then limit else |s| }

  /** Text in its field. */
  function Justified(s: seq<byte>, width: int, left: bool): seq<byte> {
    if left then s + Fill(BLANK, width - |s|) else Fill(BLANK, width - |s|) + s
  }

  const NULL_TEXT: seq<byte> := [60, 78, 85, 76, 76, 62]

  function TextOf(a: Arg): seq<byte> { if a.text.None? then NULL_TEXT else a.text.value }

  /** A number argument in its field. */
  function Numeric(flags: Flags, width: int, precision: int, qualifier: byte, c: byte, n: int): seq<byte> {
    var f := NumFlags(flags, c);
    Number(Convert(n, qualifier, f.sign), Base(c), width, precision, f)
  }

  /** The output of a directive with conversion letter `c` and argument `a`. */
  function Render(sp: Spec, c: byte, a: Arg): seq<byte> {
    if c == LETTER_C then Justified([a.num % 256], sp.width, sp.flags.left)
    else if c == LETTER_S then Justified(TextOf(a)[..TextLength(TextOf(a), sp.precision)], sp.width, sp.flags.left)
    else if c == LETTER_P then
      if sp.width == -1 then Number(a.num % (2 * INT), 16, 8, sp.precision, sp.flags.(zeropad := true))
      else Number(a.num % (2 * INT), 16, sp.width, sp.precision, sp.flags)
    else if c == LETTER_N then []
    else if IsNumeric(c) then Numeric(sp.flags, sp.width, sp.precision, sp.qualifier, c, a.num)
    else if c == 0 || c == PERCENT then [PERCENT]
    else [PERCENT, c]
  }

  /** Where reading goes on behind a directive: its letter is skipped, the end of the format is not. */
  function After(fmt: seq<byte>, sp: Spec): nat { if At(fmt, sp.at) == 0 then sp.at else sp.at + 1 }

  function NextArg(sp: Spec, c: byte): nat { if TakesArg(c) then sp.arg + 1 else sp.arg }

  /** The output of a format from position `i` and argument `j` on. */
  function OutputFrom(fmt: seq<byte>, i: nat, args: seq<Arg>, j: nat): seq<byte>
    decreases |fmt| - i
  {
    var c := At(fmt, i);
    if c == 0 then []
    else if c != PERCENT then [c] + OutputFrom(fmt, i + 1, args, j)
    else
      var sp := Directive(fmt, i + 1, args, j);
      var letter := At(fmt, sp.at);
      Render(sp, letter, ArgAt(args, sp.arg)) + OutputFrom(fmt, After(fmt, sp), args, NextArg(sp, letter))
  }

  /** All that a format and its arguments stand for. */
  function Output(fmt: seq<byte>, args: seq<Arg>): seq<byte> { OutputFrom(fmt, 0, args, 0) }

  // ---------------------------------------------------------------------
  // What output looks like
  // ---------------------------------------------------------------------

  /** A directive fills its field at least. */
  lemma FieldIsFilled(sp: Spec, c: byte, a: Arg)
    requires TakesArg(c) && c != LETTER_N
    ensures |Render(sp, c, a)| >= sp.width
  {
    if IsNumeric(c) {
      var f := NumFlags(sp.flags, c);
      NumberLength(Convert(a.num, sp.qualifier, f.sign), Base(c), sp.width, sp.precision, f);
    } else if c == LETTER_P {
      NumberLength(a.num % (2 * INT), 16, sp.width, sp.precision, sp.flags);
    }
  }
}
