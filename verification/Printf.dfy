/** Formatted output into a buffer of limited size. */
module Printf {
  import opened Common
  import opened PrintfFormat
  import opened PrintfSpec

  /** The place output goes to: the first `size` bytes of a buffer. Output behind them is counted but not stored. */
  class Sink {
    const buf: array<byte>
    const size: nat
    var pos: nat
    /** All output so far, and what the buffer held before. */
    ghost var out: seq<byte>
    ghost const before: seq<byte>

    constructor (b: array<byte>, n: nat)
      requires n <= b.Length
      ensures Valid() && buf == b && size == n && out == [] && before == b[..]
    {
      buf, size, pos := b, n, 0;
      out, before := [], b[..];
    }

    ghost predicate Valid()
      reads this, buf
    {
      && size <= buf.Length == |before| && pos == |out|
      && forall i | 0 <= i < buf.Length :: buf[i] == if i < pos && i < size then out[i] else before[i]
    }

    method Put(c: byte)
      requires Valid()
      modifies this, buf
      ensures Valid() && out == old(out) + [c]
    {
      if pos < size {
        buf[pos] := c;
      }
      pos := pos + 1;
      out := out + [c];
    }

    /** The same byte again and again. */
    method PutFill(c: byte, n: int)
      requires Valid()
      modifies this, buf
      ensures Valid() && out == old(out) + Fill(c, n)
    {
      var left := n;
      while left > 0
        invariant Valid() && left <= Max(n, 0) && (n > 0 ==> left >= 0) && out == old(out) + Fill(c, n - Max(left, 0))
        decreases left
      {
        Put(c);
        left := left - 1;
      }
    }

    method PutAll(s: seq<byte>)
      requires Valid()
      modifies this, buf
      ensures Valid() && out == old(out) + s
    {
      var i := 0;
      while i < |s|
        invariant 0 <= i <= |s| && Valid() && out == old(out) + s[..i]
      {
        Put(s[i]);
        assert s[..i + 1] == s[..i] + [s[i]];
        i := i + 1;
      }
      assert s[..i] == s;
    }

    /** The end of `vsnprintf`: a terminator, in place of the last byte if need be. */
    method Finish() returns (n: nat)
      requires Valid()
      modifies buf
      ensures n == |out| && Stored(buf[..], before, size, out)
    {
      if pos < size {
        buf[pos] := 0;
      } else if size > 0 {
        buf[size - 1] := 0;
      }
      n := pos;
    }
  }

  /** As much of `out` as there is room for, and a terminator; the rest of the buffer is as before. */
  ghost predicate Stored(buf: seq<byte>, before: seq<byte>, size: nat, out: seq<byte>) {
    && |buf| == |before| && size <= |buf|
    && if size == 0 then buf == before
       else
         var k := if |out| < size then |out| else size - 1;
         buf[..k] == out[..k] && buf[k] == 0 && forall i | k < i < |buf| :: buf[i] == before[i]
  }

  /** The digits of a number, the lowest first, as `number` collects them. */
  method Collect(n: nat, base: nat, large: bool) returns (tmp: seq<byte>)
    requires 2 <= base <= 36
    ensures tmp == if n == 0 then [ZERO] else Reversed(n, base, large)
  {
    if n == 0 {
      return [ZERO];
    }
    tmp := [];
    var rest: nat := n;
    while rest != 0
      invariant tmp + Reversed(rest, base, large) == Reversed(n, base, large)
      decreases rest
    {
      QuotientShrinks(rest, base);
      var q: nat, d: nat := rest / base, rest % base;
      OneDigit(tmp, rest, q, d, base, large);
      tmp := tmp + [Digit(d, large)];
      rest := q;
    }
  }

  lemma OneDigit(tmp: seq<byte>, n: nat, q: nat, d: nat, base: nat, large: bool)
    requires 2 <= base <= 36 && n > 0 && q == n / base && d == n % base && d < base
    ensures tmp + Reversed(n, base, large) == tmp + [Digit(d, large)] + Reversed(q, base, large)
  {
  }

  lemma {:induction false} ReverseAt(s: seq<byte>, i: nat)
    requires i < |s|
    ensures |Reverse(s)| == |s| && Reverse(s)[|s| - 1 - i] == s[i]
  {
    if i > 0 {
      ReverseAt(s[1..], i - 1);
    } else if |s| > 1 {
      ReverseAt(s[1..], 0);
    }
  }

  lemma {:induction false} ReverseStep(s: seq<byte>, i: nat, r: seq<byte>)
    requires i < |s| && r == Reverse(s)
    ensures r[..|s| - i] == r[..|s| - 1 - i] + [s[i]]
  {
    ReverseAt(s, i);
    assert r[..|s| - i] == r[..|s| - 1 - i] + [r[|s| - 1 - i]];
  }

  /** Output collected digits, the last first. */
  method PutReversed(k: Sink, tmp: seq<byte>)
    requires k.Valid()
    modifies k, k.buf
    ensures k.Valid() && k.out == old(k.out) + Reverse(tmp)
  {
    var i := |tmp|;
    while i > 0
      invariant 0 <= i <= |tmp| && k.Valid() && k.out == old(k.out) + Reverse(tmp)[..|tmp| - i]
    {
      i := i - 1;
      ReverseStep(tmp, i, Reverse(tmp));
      k.Put(tmp[i]);
    }
  }

  // ---------------------------------------------------------------------
  // Numbers
  // ---------------------------------------------------------------------

  method PutHead(k: Sink, sign: seq<byte>, prefix: seq<byte>, pad: int, left: bool, zeropad: bool)
    requires k.Valid()
    modifies k, k.buf
    ensures k.Valid() && k.out == old(k.out) + Head(sign, prefix, pad, left, zeropad)
  {
    var size := pad;
    if !left && !zeropad {
      k.PutFill(BLANK, size);
      size := 0;
    }
    k.PutAll(sign);
    k.PutAll(prefix);
    if !left {
      k.PutFill(if zeropad then ZERO else BLANK, size);
    }
  }

  method PutTail(k: Sink, tmp: seq<byte>, precision: int, pad: int, left: bool)
    requires k.Valid()
    modifies k, k.buf
    ensures k.Valid() && k.out == old(k.out) + Tail(Reverse(tmp), precision, pad, left)
  {
    k.PutFill(ZERO, precision - |tmp|);
    PutReversed(k, tmp);
    if left {
      k.PutFill(BLANK, pad);
    }
  }

  /** The part of `number` that pads and writes, with the digits collected in `tmp`. */
  method PutInField(k: Sink, sign: seq<byte>, prefix: seq<byte>, tmp: seq<byte>, width: int, prec: int, left: bool,
    zeropad: bool)
    requires k.Valid()
    modifies k, k.buf
    ensures k.Valid() && k.out == old(k.out) + InField(sign, prefix, Reverse(tmp), width, prec, left, zeropad)
  {
    var size := width - |sign| - |prefix|;
    var precision := if |tmp| > prec then |tmp| else prec;
    size := size - precision;
    PutHead(k, sign, prefix, size, left, zeropad);
    PutTail(k, tmp, prec, size, left);
    Associate(old(k.out), Head(sign, prefix, size, left, zeropad), Tail(Reverse(tmp), prec, size, left));
  }

  /** `number`: sign, prefix, padding and digits, in the order and number that the flags ask for. */
  method PutNumber(k: Sink, num: int, base: nat, width: int, prec: int, f: Flags)
    requires k.Valid() && 2 <= base <= 36
    modifies k, k.buf
    ensures k.Valid() && k.out == old(k.out) + Number(num, base, width, prec, f)
  {
    var magnitude := Magnitude(num, f.sign);
    var tmp := Collect(magnitude, base, f.large);
    CollectedDigits(magnitude, base, f.large, tmp);
    PutInField(k, SignOf(num, f), Prefix(base, f), tmp, width, prec, f.left, f.zeropad);
  }

  lemma CollectedDigits(n: nat, base: nat, large: bool, tmp: seq<byte>)
    requires 2 <= base <= 36 && tmp == if n == 0 then [ZERO] else Reversed(n, base, large)
    ensures Reverse(tmp) == DigitsOf(n, base, large)
  {
    if n == 0 {
      assert tmp[1..] == [];
    }
  }

  lemma Associate(a: seq<byte>, b: seq<byte>, c: seq<byte>)
    ensures a + b + c == a + (b + c)
  {
  }

  // ---------------------------------------------------------------------
  // Directives
  // ---------------------------------------------------------------------

  /** The flags behind a percent sign. */
  method ParseFlags(fmt: seq<byte>, i: nat) returns (f: Flags, at: nat)
    ensures f == FlagsFrom(fmt, i, NO_FLAGS) && at == FlagsEnd(fmt, i)
  {
    f, at := NO_FLAGS, i;
    while IsFlag(At(fmt, at))
      invariant FlagsFrom(fmt, at, f) == FlagsFrom(fmt, i, NO_FLAGS) && FlagsEnd(fmt, at) == FlagsEnd(fmt, i)
      decreases |fmt| - at
    {
      f, at := WithFlag(f, At(fmt, at)), at + 1;
    }
  }

  /** `skip_atoi` */
  method SkipAtoi(fmt: seq<byte>, i: nat) returns (n: nat, at: nat)
    ensures n == Atoi(fmt, i, 0) && at == DigitsEnd(fmt, i)
  {
    n, at := 0, i;
    while IsDigit(At(fmt, at))
      invariant Atoi(fmt, at, n) == Atoi(fmt, i, 0) && DigitsEnd(fmt, at) == DigitsEnd(fmt, i)
      decreases |fmt| - at
    {
      n, at := n * 10 + (At(fmt, at) - ZERO), at + 1;
    }
  }

  /** A width or precision, from the format or from an argument. */
  method ParseField(fmt: seq<byte>, i: nat, args: seq<Arg>, j: nat) returns (r: Field)
    ensures r == ReadField(fmt, i, args, j)
  {
    if IsDigit(At(fmt, i)) {
      var n, at := SkipAtoi(fmt, i);
      return Field(n, at, j);
    }
    if At(fmt, i) == STAR {
      return Field(Signed(ArgAt(args, j).num, INT), i + 1, j + 1);
    }
    r := Field(-1, i, j);
  }

  method ParseDirective(fmt: seq<byte>, i: nat, args: seq<Arg>, j: nat) returns (sp: Spec)
    ensures sp == Directive(fmt, i, args, j)
  {
    var f, at := ParseFlags(fmt, i);
    var w := ParseField(fmt, at, args, j);
    var width := w.value;
    if At(fmt, at) == STAR && width < 0 {
      width := -width;
      f := f.(left := true);
    }
    var p := Field(-1, w.at, w.arg);
    if At(fmt, w.at) == DOT {
      p := ParseField(fmt, w.at + 1, args, w.arg);
      if p.value < 0 {
        p := p.(value := 0);
      }
    }
    var q := Qualifier(fmt, p.at);
    sp := Spec(f, width, p.value, q.code, q.at, p.arg);
  }

  /** Text in its field: padding in front, text, padding behind. */
  method PutJustified(k: Sink, s: seq<byte>, width: int, left: bool)
    requires k.Valid()
    modifies k, k.buf
    ensures k.Valid() && k.out == old(k.out) + Justified(s, width, left)
  {
    if !left {
      k.PutFill(BLANK, width - |s|);
    }
    k.PutAll(s);
    if left {
      k.PutFill(BLANK, width - |s|);
    }
  }

  /** Carry a directive out. */
  method PutDirective(k: Sink, sp: Spec, c: byte, a: Arg)
    requires k.Valid()
    modifies k, k.buf
    ensures k.Valid() && k.out == old(k.out) + Render(sp, c, a)
  {
    if c == LETTER_C {
      PutJustified(k, [a.num % 256], sp.width, sp.flags.left);
    } else if c == LETTER_S {
      var s := TextOf(a);
      PutJustified(k, s[..TextLength(s, sp.precision)], sp.width, sp.flags.left);
    } else if c == LETTER_P {
      if sp.width == -1 {
        PutNumber(k, a.num % (2 * INT), 16, 8, sp.precision, sp.flags.(zeropad := true));
      } else {
        PutNumber(k, a.num % (2 * INT), 16, sp.width, sp.precision, sp.flags);
      }
    } else if c == LETTER_N {
      assert k.out == k.out + [];
    } else if IsNumeric(c) {
      var f := NumFlags(sp.flags, c);
      PutNumber(k, Convert(a.num, sp.qualifier, f.sign), Base(c), sp.width, sp.precision, f);
    } else {
      k.Put(PERCENT);
      if c != 0 && c != PERCENT {
        k.Put(c);
      }
    }
  }

  /**
   * `vsnprintf`: the first `size - 1` bytes of all that the format and its arguments stand for
   * are stored, with a terminator, and the number of bytes without the limit is returned.
   */
  method Vsnprintf(buf: array<byte>, size: nat, fmt: seq<byte>, args: seq<Arg>) returns (n: nat)
    requires size <= buf.Length
    modifies buf
    ensures n == |Output(fmt, args)| && Stored(buf[..], old(buf[..]), size, Output(fmt, args))
  {
    var k := new Sink(buf, size);
    var i, j := 0, 0;
    while At(fmt, i) != 0
      invariant k.Valid() && k.buf == buf && k.size == size && k.before == old(buf[..]) && fresh(k)
      invariant k.out + OutputFrom(fmt, i, args, j) == Output(fmt, args)
      decreases |fmt| - i
    {
      ghost var out := k.out;
      var c := At(fmt, i);
      if c != PERCENT {
        k.Put(c);
        Associate(out, [c], OutputFrom(fmt, i + 1, args, j));
        i := i + 1;
      } else {
        var sp := ParseDirective(fmt, i + 1, args, j);
        var letter, a := At(fmt, sp.at), ArgAt(args, sp.arg);
        PutDirective(k, sp, letter, a);
        Associate(out, Render(sp, letter, a), OutputFrom(fmt, After(fmt, sp), args, NextArg(sp, letter)));
        i, j := After(fmt, sp), NextArg(sp, letter);
      }
    }
    n := k.Finish();
  }
}
