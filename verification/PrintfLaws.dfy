/** What formatted output looks like, told without its definition: reading it back, and one format by another. */
module PrintfLaws {
  import opened Arith
  import opened Common
  import opened PrintfFormat
  import opened PrintfParse
  import opened PrintfSpec

  // ---------------------------------------------------------------------
  // Reading signed numbers
  // ---------------------------------------------------------------------

  /** What a string starts with as a signed number: a minus sign or none, and digits. */
  function SignedValue(s: seq<byte>, base: nat): int {
    if s != [] && s[0] == MINUS then Signed(0 - Value(s[1..][..Span(s[1..], base)], base), LONGLONG)
    else Signed(Value(s[..Span(s, base)], base), LONGLONG)
  }

  function SignedEnd(s: seq<byte>, base: nat): nat {
    if s != [] && s[0] == MINUS then 1 + Span(s[1..], base) else Span(s, base)
  }

  /** `simple_strtoll` with a base given. */
  method StrToLL(s: seq<byte>, base: nat) returns (result: int, end: nat)
    ensures result == SignedValue(s, base) && end == SignedEnd(s, base)
  {
    var v;
    if s != [] && s[0] == MINUS {
      v, end := StrToULL(s[1..], base);
      var minus: int := 0 - v as int;
      result, end := Signed(minus, LONGLONG), end + 1;
    } else {
      v, end := StrToULL(s, base);
      result := Signed(v, LONGLONG);
    }
  }

  // ---------------------------------------------------------------------
  // One directive with one argument
  // ---------------------------------------------------------------------

  predicate NoStars(d: Conv) { !d.width.FromArg? && (d.precision.Some? ==> !d.precision.value.FromArg?) }

  /** The output of one directive for one argument. */
  function Shown(d: Conv, a: Arg): seq<byte> { Output(Spelled(d), [a]) }

  function WidthOf(d: Conv): int { if d.width.Digits? then d.width.n else -1 }

  /** A precision without digits is zero. */
  function DigitsWanted(d: Conv): int {
    if d.precision.None? then -1 else if d.precision.value.Digits? then d.precision.value.n else 0
  }

  ghost function SpecOf(d: Conv): Spec
    requires IsSize(d.size)
  {
    Spec(With(NO_FLAGS, d.flags), WidthOf(d), DigitsWanted(d), SizeCode(d.size), 0, 0)
  }

  lemma {:induction false} ShownIs(d: Conv, a: Arg)
    requires WellSpelled(d) && NoStars(d)
    ensures Shown(d, a) == Render(SpecOf(d), d.letter, a)
  {
    DirectiveAlone(d, [a]);
    MeantIs(d, a);
    SameRender(Meant(d, [a]), SpecOf(d), d.letter, a);
  }

  lemma {:induction false} MeantIs(d: Conv, a: Arg)
    requires WellSpelled(d) && NoStars(d)
    ensures var sp := Meant(d, [a]); ArgAt([a], sp.arg) == a && sp.(at := 0, arg := 0) == SpecOf(d)
  {
  }

  /** Where a directive stands makes no difference. */
  lemma {:induction false} SameRender(sp: Spec, sp': Spec, c: byte, a: Arg)
    requires sp.(at := 0, arg := 0) == sp'
    ensures Render(sp, c, a) == Render(sp', c, a)
  {
  }

  // ---------------------------------------------------------------------
  // Fields
  // ---------------------------------------------------------------------

  /** Sign, prefix, zeros up to the precision and digits. */
  function Body(sign: seq<byte>, prefix: seq<byte>, digits: seq<byte>, precision: int): seq<byte> {
    sign + prefix + (Fill(ZERO, precision - |digits|) + digits)
  }

  lemma {:induction false} BodyAlone(sign: seq<byte>, prefix: seq<byte>, digits: seq<byte>, precision: int,
    zeropad: bool)
    ensures InField(sign, prefix, digits, -1, precision, false, zeropad) == Body(sign, prefix, digits, precision)
  {
    var pad := -1 - Needed(sign, prefix, digits, precision);
    assert Head(sign, prefix, pad, false, zeropad) == sign + prefix;
    assert Tail(digits, precision, pad, false) == Fill(ZERO, precision - |digits|) + digits;
  }

  lemma {:induction false} BodyRight(sign: seq<byte>, prefix: seq<byte>, digits: seq<byte>, width: int, precision: int)
    ensures var b := Body(sign, prefix, digits, precision);
      InField(sign, prefix, digits, width, precision, false, false) == Fill(BLANK, width - |b|) + b
  {
    var pad := width - Needed(sign, prefix, digits, precision);
    assert Head(sign, prefix, pad, false, false) == Fill(BLANK, pad) + (sign + prefix);
    assert Tail(digits, precision, pad, false) == Fill(ZERO, precision - |digits|) + digits;
  }

  lemma {:induction false} BodyLeft(sign: seq<byte>, prefix: seq<byte>, digits: seq<byte>, width: int, precision: int,
    zeropad: bool)
    ensures var b := Body(sign, prefix, digits, precision);
      InField(sign, prefix, digits, width, precision, true, zeropad) == b + Fill(BLANK, width - |b|)
  {
    var pad := width - Needed(sign, prefix, digits, precision);
    assert Head(sign, prefix, pad, true, zeropad) == sign + prefix;
    assert Tail(digits, precision, pad, true) == Fill(ZERO, precision - |digits|) + digits + Fill(BLANK, pad);
  }

  /** Zeros put in behind the first `h` bytes. */
  ghost function WithZeros(s: seq<byte>, h: nat, n: int): seq<byte>
    requires h <= |s|
  {
    s[..h] + Fill(ZERO, n) + s[h..]
  }

  lemma {:induction false} BodyZeros(sign: seq<byte>, prefix: seq<byte>, digits: seq<byte>, width: int, precision: int)
    ensures var b, h := Body(sign, prefix, digits, precision), |sign| + |prefix|;
      InField(sign, prefix, digits, width, precision, false, true) == WithZeros(b, h, width - |b|)
  {
    var b, h := Body(sign, prefix, digits, precision), |sign| + |prefix|;
    var pad := width - Needed(sign, prefix, digits, precision);
    assert b[..h] == sign + prefix && b[h..] == Fill(ZERO, precision - |digits|) + digits;
    assert Head(sign, prefix, pad, false, true) == b[..h] + Fill(ZERO, pad);
    assert Tail(digits, precision, pad, false) == b[h..];
  }

  /** What a number consists of. */
  datatype Parts = Parts(sign: seq<byte>, prefix: seq<byte>, digits: seq<byte>)

  ghost function PartsOf(num: int, base: nat, f: Flags): Parts
    requires 2 <= base <= 36
  {
    Parts(SignOf(num, f), Prefix(base, f), DigitsOf(Magnitude(num, f.sign), base, f.large))
  }

  ghost function Whole(x: Parts, p: int): seq<byte> { Body(x.sign, x.prefix, x.digits, p) }

  lemma {:induction false} NumberAlone(s: seq<byte>, x: Parts, num: int, base: nat, p: int, f: Flags)
    requires 2 <= base <= 36 && !f.left && x == PartsOf(num, base, f) && s == Number(num, base, -1, p, f)
    ensures s == Whole(x, p)
  {
    BodyAlone(x.sign, x.prefix, x.digits, p, f.zeropad);
  }

  lemma {:induction false} NumberAtRight(r: seq<byte>, x: Parts, num: int, base: nat, w: int, p: int, f: Flags)
    requires 2 <= base <= 36 && !f.left && !f.zeropad && x == PartsOf(num, base, f) && r == Number(num, base, w, p, f)
    ensures r == Fill(BLANK, w - |Whole(x, p)|) + Whole(x, p)
  {
    BodyRight(x.sign, x.prefix, x.digits, w, p);
  }

  lemma {:induction false} NumberAtLeft(r: seq<byte>, x: Parts, num: int, base: nat, w: int, p: int, f: Flags)
    requires 2 <= base <= 36 && f.left && x == PartsOf(num, base, f) && r == Number(num, base, w, p, f)
    ensures r == Whole(x, p) + Fill(BLANK, w - |Whole(x, p)|)
  {
    BodyLeft(x.sign, x.prefix, x.digits, w, p, f.zeropad);
  }

  lemma {:induction false} NumberWithZeros(s: seq<byte>, r: seq<byte>, x: Parts, h: nat, num: int, base: nat, w: int,
    p: int, f: Flags)
    requires 2 <= base <= 36 && !f.left && f.zeropad && x == PartsOf(num, base, f) && r == Number(num, base, w, p, f)
    requires s == Whole(x, p) && h == |x.sign| + |x.prefix| <= |s|
    ensures r == WithZeros(s, h, w - |s|)
  {
    BodyZeros(x.sign, x.prefix, x.digits, w, p);
  }

  /** Where a number stands in its field does not change its parts. */
  lemma {:induction false} SameParts(num: int, base: nat, f: Flags, f': Flags) returns (x: Parts)
    requires 2 <= base <= 36 && f' == f.(left := f'.left, zeropad := f'.zeropad)
    ensures x == PartsOf(num, base, f) && x == PartsOf(num, base, f')
  {
    x := PartsOf(num, base, f);
  }

  // ---------------------------------------------------------------------
  // Width
  // ---------------------------------------------------------------------

  predicate Fills(c: byte) { c == LETTER_C || c == LETTER_S || IsNumeric(c) }

  lemma {:induction false} TextSides(t: seq<byte>, w: int)
    ensures Justified(t, -1, false) == t && Justified(t, w, false) == Fill(BLANK, w - |t|) + t
    ensures Justified(t, w, true) == t + Fill(BLANK, w - |t|)
  {
  }

  /** The text of a character or a string, as far as it is output. */
  ghost function TextPart(p: int, c: byte, a: Arg): seq<byte> {
    if c == LETTER_C then [a.num % 256] else TextOf(a)[..TextLength(TextOf(a), p)]
  }

  lemma {:induction false} RenderText(sp: Spec, c: byte, a: Arg)
    requires c == LETTER_C || c == LETTER_S
    ensures Render(sp, c, a) == Justified(TextPart(sp.precision, c, a), sp.width, sp.flags.left)
  {
  }

  lemma {:induction false} NumberRight(s: seq<byte>, r: seq<byte>, num: int, base: nat, w: int, p: int, f: Flags)
    requires 2 <= base <= 36 && !f.left && !f.zeropad
    requires s == Number(num, base, -1, p, f) && r == Number(num, base, w, p, f)
    ensures r == Fill(BLANK, w - |s|) + s
  {
    var x := SameParts(num, base, f, f);
    NumberAlone(s, x, num, base, p, f);
    NumberAtRight(r, x, num, base, w, p, f);
  }

  lemma {:induction false} NumberLeft(s: seq<byte>, r: seq<byte>, num: int, base: nat, w: int, p: int, f: Flags)
    requires 2 <= base <= 36 && !f.left
    requires s == Number(num, base, -1, p, f) && r == Number(num, base, w, p, f.(left := true))
    ensures r == s + Fill(BLANK, w - |s|)
  {
    var x := SameParts(num, base, f, f.(left := true));
    NumberAlone(s, x, num, base, p, f);
    NumberAtLeft(r, x, num, base, w, p, f.(left := true));
  }

  /** In a wider field the output stands at the right end, with blanks before it. */
  lemma {:induction false} WidthPads(f: Flags, w: int, p: int, q: byte, c: byte, a: Arg)
    requires Fills(c) && !f.left && !f.zeropad
    ensures var s := Render(Spec(f, -1, p, q, 0, 0), c, a);
      Render(Spec(f, w, p, q, 0, 0), c, a) == Fill(BLANK, w - |s|) + s
  {
    if IsNumeric(c) {
      NumericRight(f, w, p, q, c, a.num);
    } else {
      RenderText(Spec(f, -1, p, q, 0, 0), c, a);
      RenderText(Spec(f, w, p, q, 0, 0), c, a);
      TextSides(TextPart(p, c, a), w);
    }
  }

  lemma {:induction false} NumericRight(f: Flags, w: int, p: int, q: byte, c: byte, n: int)
    requires IsNumeric(c) && !f.left && !f.zeropad
    ensures var s := Numeric(f, -1, p, q, c, n); Numeric(f, w, p, q, c, n) == Fill(BLANK, w - |s|) + s
  {
    var nf := NumFlags(f, c);
    NumberRight(Numeric(f, -1, p, q, c, n), Numeric(f, w, p, q, c, n), Convert(n, q, nf.sign), Base(c), w, p, nf);
  }

  /** With a minus sign it stands at the left end, with blanks behind it, whatever other flags there are. */
  lemma {:induction false} MinusPadsBehind(f: Flags, w: int, p: int, q: byte, c: byte, a: Arg)
    requires Fills(c) && !f.left
    ensures var s := Render(Spec(f, -1, p, q, 0, 0), c, a);
      Render(Spec(f.(left := true), w, p, q, 0, 0), c, a) == s + Fill(BLANK, w - |s|)
  {
    if IsNumeric(c) {
      NumericLeft(f, w, p, q, c, a.num);
    } else {
      RenderText(Spec(f, -1, p, q, 0, 0), c, a);
      RenderText(Spec(f.(left := true), w, p, q, 0, 0), c, a);
      TextSides(TextPart(p, c, a), w);
    }
  }

  lemma {:induction false} NumericLeft(f: Flags, w: int, p: int, q: byte, c: byte, n: int)
    requires IsNumeric(c) && !f.left
    ensures var s := Numeric(f, -1, p, q, c, n);
      Numeric(f.(left := true), w, p, q, c, n) == s + Fill(BLANK, w - |s|)
  {
    var nf := NumFlags(f, c);
    assert NumFlags(f.(left := true), c) == nf.(left := true);
    NumberLeft(Numeric(f, -1, p, q, c, n), Numeric(f.(left := true), w, p, q, c, n), Convert(n, q, nf.sign), Base(c),
      w, p, nf);
  }

  // ---------------------------------------------------------------------
  // Digits
  // ---------------------------------------------------------------------

  /** The digits of a number are digits of its base, give it back when they are read, and do not start with a zero. */
  lemma {:induction false} DigitsAre(n: nat, base: nat, large: bool)
    requires 2 <= base <= 16 && n < WORD64
    ensures var s := DigitsOf(n, base, large);
      && s != [] && (forall i | 0 <= i < |s| :: DigitIn(s[i], base)) && Span(s, base) == |s| && Value(s, base) == n
      && (s[0] == ZERO <==> n == 0) && (n == 0 ==> |s| == 1)
  {
    var s := DigitsOf(n, base, large);
    WrittenReadsBack(n, base, large, []);
    assert s + [] == s;
    if n > 0 {
      FirstDigit(n, base, large);
    }
  }

  lemma {:induction false} FirstDigit(n: nat, base: nat, large: bool)
    requires 2 <= base <= 36 && n > 0
    ensures var s := Reverse(Reversed(n, base, large)); s != [] && s[0] != ZERO
    decreases n
  {
    QuotientShrinks(n, base);
    assert Reversed(n, base, large)[1..] == Reversed(n / base, base, large);
    if n / base > 0 {
      FirstDigit(n / base, base, large);
    } else {
      assert n == n % base;
    }
  }

  // ---------------------------------------------------------------------
  // Zeros
  // ---------------------------------------------------------------------

  predicate IsSign(c: byte) { c == MINUS || c == PLUS || c == BLANK }

  /** How much of a number stands before its digits: a sign, if it starts with one, and the prefix of its base. */
  function HeadLength(s: seq<byte>, special: bool, c: byte): nat {
    (if s != [] && IsSign(s[0]) then 1 else 0)
    + (if special && c == LETTER_O then 1 else if special && (c == SMALL_X || c == LARGE_X) then 2 else 0)
  }

  lemma {:induction false} HeadIs(s: seq<byte>, x: Parts, num: int, p: int, f: Flags, c: byte) returns (h: nat)
    requires IsNumeric(c) && x == PartsOf(num, Base(c), f) && s == Whole(x, p)
    ensures h == HeadLength(s, f.special, c) && h <= |s| && h == |x.sign| + |x.prefix|
  {
    h := HeadLength(s, f.special, c);
    DigitsAre(Magnitude(num, f.sign), Base(c), f.large);
    FirstOf(x, p);
  }

  lemma {:induction false} FirstOf(x: Parts, p: int)
    requires x.digits != [] && |x.sign| <= 1
    ensures |Whole(x, p)| == |x.sign| + |x.prefix| + Max(p, |x.digits|)
    ensures Whole(x, p)[0]
         == if x.sign != [] then x.sign[0] else if x.prefix != [] then x.prefix[0]
            else if p > |x.digits| then ZERO else x.digits[0]
  {
  }

  /** Zeros fill a field behind the sign and the prefix, and nothing else changes. */
  lemma {:induction false} ZerosFill(s: seq<byte>, r: seq<byte>, f: Flags, w: int, p: int, q: byte, c: byte, n: int)
    requires IsNumeric(c) && !f.left && !f.zeropad
    requires s == Numeric(f, -1, p, q, c, n) && r == Numeric(f.(zeropad := true), w, p, q, c, n)
    ensures var h := HeadLength(s, f.special, c); h <= |s| && r == WithZeros(s, h, w - |s|)
  {
    var nf := NumFlags(f, c);
    assert NumFlags(f.(zeropad := true), c) == nf.(zeropad := true);
    ZerosOf(s, r, Convert(n, q, nf.sign), w, p, nf, f.special, c);
  }

  lemma {:induction false} ZerosOf(s: seq<byte>, r: seq<byte>, num: int, w: int, p: int, f: Flags, special: bool,
    c: byte)
    requires IsNumeric(c) && !f.left && !f.zeropad && special == f.special
    requires s == Number(num, Base(c), -1, p, f) && r == Number(num, Base(c), w, p, f.(zeropad := true))
    ensures var h := HeadLength(s, special, c); h <= |s| && r == WithZeros(s, h, w - |s|)
  {
    var x := SameParts(num, Base(c), f, f.(zeropad := true));
    NumberAlone(s, x, num, Base(c), p, f);
    var h := HeadIs(s, x, num, p, f, c);
    NumberWithZeros(s, r, x, h, num, Base(c), w, p, f.(zeropad := true));
  }

  /** A precision puts zeros there too, until there are so many digits. */
  lemma {:induction false} PrecisionPads(s: seq<byte>, r: seq<byte>, f: Flags, p: int, q: byte, c: byte, n: int)
    requires IsNumeric(c) && !f.left && s == Numeric(f, -1, -1, q, c, n) && r == Numeric(f, -1, p, q, c, n)
    ensures var h := HeadLength(s, f.special, c); h <= |s| && r == WithZeros(s, h, p - (|s| - h))
  {
    var nf := NumFlags(f, c);
    PrecisionAt(s, r, Convert(n, q, nf.sign), p, nf, f.special, c);
  }

  lemma {:induction false} PrecisionAt(s: seq<byte>, r: seq<byte>, num: int, p: int, f: Flags, special: bool, c: byte)
    requires IsNumeric(c) && !f.left && special == f.special
    requires s == Number(num, Base(c), -1, -1, f) && r == Number(num, Base(c), -1, p, f)
    ensures var h := HeadLength(s, special, c); h <= |s| && r == WithZeros(s, h, p - (|s| - h))
  {
    var x := PartsOf(num, Base(c), f);
    NumberAlone(s, x, num, Base(c), -1, f);
    NumberAlone(r, x, num, Base(c), p, f);
    PrecisionBehind(s, r, x, num, p, f, special, c);
  }

  lemma {:induction false} PrecisionBehind(s: seq<byte>, r: seq<byte>, x: Parts, num: int, p: int, f: Flags,
    special: bool, c: byte)
    requires IsNumeric(c) && special == f.special && x == PartsOf(num, Base(c), f)
    requires s == Whole(x, -1) && r == Whole(x, p)
    ensures var h := HeadLength(s, special, c); h <= |s| && r == WithZeros(s, h, p - (|s| - h))
  {
    var h := HeadIs(s, x, num, -1, f, c);
    WholePrecision(s, r, x, h, p);
  }

  lemma {:induction false} WholePrecision(s: seq<byte>, r: seq<byte>, x: Parts, h: nat, p: int)
    requires s == Whole(x, -1) && r == Whole(x, p) && h == |x.sign| + |x.prefix| <= |s|
    ensures r == WithZeros(s, h, p - (|s| - h))
  {
    assert s[..h] == x.sign + x.prefix && s[h..] == x.digits;
  }

  // ---------------------------------------------------------------------
  // Signs and prefixes
  // ---------------------------------------------------------------------

  /** Half of the numbers that a size stands for. */
  function Half(q: byte): int { if q == LARGE_L then LONGLONG else if q == SMALL_H then SHORT else INT }

  /** The numbers that a signed argument of a size can be. */
  predicate FitsSigned(n: int, q: byte) { q != LARGE_Z && -Half(q) <= n < Half(q) }

  /** A number read at a size differs from it by whole rounds, and lies in its range. */
  lemma {:induction false} ConvertWraps(n: int, q: byte, sign: bool)
    ensures var m := Convert(n, q, sign); (m - n) % (2 * Half(q)) == 0
    ensures var m := Convert(n, q, sign);
      if q == LARGE_L || (sign && q != LARGE_Z) then -Half(q) <= m < Half(q) else 0 <= m < 2 * Half(q)
  {
    if q == LARGE_L {
      Rounds(n, 0x1_0000_0000_0000_0000);
    } else if q == SMALL_H {
      Rounds(n, 0x1_0000);
    } else {
      Rounds(n, 0x1_0000_0000);
    }
  }

  lemma {:induction false} Rounds(n: int, m: int)
    requires m > 0
    ensures (n % m - n) % m == 0 && (n % m - m - n) % m == 0
  {
    var k := n / m;
    assert n == m * k + n % m;
    MulComm(m, k);
    assert n % m - n == (-k) * m + 0;
    DivUnique(n % m - n, m, -k, 0);
    assert n % m - m - n == (-k - 1) * m + 0;
    DivUnique(n % m - m - n, m, -k - 1, 0);
  }

  /** A number that its size has room for is itself. */
  lemma {:induction false} ConvertKeeps(n: int, q: byte)
    ensures FitsSigned(n, q) ==> Convert(n, q, true) == n
    ensures 0 <= n < 2 * Half(q) ==> Convert(n, q, false) % WORD64 == n
  {
  }

  /** A plus sign is shown in front of numbers that are not negative, and nothing else changes; a blank likewise. */
  lemma {:induction false} PlusIsShown(f: Flags, p: int, q: byte, c: byte, n: int)
    requires (c == LETTER_D || c == LETTER_I) && !f.left && !f.plus && !f.space && FitsSigned(n, q)
    ensures var s := Numeric(f, -1, p, q, c, n);
      && Numeric(f.(plus := true), -1, p, q, c, n) == (if n >= 0 then [PLUS] else []) + s
      && Numeric(f.(space := true), -1, p, q, c, n) == (if n >= 0 then [BLANK] else []) + s
      && Numeric(f.(plus := true, space := true), -1, p, q, c, n) == (if n >= 0 then [PLUS] else []) + s
  {
    NumericSign(f, f.(plus := true), [PLUS], p, q, c, n);
    NumericSign(f, f.(space := true), [BLANK], p, q, c, n);
    NumericSign(f, f.(plus := true, space := true), [PLUS], p, q, c, n);
  }

  lemma {:induction false} NumericSign(f: Flags, f': Flags, sign: seq<byte>, p: int, q: byte, c: byte, n: int)
    requires (c == LETTER_D || c == LETTER_I) && !f.left && !f.plus && !f.space && FitsSigned(n, q)
    requires f' == f.(plus := f'.plus, space := f'.space) && (f'.plus || f'.space)
    requires sign == if f'.plus then [PLUS] else [BLANK]
    ensures Numeric(f', -1, p, q, c, n) == (if n >= 0 then sign else []) + Numeric(f, -1, p, q, c, n)
  {
    ConvertKeeps(n, q);
    NumberSign(n, p, NumFlags(f, c), NumFlags(f', c), sign);
  }

  lemma {:induction false} NumberSign(n: int, p: int, f: Flags, f': Flags, sign: seq<byte>)
    requires f.sign && !f.left && !f.plus && !f.space && f' == f.(plus := f'.plus, space := f'.space)
    requires sign == SignOf(0, f')
    ensures Number(n, 10, -1, p, f') == (if n >= 0 then sign else []) + Number(n, 10, -1, p, f)
  {
    NumberAlone(Number(n, 10, -1, p, f), PartsOf(n, 10, f), n, 10, p, f);
    NumberAlone(Number(n, 10, -1, p, f'), PartsOf(n, 10, f'), n, 10, p, f');
    PartsSign(n, f, f', sign);
    WholeSign(PartsOf(n, 10, f), if n >= 0 then sign else [], p);
  }

  lemma {:induction false} PartsSign(n: int, f: Flags, f': Flags, sign: seq<byte>)
    requires f.sign && !f.left && !f.plus && !f.space && f' == f.(plus := f'.plus, space := f'.space)
    requires sign == SignOf(0, f')
    ensures var x := PartsOf(n, 10, f);
      PartsOf(n, 10, f') == Parts((if n >= 0 then sign else []) + x.sign, x.prefix, x.digits)
  {
  }

  lemma {:induction false} WholeSign(x: Parts, t: seq<byte>, p: int)
    ensures Whole(Parts(t + x.sign, x.prefix, x.digits), p) == t + Whole(x, p)
  {
  }

  /** Unsigned conversions show no sign, whatever the flags. */
  lemma {:induction false} NoSign(f: Flags, w: int, p: int, q: byte, c: byte, n: int)
    requires IsNumeric(c) && c != LETTER_D && c != LETTER_I && !f.sign
    ensures Numeric(f.(plus := true), w, p, q, c, n) == Numeric(f, w, p, q, c, n)
    ensures Numeric(f.(space := true), w, p, q, c, n) == Numeric(f, w, p, q, c, n)
  {
  }

  /** The prefix: a zero for base 8, a zero and the conversion letter itself for base 16, nothing for base 10. */
  lemma {:induction false} PrefixIsShown(f: Flags, p: int, q: byte, c: byte, n: int)
    requires IsNumeric(c) && !f.left && !f.special && !f.sign && !f.large
    ensures var prefix := if c == LETTER_O then [ZERO] else if c == SMALL_X || c == LARGE_X then [ZERO, c] else [];
      Numeric(f.(special := true), -1, p, q, c, n) == prefix + Numeric(f, -1, p, q, c, n)
  {
    var nf := NumFlags(f, c);
    assert NumFlags(f.(special := true), c) == nf.(special := true);
    NumberPrefix(Convert(n, q, nf.sign), p, nf, c);
  }

  lemma {:induction false} NumberPrefix(n: int, p: int, f: Flags, c: byte)
    requires IsNumeric(c) && !f.left && !f.special
    requires f.large == (c == LARGE_X) && f.sign == (c == LETTER_D || c == LETTER_I)
    ensures var prefix := if c == LETTER_O then [ZERO] else if c == SMALL_X || c == LARGE_X then [ZERO, c] else [];
      Number(n, Base(c), -1, p, f.(special := true)) == prefix + Number(n, Base(c), -1, p, f)
  {
    var f' := f.(special := true);
    NumberAlone(Number(n, Base(c), -1, p, f), PartsOf(n, Base(c), f), n, Base(c), p, f);
    NumberAlone(Number(n, Base(c), -1, p, f'), PartsOf(n, Base(c), f'), n, Base(c), p, f');
    var prefix := if c == LETTER_O then [ZERO] else if c == SMALL_X || c == LARGE_X then [ZERO, c] else [];
    PartsPrefix(n, f, c, prefix);
    WholePrefix(PartsOf(n, Base(c), f), prefix, p);
  }

  lemma {:induction false} PartsPrefix(n: int, f: Flags, c: byte, prefix: seq<byte>)
    requires IsNumeric(c) && !f.left && !f.special
    requires f.large == (c == LARGE_X) && f.sign == (c == LETTER_D || c == LETTER_I)
    requires prefix == if c == LETTER_O then [ZERO] else if c == SMALL_X || c == LARGE_X then [ZERO, c] else []
    ensures var x := PartsOf(n, Base(c), f);
      && x.prefix == [] && (prefix == [] || x.sign == [])
      && PartsOf(n, Base(c), f.(special := true)) == Parts(x.sign, prefix, x.digits)
  {
  }

  lemma {:induction false} WholePrefix(x: Parts, prefix: seq<byte>, p: int)
    requires x.prefix == [] && (prefix == [] || x.sign == [])
    ensures Whole(Parts(x.sign, prefix, x.digits), p) == prefix + Whole(x, p)
  {
    if prefix == [] {
      assert x == Parts(x.sign, prefix, x.digits);
    }
  }

  /** A pointer is output as a 32-bit number in base 16, in a field of eight digits if no width is given. */
  lemma {:induction false} PointerIsShown(f: Flags, w: int, p: int, q: byte, a: Arg)
    requires !f.sign
    ensures Render(Spec(f, w, p, q, 0, 0), LETTER_P, a)
         == if w == -1 then Numeric(f.(zeropad := true), 8, p, 0, SMALL_X, a.num)
            else Numeric(f, w, p, 0, SMALL_X, a.num)
  {
  }

  // ---------------------------------------------------------------------
  // Text
  // ---------------------------------------------------------------------

  /** Text is output as it is, as much of it as the precision allows, and without text its stand-in. */
  lemma {:induction false} TextIsShown(f: Flags, p: int, q: byte, num: int, text: Option<seq<byte>>)
    ensures var t := if text.Some? then text.value else [60, 78, 85, 76, 76, 62];
      Render(Spec(f, -1, p, q, 0, 0), LETTER_S, Arg(num, text)) == if 0 <= p < |t| then t[..p] else t
  {
    var a, t := Arg(num, text), if text.Some? then text.value else [60, 78, 85, 76, 76, 62];
    RenderText(Spec(f, -1, p, q, 0, 0), LETTER_S, a);
    assert t[..|t|] == t;
    TextSides(TextPart(p, LETTER_S, a), -1);
  }

  /** A character argument is output as its low byte. */
  lemma {:induction false} CharIsShown(f: Flags, p: int, q: byte, c: byte, k: int, text: Option<seq<byte>>)
    ensures Render(Spec(f, -1, p, q, 0, 0), LETTER_C, Arg(256 * k + c, text)) == [c]
  {
    RenderText(Spec(f, -1, p, q, 0, 0), LETTER_C, Arg(256 * k + c, text));
    assert (256 * k + c) % 256 == c;
    TextSides([c], -1);
  }

  /** Two percent signs are one, and a letter that stands for nothing is output behind one; no argument is used up. */
  lemma {:induction false} OtherLetters(c: byte, rest: seq<byte>, args: seq<Arg>)
    requires IsLetter(c) && !TakesArg(c)
    ensures Output([PERCENT, c] + rest, args) == (if c == PERCENT then [PERCENT] else [PERCENT, c]) + Output(rest, args)
  {
    var d := Conv([], Nothing, None, [], c);
    assert Spelled(d) == [PERCENT, c];
    DirectiveFirst(d, rest, args);
    assert Drop(args, 0) == args;
  }

  /** A percent sign at the very end is output. */
  lemma {:induction false} LastPercent(args: seq<Arg>)
    ensures Output([PERCENT], args) == [PERCENT]
  {
    assert Directive([PERCENT], 1, args, 0).at == 1;
    assert OutputFrom([PERCENT], 1, args, 0) == [];
  }

  // ---------------------------------------------------------------------
  // Reading back
  // ---------------------------------------------------------------------

  /** A signed number output plainly: a minus sign exactly if it is negative, and the digits of its magnitude. */
  lemma {:induction false} SignedIs(n: int, q: byte, c: byte)
    requires (c == LETTER_D || c == LETTER_I) && FitsSigned(n, q)
    ensures Numeric(NO_FLAGS, -1, -1, q, c, n)
         == if n < 0 then [MINUS] + DigitsOf(-n, 10, false) else DigitsOf(n, 10, false)
  {
    ConvertKeeps(n, q);
    var f := NO_FLAGS.(sign := true);
    NumberAlone(Number(n, 10, -1, -1, f), PartsOf(n, 10, f), n, 10, -1, f);
    PlainParts(n);
    WholePlain(PartsOf(n, 10, f));
  }

  lemma {:induction false} PlainParts(n: int)
    requires -WORD64 < n < WORD64
    ensures PartsOf(n, 10, NO_FLAGS.(sign := true))
         == if n < 0 then Parts([MINUS], [], DigitsOf(-n, 10, false)) else Parts([], [], DigitsOf(n, 10, false))
  {
    MagnitudeIs(n);
  }

  lemma {:induction false} MagnitudeIs(n: int)
    requires -WORD64 < n < WORD64
    ensures Magnitude(n, true) == if n < 0 then -n else n
  {
  }

  lemma {:induction false} WholePlain(x: Parts)
    requires x.prefix == []
    ensures Whole(x, -1) == if x.sign == [] then x.digits else x.sign + x.digits
  {
  }

  lemma {:induction false} SignedRead(n: int)
    requires FitsSigned(n, LARGE_L)
    ensures var s := if n < 0 then [MINUS] + DigitsOf(-n, 10, false) else DigitsOf(n, 10, false);
      SignedValue(s, 10) == n && SignedEnd(s, 10) == |s|
  {
    var m: nat := if n < 0 then -n else n;
    DigitsAre(m, 10, false);
    MinusRead(n, DigitsOf(m, 10, false));
  }

  lemma {:induction false} MinusRead(n: int, ds: seq<byte>)
    requires FitsSigned(n, LARGE_L) && ds != [] && ds[0] != MINUS && Span(ds, 10) == |ds|
    requires forall i | 0 <= i < |ds| :: DigitIn(ds[i], 10)
    requires Value(ds, 10) == if n < 0 then -n else n
    ensures var s := if n < 0 then [MINUS] + ds else ds; SignedValue(s, 10) == n && SignedEnd(s, 10) == |s|
  {
    assert ds[..|ds|] == ds;
    if n < 0 {
      assert ([MINUS] + ds)[1..] == ds;
    }
  }

  /** A directive of a percent sign, a size and a letter. */
  lemma {:induction false} PlainOutput(n: int, size: seq<byte>, c: byte, text: Option<seq<byte>>)
    requires IsSize(size) && IsNumeric(c)
    ensures Output([PERCENT] + size + [c], [Arg(n, text)]) == Numeric(NO_FLAGS, -1, -1, SizeCode(size), c, n)
  {
    var d := Conv([], Nothing, None, size, c);
    assert Spelled(d) == [PERCENT] + size + [c];
    ShownIs(d, Arg(n, text));
  }

  lemma {:induction false} PlainSigned(n: int, size: seq<byte>, c: byte, text: Option<seq<byte>>)
    requires IsSize(size) && (c == LETTER_D || c == LETTER_I) && FitsSigned(n, SizeCode(size))
    ensures Output([PERCENT] + size + [c], [Arg(n, text)])
         == if n < 0 then [MINUS] + DigitsOf(-n, 10, false) else DigitsOf(n, 10, false)
  {
    PlainOutput(n, size, c, text);
    SignedIs(n, SizeCode(size), c);
  }

  /** Every number that its size has room for is read back from what is output for it, to the end. */
  lemma {:induction false} SignedReadsBack(n: int, size: seq<byte>, c: byte, text: Option<seq<byte>>)
    requires IsSize(size) && (c == LETTER_D || c == LETTER_I) && FitsSigned(n, SizeCode(size))
    ensures var s := Output([PERCENT] + size + [c], [Arg(n, text)]);
      SignedValue(s, 10) == n && SignedEnd(s, 10) == |s|
  {
    PlainSigned(n, size, c, text);
    SignedRead(n);
  }

  lemma {:induction false} UnsignedIs(n: int, q: byte, c: byte)
    requires IsNumeric(c) && c != LETTER_D && c != LETTER_I && 0 <= n < 2 * Half(q)
    ensures Numeric(NO_FLAGS, -1, -1, q, c, n) == DigitsOf(n, Base(c), c == LARGE_X)
  {
    ConvertKeeps(n, q);
    assert NumFlags(NO_FLAGS, c) == NO_FLAGS.(large := c == LARGE_X);
    PlainNumber(Convert(n, q, false), Base(c), c == LARGE_X);
  }

  lemma {:induction false} PlainUnsigned(n: int, size: seq<byte>, c: byte, text: Option<seq<byte>>)
    requires IsSize(size) && IsNumeric(c) && c != LETTER_D && c != LETTER_I && 0 <= n < 2 * Half(SizeCode(size))
    ensures Output([PERCENT] + size + [c], [Arg(n, text)]) == DigitsOf(n, Base(c), c == LARGE_X)
  {
    PlainOutput(n, size, c, text);
    UnsignedIs(n, SizeCode(size), c);
  }

  /** So is every unsigned number, in base 8, 10 and 16; zero is one digit, and no other number starts with a zero. */
  lemma {:induction false} UnsignedReadsBack(n: int, size: seq<byte>, c: byte, text: Option<seq<byte>>)
    requires IsSize(size) && IsNumeric(c) && c != LETTER_D && c != LETTER_I && 0 <= n < 2 * Half(SizeCode(size))
    ensures var s := Output([PERCENT] + size + [c], [Arg(n, text)]);
      && Span(s, Base(c)) == |s| && Value(s, Base(c)) == n
      && s != [] && (s[0] == ZERO <==> n == 0) && (n == 0 ==> |s| == 1)
  {
    PlainUnsigned(n, size, c, text);
    DigitsAre(n, Base(c), c == LARGE_X);
  }

  // ---------------------------------------------------------------------
  // Large letters
  // ---------------------------------------------------------------------

  function Upper(c: byte): byte { if 97 <= c <= 122 then c - 32 else c }

  function UpperAll(s: seq<byte>): (r: seq<byte>)
    ensures |r| == |s| && forall i | 0 <= i < |s| :: r[i] == Upper(s[i])
  {
    seq(|s|, i requires 0 <= i < |s| => Upper(s[i]))
  }

  lemma {:induction false} UpperDigits(n: nat)
    ensures UpperAll(Reverse(Reversed(n, 16, false))) == Reverse(Reversed(n, 16, true))
    decreases n
  {
    if n > 0 {
      UpperDigits(n / 16);
      var r, r' := Reverse(Reversed(n / 16, 16, false)), Reverse(Reversed(n / 16, 16, true));
      assert Reversed(n, 16, false)[1..] == Reversed(n / 16, 16, false);
      assert Reversed(n, 16, true)[1..] == Reversed(n / 16, 16, true);
      assert Reverse(Reversed(n, 16, false)) == r + [Digit(n % 16, false)];
      assert Reverse(Reversed(n, 16, true)) == r' + [Digit(n % 16, true)];
    }
  }

  lemma {:induction false} UpperParts(num: int, f: Flags)
    requires !f.large
    ensures var x, x' := PartsOf(num, 16, f), PartsOf(num, 16, f.(large := true));
      UpperAll(x.sign) == x'.sign && UpperAll(x.prefix) == x'.prefix && UpperAll(x.digits) == x'.digits
  {
    UpperDigits(Magnitude(num, f.sign));
  }

  lemma {:induction false} UpperWhole(x: Parts, x': Parts, p: int)
    requires UpperAll(x.sign) == x'.sign && UpperAll(x.prefix) == x'.prefix && UpperAll(x.digits) == x'.digits
    ensures UpperAll(Whole(x, p)) == Whole(x', p)
  {
  }

  /** With a large X the letters are large, those of the prefix too, and nothing else changes. */
  lemma {:induction false} LargeIsShown(f: Flags, p: int, q: byte, n: int)
    requires !f.large && !f.left
    ensures Numeric(f, -1, p, q, LARGE_X, n) == UpperAll(Numeric(f, -1, p, q, SMALL_X, n))
  {
    var num, f' := Convert(n, q, f.sign), f.(large := true);
    NumberAlone(Number(num, 16, -1, p, f), PartsOf(num, 16, f), num, 16, p, f);
    NumberAlone(Number(num, 16, -1, p, f'), PartsOf(num, 16, f'), num, 16, p, f');
    UpperParts(num, f);
    UpperWhole(PartsOf(num, 16, f), PartsOf(num, 16, f'), p);
  }
}
