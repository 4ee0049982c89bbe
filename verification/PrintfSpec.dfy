/** What formatted output consists of, without regard to the size of a buffer. */
module PrintfSpec {
  import opened Arith
  import opened Common

  const ZERO: byte := 48
  const NINE: byte := 57
  const BLANK: byte := 32
  const PLUS: byte := 43
  const MINUS: byte := 45
  const PERCENT: byte := 37
  const STAR: byte := 42
  const DOT: byte := 46
  const HASH: byte := 35

  datatype Flags = Flags(left: bool, plus: bool, space: bool, special: bool, zeropad: bool, large: bool, sign: bool)

  const NO_FLAGS := Flags(false, false, false, false, false, false, false)

  function Fill(c: byte, n: int): seq<byte> { if n <= 0 then [] else seq(n, _ => c) }

  // ---------------------------------------------------------------------
  // Digits
  // ---------------------------------------------------------------------

  /** The digit for a value below 36. */
  function Digit(v: nat, large: bool): byte
    requires v < 36
  {
    if v < 10 then ZERO + v else if large then 65 + v - 10 else 97 + v - 10
  }

  /** The digits of a number, the lowest first; none for zero. */
  function Reversed(n: nat, base: nat, large: bool): seq<byte>
    requires 2 <= base <= 36
    decreases n
  {
    if n == 0 then [] else (QuotientShrinks(n, base); [Digit(n % base, large)] + Reversed(n / base, base, large))
  }

  lemma QuotientShrinks(n: nat, base: nat)
    requires base >= 2 && n > 0
    ensures 0 <= n / base < n && 0 <= n % base < base && n == n / base * base + n % base
  {
    MulComm(base, n / base);
    if n / base >= n {
      MulLe(n, n / base, base);
      MulLe(2, base, n);
      MulComm(2, n);
      MulComm(base, n);
    }
  }

  function Reverse(s: seq<byte>): (r: seq<byte>)
    ensures |r| == |s|
  {
    if s == [] then [] else Reverse(s[1..]) + [s[0]]
  }

  /** The digits of a number as they are written: at least one. */
  function DigitsOf(n: nat, base: nat, large: bool): seq<byte>
    requires 2 <= base <= 36
  {
    if n == 0 then [ZERO] else Reverse(Reversed(n, base, large))
  }

  // ---------------------------------------------------------------------
  // Numbers
  // ---------------------------------------------------------------------

  const WORD64 := 0x1_0000_0000_0000_0000

  /** The magnitude that is written for a 64-bit number, wrapping as the machine does. */
  function Magnitude(num: int, sign: bool): nat { if sign && num < 0 then (-num) % WORD64 else num % WORD64 }

  function SignOf(num: int, f: Flags): seq<byte> {
    if !f.sign then [] else if num < 0 then [MINUS] else if f.plus then [PLUS] else if f.space then [BLANK] else []
  }

  function Prefix(base: nat, f: Flags): seq<byte> {
    if !f.special then [] else if base == 8 then [ZERO] else if base == 16 then [ZERO, if f.large then 88 else 120]
      else []
  }

  function Max(a: int, b: int): int { if a < b then b else a }

  /** What has to be written before padding: sign, prefix, zeros up to the precision, and digits. */
  function Needed(sign: seq<byte>, prefix: seq<byte>, digits: seq<byte>, precision: int): nat {
    |sign| + |prefix| + Max(precision, |digits|)
  }

  /** Blanks in front, sign, prefix, and zeros that fill the field. */
  function Head(sign: seq<byte>, prefix: seq<byte>, pad: int, left: bool, zeropad: bool): seq<byte> {
    (if left || zeropad then [] else Fill(BLANK, pad)) + sign + prefix + (if !left && zeropad then Fill(ZERO, pad)
      else [])
  }

  /** Zeros up to the precision, digits, and blanks behind. */
  function Tail(digits: seq<byte>, precision: int, pad: int, left: bool): seq<byte> {
    Fill(ZERO, precision - |digits|) + digits + (if left then Fill(BLANK, pad) else [])
  }

  /** Sign, prefix and digits in a field. */
  function InField(sign: seq<byte>, prefix: seq<byte>, digits: seq<byte>, width: int, precision: int, left: bool,
    zeropad: bool): seq<byte> {
    var pad := width - Needed(sign, prefix, digits, precision);
    Head(sign, prefix, pad, left, zeropad) + Tail(digits, precision, pad, left)
  }

  /** A number in its field. */
  function Number(num: int, base: nat, width: int, precision: int, f: Flags): seq<byte>
    requires 2 <= base <= 36
  {
    InField(SignOf(num, f), Prefix(base, f), DigitsOf(Magnitude(num, f.sign), base, f.large), width, precision,
      f.left, f.zeropad)
  }

  /** A number takes up its field, and more only if it has to. */
  lemma NumberLength(num: int, base: nat, width: int, precision: int, f: Flags)
    requires 2 <= base <= 36
    ensures |Number(num, base, width, precision, f)|
         == Max(width, Needed(SignOf(num, f), Prefix(base, f), DigitsOf(Magnitude(num, f.sign), base, f.large),
           precision))
  {
  }

  // ---------------------------------------------------------------------
  // Reading numbers back
  // ---------------------------------------------------------------------

  predicate IsXDigit(c: byte) { ZERO <= c <= NINE || 65 <= c <= 70 || 97 <= c <= 102 }

  function DigitValue(c: byte): nat
    requires IsXDigit(c)
  {
    if c <= NINE then c - ZERO else if c <= 70 then c - 65 + 10 else c - 97 + 10
  }

  predicate DigitIn(c: byte, base: nat) { IsXDigit(c) && DigitValue(c) < base }

  /** The value of a row of digits, wrapping to 64 bits. */
  function Value(s: seq<byte>, base: nat): nat
    requires forall i | 0 <= i < |s| :: DigitIn(s[i], base)
  {
    if s == [] then 0
    else
      assert DigitIn(s[|s| - 1], base);
      (Value(s[..|s| - 1], base) * base + DigitValue(s[|s| - 1])) % WORD64
  }

  /** How far the digits at the start of a string reach. */
  function Span(s: seq<byte>, base: nat): (n: nat)
    ensures n <= |s| && (forall i | 0 <= i < n :: DigitIn(s[i], base)) && (n < |s| ==> !DigitIn(s[n], base))
  {
    if s == [] || !DigitIn(s[0], base) then 0 else 1 + Span(s[1..], base)
  }

  /** `simple_strtoull` with a base given: the value of the digits at the start, and where they end. */
  method StrToULL(s: seq<byte>, base: nat) returns (result: nat, end: nat)
    ensures end == Span(s, base) && result == Value(s[..end], base)
  {
    result, end := 0, 0;
    while end < |s| && DigitIn(s[end], base)
      invariant end <= |s| && (forall i | 0 <= i < end :: DigitIn(s[i], base)) && result == Value(s[..end], base)
    {
      assert s[..end + 1][..end] == s[..end];
      result := (result * base + DigitValue(s[end])) % WORD64;
      end := end + 1;
    }
    SpanIs(s, base, end);
  }

  lemma {:induction false} SpanIs(s: seq<byte>, base: nat, n: nat)
    requires n <= |s| && (forall i | 0 <= i < n :: DigitIn(s[i], base)) && (n < |s| ==> !DigitIn(s[n], base))
    ensures Span(s, base) == n
  {
    if n > 0 {
      SpanIs(s[1..], base, n - 1);
    }
  }

  lemma DigitReadsBack(v: nat, base: nat, large: bool)
    requires v < base <= 16
    ensures DigitIn(Digit(v, large), base) && DigitValue(Digit(v, large)) == v
  {
  }

  lemma {:induction false} ReversedReadsBack(n: nat, base: nat, large: bool)
    requires 2 <= base <= 16 && n < WORD64
    ensures var s := Reverse(Reversed(n, base, large));
      (forall i | 0 <= i < |s| :: DigitIn(s[i], base))
      && Value(s, base) == n
    decreases n
  {
    if n > 0 {
      QuotientShrinks(n, base);
      DigitReadsBack(n % base, base, large);
      ReversedReadsBack(n / base, base, large);
      var rest, d := Reverse(Reversed(n / base, base, large)), Digit(n % base, large);
      assert Reversed(n, base, large)[1..] == Reversed(n / base, base, large);
      var s := rest + [d];
      assert s[..|s| - 1] == rest && s[|s| - 1] == d;
    }
  }

  /** Whatever number is written in base 8, 10 or 16, reading it gives it back, whatever follows that is no digit. */
  lemma WrittenReadsBack(n: nat, base: nat, large: bool, rest: seq<byte>)
    requires 2 <= base <= 16 && n < WORD64 && (rest != [] ==> !DigitIn(rest[0], base))
    ensures var s := DigitsOf(n, base, large);
      Span(s + rest, base) == |s| && (forall i | 0 <= i < |s| :: DigitIn(s[i], base)) && Value(s, base) == n
  {
    var s := DigitsOf(n, base, large);
    if n == 0 {
      assert s[..0] == [];
    } else {
      ReversedReadsBack(n, base, large);
    }
    SpanIs(s + rest, base, |s|);
  }

  /** A plain number is its digits. */
  lemma PlainNumber(num: int, base: nat, large: bool)
    requires 2 <= base <= 36
    ensures Number(num, base, -1, -1, NO_FLAGS.(large := large)) == DigitsOf(Magnitude(num, false), base, large)
  {
  }

  // ---------------------------------------------------------------------
  // Reading with the base left open
  // ---------------------------------------------------------------------

  const SMALL_EX: byte := 120

  /** The base that the start of a string stands for when none is given, and where its digits start. */
  function AutoBase(s: seq<byte>): (r: (nat, nat))
    ensures r.1 <= |s| && (r.0 == 8 || r.0 == 10 || r.0 == 16)
  {
    if s == [] || s[0] != ZERO then (10, 0)
    else if |s| > 2 && s[1] == SMALL_EX && IsXDigit(s[2]) then (16, 2)
    else (8, 1)
  }

  /** `simple_strtoull` with base zero. */
  method StrToULLAuto(s: seq<byte>) returns (result: nat, end: nat)
    ensures var auto := AutoBase(s); var rest := s[auto.1..];
      end == auto.1 + Span(rest, auto.0) && result == Value(rest[..Span(rest, auto.0)], auto.0)
  {
    var auto := AutoBase(s);
    var n;
    result, n := StrToULL(s[auto.1..], auto.0);
    end := auto.1 + n;
  }

  /** A number written with its prefix. */
  function Prefixed(n: nat, base: nat, large: bool): seq<byte>
    requires 2 <= base <= 36
  {
    Number(n, base, -1, -1, NO_FLAGS.(special := true, large := large))
  }

  lemma PlainField(sign: seq<byte>, prefix: seq<byte>, digits: seq<byte>)
    ensures InField(sign, prefix, digits, -1, -1, false, false) == sign + prefix + digits
  {
    assert Head(sign, prefix, -1 - Needed(sign, prefix, digits, -1), false, false) == sign + prefix;
  }

  lemma PrefixedIs(n: nat, base: nat, large: bool)
    requires 2 <= base <= 36 && n < WORD64
    ensures Prefixed(n, base, large) == Prefix(base, NO_FLAGS.(special := true, large := large)) + DigitsOf(n, base,
      large)
  {
    var f := NO_FLAGS.(special := true, large := large);
    PlainField([], Prefix(base, f), DigitsOf(n, base, large));
    assert [] + Prefix(base, f) == Prefix(base, f);
  }

  lemma {:induction false} ReversedIsDigits(n: nat, base: nat, large: bool)
    requires 2 <= base <= 36
    ensures n > 0 ==> Reversed(n, base, large) != []
  {
  }

  /** What is written in base 8, or in base 16 with a small x, is read back with the base left open. */
  lemma PrefixReadsBack(n: nat, base: nat)
    requires n < WORD64 && (base == 8 || base == 16)
    ensures var s := Prefixed(n, base, false);
      var start := if base == 8 then 1 else 2;
      AutoBase(s) == (base, start) && start + Span(s[start..], base) == |s| && Value(s[start..], base) == n
  {
    var s, d := Prefixed(n, base, false), DigitsOf(n, base, false);
    PrefixedIs(n, base, false);
    WrittenReadsBack(n, base, false, []);
    ReversedIsDigits(n, base, false);
    assert d + [] == d;
    PrefixRead(s, d, base);
  }

  lemma PrefixRead(s: seq<byte>, d: seq<byte>, base: nat)
    requires (base == 8 || base == 16) && d != [] && DigitIn(d[0], base)
    requires s == (if base == 8 then [ZERO] else [ZERO, SMALL_EX]) + d
    ensures var start := if base == 8 then 1 else 2; AutoBase(s) == (base, start) && s[start..] == d
  {
    if base == 8 {
      assert s[1] == d[0];
    } else {
      assert s[2] == d[0];
    }
  }

  /** A large X is not understood: reading stops in front of it, with zero, whatever the number. */
  lemma LargePrefixIsNotRead(n: nat)
    requires n < WORD64
    ensures var s := Prefixed(n, 16, true);
      AutoBase(s) == (8, 1) && Span(s[1..], 8) == 0 && Value(s[1..1], 8) == 0
  {
    PrefixedIs(n, 16, true);
  }
}
