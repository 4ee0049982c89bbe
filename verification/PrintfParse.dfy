/** Directives as they are spelled: reading one gives what was spelled, and formats can be taken piece by piece. */
module PrintfParse {
  import opened Arith
  import opened Common
  import opened PrintfFormat
  import opened PrintfSpec

  // ---------------------------------------------------------------------
  // Spelling
  // ---------------------------------------------------------------------

  /** A width or a precision as it is spelled. */
  datatype Amount = Nothing | Digits(n: nat) | FromArg

  /** A directive as it is spelled. */
  datatype Conv = Conv(flags: seq<byte>, width: Amount, precision: Option<Amount>, size: seq<byte>, letter: byte)

  function Text(w: Amount): seq<byte> {
    match w
    case Nothing => []
    case Digits(n) => DigitsOf(n, 10, false)
    case FromArg => [STAR]
  }

  function PrecisionText(p: Option<Amount>): seq<byte> { if p.None? then [] else [DOT] + Text(p.value) }

  function Spelled(d: Conv): seq<byte> {
    [PERCENT] + (d.flags + (Text(d.width) + (PrecisionText(d.precision) + (d.size + [d.letter]))))
  }

  /** The sizes a number argument can have: none, h, l, ll, L, Z and q. */
  predicate IsSize(s: seq<byte>) {
    || s == [] || s == [SMALL_H] || s == [SMALL_L] || s == [SMALL_L, SMALL_L]
    || s == [LARGE_L] || s == [LARGE_Z] || s == [SMALL_Q]
  }

  function SizeCode(s: seq<byte>): byte
    requires IsSize(s)
  {
    if s == [] then 0 else if s == [SMALL_L, SMALL_L] || s == [SMALL_Q] then LARGE_L else s[0]
  }

  /** Whatever is not part of what may stand before it. */
  predicate IsLetter(c: byte) {
    && c != 0 && !IsFlag(c) && !IsDigit(c) && c != STAR && c != DOT
    && c != SMALL_H && c != SMALL_L && c != LARGE_L && c != LARGE_Z && c != SMALL_Q
  }

  /** A width does not start with a zero, which would be a flag. */
  predicate WellSpelled(d: Conv) {
    && (forall k | 0 <= k < |d.flags| :: IsFlag(d.flags[k]))
    && (d.width.Digits? ==> d.width.n > 0) && IsSize(d.size) && IsLetter(d.letter)
  }

  // ---------------------------------------------------------------------
  // What was spelled
  // ---------------------------------------------------------------------

  function With(f: Flags, flags: seq<byte>): Flags {
    Flags(f.left || MINUS in flags, f.plus || PLUS in flags, f.space || BLANK in flags, f.special || HASH in flags,
      f.zeropad || ZERO in flags, f.large, f.sign)
  }

  function Stars(w: Amount): nat { if w.FromArg? then 1 else 0 }

  function AmountOf(w: Amount, a: Arg): int {
    match w
    case Nothing => -1
    case Digits(n) => n
    case FromArg => Signed(a.num, INT)
  }

  function PrecisionOf(p: Option<Amount>, a: Arg): int { if p.None? then -1 else Max(AmountOf(p.value, a), 0) }

  function PrecisionStars(p: Option<Amount>): nat { if p.None? then 0 else Stars(p.value) }

  /** The directive that is meant. */
  function Meant(d: Conv, args: seq<Arg>): Spec
    requires IsSize(d.size)
  {
    var w := AmountOf(d.width, ArgAt(args, 0));
    var f := With(NO_FLAGS, d.flags);
    var n := Stars(d.width);
    var negative := d.width.FromArg? && w < 0;
    Spec(if negative then f.(left := true) else f, if negative then -w else w, PrecisionOf(d.precision, ArgAt(args, n)),
      SizeCode(d.size), |Spelled(d)| - 1, n + PrecisionStars(d.precision))
  }

  // ---------------------------------------------------------------------
  // Places
  // ---------------------------------------------------------------------

  predicate Has(fmt: seq<byte>, i: nat, s: seq<byte>) {
    i + |s| <= |fmt| && forall k | 0 <= k < |s| :: fmt[i + k] == s[k]
  }

  /** Where `s` stands in `fmt`. */
  ghost function Places(fmt: seq<byte>, s: seq<byte>): iset<nat> { iset i: nat | Has(fmt, i, s) }

  lemma {:induction false} PlaceAt(fmt: seq<byte>, i: nat, s: seq<byte>)
    requires i in Places(fmt, s) && s != []
    ensures At(fmt, i) == s[0] && i + 1 in Places(fmt, s[1..])
  {
    assert fmt[i + 0] == s[0];
    forall k | 0 <= k < |s| - 1
      ensures fmt[i + 1 + k] == s[1..][k]
    {
      assert fmt[i + (k + 1)] == s[k + 1];
    }
  }

  lemma {:induction false} PlaceSplit(fmt: seq<byte>, i: nat, s: seq<byte>, t: seq<byte>)
    requires i in Places(fmt, s + t)
    ensures i in Places(fmt, s) && i + |s| in Places(fmt, t)
  {
    forall k | 0 <= k < |s|
      ensures fmt[i + k] == s[k]
    {
      assert (s + t)[k] == s[k];
    }
    forall k | 0 <= k < |t|
      ensures fmt[i + |s| + k] == t[k]
    {
      assert fmt[i + (|s| + k)] == (s + t)[|s| + k] == t[k];
    }
  }

  // ---------------------------------------------------------------------
  // Reading part after part
  // ---------------------------------------------------------------------

  lemma {:induction false} FlagsRead(fmt: seq<byte>, i: nat, flags: seq<byte>, f: Flags)
    requires i in Places(fmt, flags) && !IsFlag(At(fmt, i + |flags|)) && forall k | 0 <= k < |flags| :: IsFlag(flags[k])
    ensures FlagsEnd(fmt, i) == i + |flags| && FlagsFrom(fmt, i, f) == With(f, flags)
    decreases |flags|
  {
    if flags != [] {
      PlaceAt(fmt, i, flags);
      FlagsRead(fmt, i + 1, flags[1..], WithFlag(f, flags[0]));
      WithFirst(f, flags[0], flags[1..]);
      assert flags == [flags[0]] + flags[1..];
    }
  }

  lemma {:induction false} WithFirst(f: Flags, c: byte, s: seq<byte>)
    requires IsFlag(c)
    ensures With(WithFlag(f, c), s) == With(f, [c] + s)
  {
    assert forall x :: x in [c] + s <==> x == c || x in s;
  }

  /** Digits read one after the other, with `acc` read so far. */
  function Fold(ds: seq<byte>, acc: nat): nat
    requires forall k | 0 <= k < |ds| :: IsDigit(ds[k])
  {
    if ds == [] then acc else (assert IsDigit(ds[0]); Fold(ds[1..], acc * 10 + (ds[0] - ZERO)))
  }

  lemma {:induction false} FoldLast(ds: seq<byte>, c: byte, acc: nat)
    requires (forall k | 0 <= k < |ds| :: IsDigit(ds[k])) && IsDigit(c)
    ensures Fold(ds + [c], acc) == Fold(ds, acc) * 10 + (c - ZERO)
    decreases |ds|
  {
    if ds == [] {
      assert ([] + [c])[1..] == [];
    } else {
      assert (ds + [c])[1..] == ds[1..] + [c];
      FoldLast(ds[1..], c, acc * 10 + (ds[0] - ZERO));
    }
  }

  /** The digits written for a number: no zero in front, and they are the number. */
  lemma {:induction false} DecimalIs(n: nat)
    ensures var ds := DigitsOf(n, 10, false);
      && ds != [] && (forall k | 0 <= k < |ds| :: IsDigit(ds[k])) && (n > 0 ==> ds[0] != ZERO) && Fold(ds, 0) == n
  {
    if n > 0 {
      NonZeroIs(n);
    }
  }

  lemma {:induction false} NonZeroIs(n: nat)
    requires n > 0
    ensures var ds := Reverse(Reversed(n, 10, false));
      && ds != [] && (forall k | 0 <= k < |ds| :: IsDigit(ds[k])) && ds[0] != ZERO && Fold(ds, 0) == n
    decreases n
  {
    var q: nat, c := n / 10, Digit(n % 10, false);
    assert Reversed(n, 10, false)[1..] == Reversed(q, 10, false);
    var rest := Reverse(Reversed(q, 10, false));
    assert Reverse(Reversed(n, 10, false)) == rest + [c];
    if q > 0 {
      NonZeroIs(q);
    }
    FoldLast(rest, c, 0);
  }

  lemma {:induction false} DigitsRead(fmt: seq<byte>, i: nat, ds: seq<byte>, acc: nat)
    requires i in Places(fmt, ds) && !IsDigit(At(fmt, i + |ds|)) && forall k | 0 <= k < |ds| :: IsDigit(ds[k])
    ensures DigitsEnd(fmt, i) == i + |ds| && Atoi(fmt, i, acc) == Fold(ds, acc)
    decreases |ds|
  {
    if ds != [] {
      PlaceAt(fmt, i, ds);
      DigitsRead(fmt, i + 1, ds[1..], acc * 10 + (ds[0] - ZERO));
    }
  }

  /** What may follow a width or a precision. */
  predicate EndsAmount(c: byte) { !IsDigit(c) && c != STAR }

  lemma {:induction false} FieldRead(fmt: seq<byte>, i: nat, w: Amount, args: seq<Arg>, j: nat)
    requires i in Places(fmt, Text(w)) && EndsAmount(At(fmt, i + |Text(w)|))
    ensures ReadField(fmt, i, args, j) == Field(AmountOf(w, ArgAt(args, j)), i + |Text(w)|, j + Stars(w))
    ensures At(fmt, i) == STAR <==> w.FromArg?
  {
    if w.Digits? {
      DecimalIs(w.n);
      PlaceAt(fmt, i, Text(w));
      DigitsRead(fmt, i, Text(w), 0);
    } else if w.FromArg? {
      PlaceAt(fmt, i, Text(w));
    }
  }

  lemma {:induction false} PrecisionRead(fmt: seq<byte>, i: nat, p: Option<Amount>, args: seq<Arg>, j: nat)
    requires i in Places(fmt, PrecisionText(p)) && EndsAmount(At(fmt, i + |PrecisionText(p)|))
    requires p.None? ==> At(fmt, i) != DOT
    ensures ReadPrecision(fmt, i, args, j)
         == Field(PrecisionOf(p, ArgAt(args, j)), i + |PrecisionText(p)|, j + PrecisionStars(p))
  {
    if p.Some? {
      PlaceAt(fmt, i, PrecisionText(p));
      assert PrecisionText(p)[1..] == Text(p.value);
      FieldRead(fmt, i + 1, p.value, args, j);
    }
  }

  lemma {:induction false} SizeRead(fmt: seq<byte>, i: nat, size: seq<byte>)
    requires i in Places(fmt, size) && IsSize(size) && IsLetter(At(fmt, i + |size|))
    ensures Qualifier(fmt, i) == Size(SizeCode(size), i + |size|)
  {
    if |size| > 0 {
      PlaceAt(fmt, i, size);
    }
    if |size| > 1 {
      PlaceAt(fmt, i + 1, size[1..]);
    }
  }

  /** The parts of a directive stand one after the other. */
  ghost predicate Laid(fmt: seq<byte>, d: Conv, i1: nat, i2: nat, i3: nat, at: nat) {
    && i1 == 1 + |d.flags| && i2 == i1 + |Text(d.width)| && i3 == i2 + |PrecisionText(d.precision)|
    && at == i3 + |d.size| && |Spelled(d)| == at + 1
    && 0 in Places(fmt, [PERCENT]) && 1 in Places(fmt, d.flags) && i1 in Places(fmt, Text(d.width))
    && i2 in Places(fmt, PrecisionText(d.precision)) && i3 in Places(fmt, d.size) && at in Places(fmt, [d.letter])
  }

  lemma {:induction false} Lay(d: Conv, rest: seq<byte>) returns (i1: nat, i2: nat, i3: nat, at: nat)
    ensures Laid(Spelled(d) + rest, d, i1, i2, i3, at)
  {
    i1, i2 := 1 + |d.flags|, 1 + |d.flags| + |Text(d.width)|;
    i3 := i2 + |PrecisionText(d.precision)|;
    at := i3 + |d.size|;
    PlaceFirst(Spelled(d), rest);
    InARow(Spelled(d) + rest, d.flags, Text(d.width), PrecisionText(d.precision), d.size, [d.letter]);
  }

  lemma {:induction false} PlaceFirst(s: seq<byte>, t: seq<byte>)
    ensures 0 in Places(s + t, s)
  {
  }

  lemma {:induction false} InARow(fmt: seq<byte>, a: seq<byte>, b: seq<byte>, c: seq<byte>, d: seq<byte>, e: seq<byte>)
    requires 0 in Places(fmt, [PERCENT] + (a + (b + (c + (d + e)))))
    ensures 0 in Places(fmt, [PERCENT]) && 1 in Places(fmt, a) && 1 + |a| in Places(fmt, b)
    ensures 1 + |a| + |b| in Places(fmt, c) && 1 + |a| + |b| + |c| in Places(fmt, d)
    ensures 1 + |a| + |b| + |c| + |d| in Places(fmt, e)
  {
    var u3 := d + e;
    var u2 := c + u3;
    var u1 := b + u2;
    PlaceSplit(fmt, 0, [PERCENT], a + u1);
    PlaceSplit(fmt, 1, a, u1);
    PlaceSplit(fmt, 1 + |a|, b, u2);
    PlaceSplit(fmt, 1 + |a| + |b|, c, u3);
    PlaceSplit(fmt, 1 + |a| + |b| + |c|, d, e);
  }

  /** What each part starts with does not belong to the part before it. */
  lemma {:induction false} Starts(fmt: seq<byte>, d: Conv, i1: nat, i2: nat, i3: nat, at: nat)
    requires WellSpelled(d) && Laid(fmt, d, i1, i2, i3, at)
    ensures At(fmt, 0) == PERCENT && At(fmt, at) == d.letter
    ensures EndsAmount(At(fmt, i3)) && EndsAmount(At(fmt, i2)) && !IsFlag(At(fmt, i1))
    ensures d.precision.None? ==> At(fmt, i2) != DOT
  {
    PlaceAt(fmt, 0, [PERCENT]);
    PlaceAt(fmt, at, [d.letter]);
    SizeStarts(fmt, i3, d.size, at);
    PrecisionStarts(fmt, i2, d.precision, i3);
    WidthStarts(fmt, i1, d.width, i2);
  }

  predicate Starter(c: byte) { EndsAmount(c) && !IsFlag(c) }

  lemma {:induction false} SizeStarts(fmt: seq<byte>, i: nat, size: seq<byte>, next: nat)
    requires IsSize(size) && i in Places(fmt, size) && next == i + |size| && IsLetter(At(fmt, next))
    ensures Starter(At(fmt, i)) && At(fmt, i) != DOT
  {
    if size != [] {
      PlaceAt(fmt, i, size);
    }
  }

  lemma {:induction false} PrecisionStarts(fmt: seq<byte>, i: nat, p: Option<Amount>, next: nat)
    requires i in Places(fmt, PrecisionText(p)) && next == i + |PrecisionText(p)|
    requires Starter(At(fmt, next)) && At(fmt, next) != DOT
    ensures Starter(At(fmt, i)) && (p.None? ==> At(fmt, i) != DOT)
  {
    if p.Some? {
      PlaceAt(fmt, i, PrecisionText(p));
    }
  }

  lemma {:induction false} WidthStarts(fmt: seq<byte>, i: nat, w: Amount, next: nat)
    requires i in Places(fmt, Text(w)) && next == i + |Text(w)| && Starter(At(fmt, next)) && (w.Digits? ==> w.n > 0)
    ensures !IsFlag(At(fmt, i))
  {
    if w.Digits? {
      DecimalIs(w.n);
      PlaceAt(fmt, i, Text(w));
    } else if w.FromArg? {
      PlaceAt(fmt, i, Text(w));
    }
  }

  /** Reading a directive gives what it was spelled for. */
  lemma {:induction false} DirectiveRead(d: Conv, rest: seq<byte>, args: seq<Arg>)
    requires WellSpelled(d)
    ensures Directive(Spelled(d) + rest, 1, args, 0) == Meant(d, args)
    ensures At(Spelled(d) + rest, Meant(d, args).at) == d.letter && At(Spelled(d) + rest, 0) == PERCENT
  {
    var i1, i2, i3, at := Lay(d, rest);
    Starts(Spelled(d) + rest, d, i1, i2, i3, at);
    PartsRead(Spelled(d) + rest, d, i1, i2, i3, at, args);
  }

  lemma {:induction false} PartsRead(fmt: seq<byte>, d: Conv, i1: nat, i2: nat, i3: nat, at: nat, args: seq<Arg>)
    requires WellSpelled(d) && Laid(fmt, d, i1, i2, i3, at)
    ensures Directive(fmt, 1, args, 0) == Meant(d, args)
  {
    Starts(fmt, d, i1, i2, i3, at);
    var n := Stars(d.width);
    FlagsRead(fmt, 1, d.flags, NO_FLAGS);
    FieldRead(fmt, i1, d.width, args, 0);
    PrecisionRead(fmt, i2, d.precision, args, n);
    SizeRead(fmt, i3, d.size);
  }

  // ---------------------------------------------------------------------
  // Piece by piece
  // ---------------------------------------------------------------------

  function Drop(args: seq<Arg>, k: nat): seq<Arg> { if k <= |args| then args[k..] else [] }

  /** Where in `all` the format `fmt` starts, if it is the last part. */
  ghost function Ends(all: seq<byte>, fmt: seq<byte>): iset<nat> {
    iset n: nat | |all| == n + |fmt| && Has(all, n, fmt)
  }

  /** Which arguments `rest` are, as counted in `args`. */
  ghost function Follows(args: seq<Arg>, rest: seq<Arg>): iset<nat> { iset k: nat | AreLeft(args, k, rest) }

  ghost predicate AreLeft(args: seq<Arg>, k: nat, rest: seq<Arg>) {
    forall j: nat :: ArgAt(args, k + j) == ArgAt(rest, j)
  }

  lemma {:induction false} AtShift(all: seq<byte>, fmt: seq<byte>, n: nat, i: nat)
    requires n in Ends(all, fmt)
    ensures At(all, n + i) == At(fmt, i)
  {
  }

  lemma {:induction false} FlagsShift(all: seq<byte>, fmt: seq<byte>, n: nat, i: nat, f: Flags)
    requires n in Ends(all, fmt)
    ensures FlagsEnd(all, n + i) == n + FlagsEnd(fmt, i) && FlagsFrom(all, n + i, f) == FlagsFrom(fmt, i, f)
    decreases |fmt| - i
  {
    AtShift(all, fmt, n, i);
    if IsFlag(At(fmt, i)) {
      FlagsShift(all, fmt, n, i + 1, WithFlag(f, At(fmt, i)));
    }
  }

  lemma {:induction false} DigitsShift(all: seq<byte>, fmt: seq<byte>, n: nat, i: nat, acc: nat)
    requires n in Ends(all, fmt)
    ensures DigitsEnd(all, n + i) == n + DigitsEnd(fmt, i) && Atoi(all, n + i, acc) == Atoi(fmt, i, acc)
    decreases |fmt| - i
  {
    AtShift(all, fmt, n, i);
    if IsDigit(At(fmt, i)) {
      DigitsShift(all, fmt, n, i + 1, acc * 10 + (At(fmt, i) - ZERO));
    }
  }

  lemma {:induction false} FieldShift(all: seq<byte>, fmt: seq<byte>, n: nat, i: nat, args: seq<Arg>,
    rest: seq<Arg>, k: nat, j: nat)
    requires n in Ends(all, fmt) && k in Follows(args, rest)
    ensures var r := ReadField(fmt, i, rest, j);
      ReadField(all, n + i, args, k + j) == Field(r.value, n + r.at, k + r.arg)
  {
    AtShift(all, fmt, n, i);
    DigitsShift(all, fmt, n, i, 0);
  }

  lemma {:induction false} PrecisionShift(all: seq<byte>, fmt: seq<byte>, n: nat, i: nat, args: seq<Arg>,
    rest: seq<Arg>, k: nat, j: nat)
    requires n in Ends(all, fmt) && k in Follows(args, rest)
    ensures var r := ReadPrecision(fmt, i, rest, j);
      ReadPrecision(all, n + i, args, k + j) == Field(r.value, n + r.at, k + r.arg)
  {
    AtShift(all, fmt, n, i);
    FieldShift(all, fmt, n, i + 1, args, rest, k, j);
  }

  lemma {:induction false} SizeShift(all: seq<byte>, fmt: seq<byte>, n: nat, i: nat)
    requires n in Ends(all, fmt)
    ensures Qualifier(all, n + i) == Size(Qualifier(fmt, i).code, n + Qualifier(fmt, i).at)
  {
    AtShift(all, fmt, n, i);
    AtShift(all, fmt, n, i + 1);
    AtShift(all, fmt, n, i + 2);
  }

  function Moved(sp: Spec, n: nat, k: nat): Spec { sp.(at := n + sp.at, arg := k + sp.arg) }

  lemma {:induction false} DirectiveShift(all: seq<byte>, fmt: seq<byte>, n: nat, i: nat, args: seq<Arg>,
    rest: seq<Arg>, k: nat, j: nat)
    requires n in Ends(all, fmt) && k in Follows(args, rest)
    ensures Directive(all, n + i, args, k + j) == Moved(Directive(fmt, i, rest, j), n, k)
  {
    var i1 := FlagsEnd(fmt, i);
    FlagsShift(all, fmt, n, i, NO_FLAGS);
    AtShift(all, fmt, n, i1);
    FieldShift(all, fmt, n, i1, args, rest, k, j);
    SizedShift(all, fmt, n, args, rest, k, FlagsFrom(fmt, i, NO_FLAGS), At(fmt, i1) == STAR,
      ReadField(fmt, i1, rest, j));
  }

  lemma {:induction false} SizedShift(all: seq<byte>, fmt: seq<byte>, n: nat, args: seq<Arg>, rest: seq<Arg>, k: nat,
    f: Flags, star: bool, w: Field)
    requires n in Ends(all, fmt) && k in Follows(args, rest)
    ensures Sized(all, f, star, Field(w.value, n + w.at, k + w.arg), args) == Moved(Sized(fmt, f, star, w, rest), n, k)
  {
    PrecisionShift(all, fmt, n, w.at, args, rest, k, w.arg);
    SizeShift(all, fmt, n, ReadPrecision(fmt, w.at, rest, w.arg).at);
  }

  /** What a format says to output: characters as they are, and directives with their arguments. */
  datatype Script = End | Char(c: byte, next: Script) | Piece(sp: Spec, c: byte, a: Arg, next: Script)

  ghost predicate Forward(parse: (nat, nat) -> Spec) {
    forall i: nat, j: nat :: parse(i, j).at >= i
  }

  /** The script of a format, given what reads its directives and its arguments. */
  ghost function Walk(fmt: seq<byte>, parse: (nat, nat) -> Spec, arg: nat -> Arg, i: nat, j: nat): Script
    requires Forward(parse)
    decreases |fmt| - i
  {
    var c := At(fmt, i);
    if c == 0 then End
    else if c != PERCENT then Char(c, Walk(fmt, parse, arg, i + 1, j))
    else
      var sp := parse(i + 1, j);
      var letter := At(fmt, sp.at);
      Piece(sp.(at := 0, arg := 0), letter, arg(sp.arg), Walk(fmt, parse, arg, After(fmt, sp), NextArg(sp, letter)))
  }

  ghost function Said(s: Script): seq<byte> {
    match s
    case End => []
    case Char(c, next) => [c] + Said(next)
    case Piece(sp, c, a, next) => Render(sp, c, a) + Said(next)
  }

  ghost function Parser(fmt: seq<byte>, args: seq<Arg>): (parse: (nat, nat) -> Spec)
    ensures Forward(parse)
  {
    (i: nat, j: nat) => Directive(fmt, i, args, j)
  }

  ghost function Getter(args: seq<Arg>): nat -> Arg { (j: nat) => ArgAt(args, j) }

  lemma {:induction false} OutputIsSaid(fmt: seq<byte>, i: nat, args: seq<Arg>, j: nat)
    ensures OutputFrom(fmt, i, args, j) == Said(Walk(fmt, Parser(fmt, args), Getter(args), i, j))
    decreases |fmt| - i
  {
    var c := At(fmt, i);
    if c == 0 {
    } else if c != PERCENT {
      OutputIsSaid(fmt, i + 1, args, j);
    } else {
      var sp := Directive(fmt, i + 1, args, j);
      OutputIsSaid(fmt, After(fmt, sp), args, NextArg(sp, At(fmt, sp.at)));
    }
  }

  ghost predicate SameParse(parse: (nat, nat) -> Spec, parse': (nat, nat) -> Spec, n: nat, k: nat) {
    forall i: nat, j: nat :: MovesAt(parse, parse', n, k, i, j)
  }

  ghost predicate MovesAt(parse: (nat, nat) -> Spec, parse': (nat, nat) -> Spec, n: nat, k: nat, i: nat, j: nat) {
    parse'(n + i, k + j) == Moved(parse(i, j), n, k)
  }

  ghost predicate SameArgs(arg: nat -> Arg, arg': nat -> Arg, k: nat) {
    forall j: nat :: arg'(k + j) == arg(j)
  }

  /** What comes before in the format and among the arguments makes no difference to what comes after. */
  lemma {:induction false} WalkShift(all: seq<byte>, fmt: seq<byte>, n: nat, parse': (nat, nat) -> Spec,
    parse: (nat, nat) -> Spec, arg': nat -> Arg, arg: nat -> Arg, k: nat, i: nat, j: nat)
    requires n in Ends(all, fmt) && Forward(parse) && Forward(parse')
    requires SameParse(parse, parse', n, k) && SameArgs(arg, arg', k)
    ensures Walk(all, parse', arg', n + i, k + j) == Walk(fmt, parse, arg, i, j)
    decreases |fmt| - i
  {
    AtShift(all, fmt, n, i);
    var c := At(fmt, i);
    if c == 0 {
    } else if c != PERCENT {
      WalkShift(all, fmt, n, parse', parse, arg', arg, k, i + 1, j);
    } else {
      var sp := parse(i + 1, j);
      assert MovesAt(parse, parse', n, k, i + 1, j);
      AtShift(all, fmt, n, sp.at);
      WalkShift(all, fmt, n, parse', parse, arg', arg, k, After(fmt, sp), NextArg(sp, At(fmt, sp.at)));
    }
  }

  lemma {:induction false} ParserShift(all: seq<byte>, fmt: seq<byte>, n: nat, args: seq<Arg>, rest: seq<Arg>, k: nat)
    requires n in Ends(all, fmt) && k in Follows(args, rest)
    ensures SameParse(Parser(fmt, rest), Parser(all, args), n, k)
  {
    forall i: nat, j: nat
      ensures MovesAt(Parser(fmt, rest), Parser(all, args), n, k, i, j)
    {
      OneParse(all, fmt, n, args, rest, k, i, j);
    }
  }

  lemma {:induction false} GetterShift(args: seq<Arg>, rest: seq<Arg>, k: nat)
    requires k in Follows(args, rest)
    ensures SameArgs(Getter(rest), Getter(args), k)
  {
  }

  lemma {:induction false} OneParse(all: seq<byte>, fmt: seq<byte>, n: nat, args: seq<Arg>, rest: seq<Arg>, k: nat,
    i: nat, j: nat)
    requires n in Ends(all, fmt) && k in Follows(args, rest)
    ensures MovesAt(Parser(fmt, rest), Parser(all, args), n, k, i, j)
  {
    DirectiveShift(all, fmt, n, i, args, rest, k, j);
    ParserIs(all, args, n + i, k + j);
    ParserIs(fmt, rest, i, j);
    var sp, sp' := Parser(fmt, rest)(i, j), Parser(all, args)(n + i, k + j);
    assert sp' == Moved(sp, n, k);
  }

  lemma {:induction false} ParserIs(fmt: seq<byte>, args: seq<Arg>, i: nat, j: nat)
    ensures Parser(fmt, args)(i, j) == Directive(fmt, i, args, j)
  {
  }

  /** The rest of a format with the arguments that are left. */
  lemma {:induction false} RestOf(pre: seq<byte>, fmt: seq<byte>, args: seq<Arg>, k: nat)
    ensures OutputFrom(pre + fmt, |pre|, args, k) == Output(fmt, Drop(args, k))
  {
    EndsRest(pre, fmt);
    FollowsRest(args, k);
    SaidShift(pre + fmt, fmt, |pre|, args, Drop(args, k), k);
    OutputIsSaid(pre + fmt, |pre|, args, k);
    OutputIsSaid(fmt, 0, Drop(args, k), 0);
  }

  lemma {:induction false} EndsRest(pre: seq<byte>, fmt: seq<byte>)
    ensures |pre| in Ends(pre + fmt, fmt)
  {
  }

  lemma {:induction false} FollowsRest(args: seq<Arg>, k: nat)
    ensures k in Follows(args, Drop(args, k))
  {
  }

  lemma {:induction false} SaidShift(all: seq<byte>, fmt: seq<byte>, n: nat, args: seq<Arg>, rest: seq<Arg>, k: nat)
    requires n in Ends(all, fmt) && k in Follows(args, rest)
    ensures Walk(all, Parser(all, args), Getter(args), n, k) == Walk(fmt, Parser(fmt, rest), Getter(rest), 0, 0)
  {
    ParserShift(all, fmt, n, args, rest, k);
    GetterShift(args, rest, k);
    WalkShift(all, fmt, n, Parser(all, args), Parser(fmt, rest), Getter(args), Getter(rest), k, 0, 0);
  }

  /** Text without percent signs stands as it is in front of what comes next. */
  lemma {:induction false} TextFirst(text: seq<byte>, rest: seq<byte>, args: seq<Arg>)
    requires 0 !in text && PERCENT !in text
    ensures Output(text + rest, args) == text + Output(rest, args)
  {
    if text == [] {
      assert text + rest == rest;
    } else {
      var c, t := text[0], text[1..];
      assert c in text && text + rest == [c] + (t + rest);
      RestOf([c], t + rest, args, 0);
      assert Drop(args, 0) == args;
      TextFirst(t, rest, args);
      assert text + Output(rest, args) == [c] + (t + Output(rest, args));
    }
  }

  /** A directive's output, then that of the rest with the arguments that are left. */
  lemma {:induction false} DirectiveFirst(d: Conv, rest: seq<byte>, args: seq<Arg>)
    requires WellSpelled(d)
    ensures var sp := Meant(d, args);
      Output(Spelled(d) + rest, args)
      == Render(sp, d.letter, ArgAt(args, sp.arg)) + Output(rest, Drop(args, NextArg(sp, d.letter)))
  {
    DirectiveRead(d, rest, args);
    RestOf(Spelled(d), rest, args, NextArg(Meant(d, args), d.letter));
  }

  /** A directive alone. */
  lemma {:induction false} DirectiveAlone(d: Conv, args: seq<Arg>)
    requires WellSpelled(d)
    ensures var sp := Meant(d, args); Output(Spelled(d), args) == Render(sp, d.letter, ArgAt(args, sp.arg))
  {
    DirectiveFirst(d, [], args);
    assert Spelled(d) + [] == Spelled(d);
    var r := Render(Meant(d, args), d.letter, ArgAt(args, Meant(d, args).arg));
    assert r + [] == r;
  }
}
