/** How patterns are spelled, and the items that a spelling stands for. */
module EdSyntax {
  import opened Common
  import opened EdPattern
  import opened EdCode

  const BACKSLASH: byte := 92
  const LPAREN: byte := 40
  const RPAREN: byte := 41
  const PERIOD: byte := 46
  const NEWLINE: byte := 10
  const ASTERISK: byte := 42
  const DOLLAR: byte := 36
  const LBRACKET: byte := 91
  const RBRACKET: byte := 93
  const CARET: byte := 94

  /** What one turn of the compiler reads. */
  datatype Sym = Lit(c: byte) | Esc(c: byte) | Any | Set(neg: bool, cs: seq<byte>) | StarSym | Open | Close | End

  function Spell(s: Sym): (r: seq<byte>)
    ensures |r| > 0
  {
    match s
    case Lit(c) => [c]
    case Esc(c) => [BACKSLASH, c]
    case Any => [PERIOD]
    case Set(neg, cs) => (if neg then [LBRACKET, CARET] else [LBRACKET]) + cs + [RBRACKET]
    case StarSym => [ASTERISK]
    case Open => [BACKSLASH, LPAREN]
    case Close => [BACKSLASH, RPAREN]
    case End => [DOLLAR]
  }

  /** The length of the spelling. */
  function Width(s: Sym): (n: nat)
    ensures n > 0
  {
    match s
    case Esc(_) | Open | Close => 2
    case Set(neg, cs) => |cs| + if neg then 3 else 2
    case _ => 1
  }

  lemma SpellWidth(s: Sym)
    ensures |Spell(s)| == Width(s)
  {
  }

  /** Characters that a symbol may be written with. */
  ghost predicate ValidSym(s: Sym, eof: byte) {
    && Spell(s)[0] != eof
    && match s
       case Lit(c) => c != 0 && c !in {BACKSLASH, PERIOD, NEWLINE, ASTERISK, LBRACKET}
       case Esc(c) => c != 0 && c !in {LPAREN, RPAREN, NEWLINE}
       case Set(neg, cs) => ValidSet(neg, cs)
       case _ => true
  }

  /** The first member of a set may be `]`, but not `^` unless the set is negated. */
  ghost predicate ValidSet(neg: bool, cs: seq<byte>) {
    Members(cs) && (!neg ==> cs[0] != CARET)
  }

  ghost predicate Members(cs: seq<byte>) {
    && cs != []
    && (forall i :: 0 <= i < |cs| ==> cs[i] != NEWLINE)
    && (forall i :: 1 <= i < |cs| ==> cs[i] != RBRACKET)
  }

  /** A symbol at a position of the input; a `$` is an anchor just when the delimiter follows it. */
  ghost predicate SymAt(inp: seq<byte>, pos: nat, s: Sym, eof: byte) {
    && ValidSym(s, eof) && At(inp, pos, Spell(s))
    && (s == End ==> pos + 1 < |inp| && inp[pos + 1] == eof)
    && (s == Lit(DOLLAR) ==> pos + 1 < |inp| && inp[pos + 1] != eof)
  }

  /** The symbols that can be read at a position: at most one, as shown below. */
  ghost function SymsAt(inp: seq<byte>, pos: nat, eof: byte): iset<Sym> { iset s | SymAt(inp, pos, s, eof) }

  // ---------------------------------------------------------------------
  // From symbols to items
  // ---------------------------------------------------------------------

  /** Items so far, brackets opened so far, and the ones still open. */
  datatype Parsed = Parsed(items: seq<Item>, nbra: nat, stack: seq<nat>)

  ghost predicate CanApply(st: Parsed, s: Sym) {
    match s
    case Open => st.nbra < NBRA
    case Close => st.stack != []
    case StarSym => st.items != [] && (var it := st.items[|st.items| - 1]; it.One? || it.Star?)
    case _ => true
  }

  ghost function ItemOf(s: Sym): Item
    requires !s.StarSym? && !s.Open? && !s.Close?
  {
    match s
    case Lit(c) => One(Chr(c))
    case Esc(c) => One(Chr(c))
    case Any => One(Dot)
    case Set(neg, cs) => One(Class(neg, cs))
    case End => Dol
  }

  ghost function Apply(st: Parsed, s: Sym): Parsed
    requires CanApply(st, s)
  {
    match s
    case Open => Parsed(st.items + [Bra(st.nbra)], st.nbra + 1, st.stack + [st.nbra])
    case Close => Parsed(st.items + [Ket(st.stack[|st.stack| - 1])], st.nbra, st.stack[..|st.stack| - 1])
    case StarSym => Parsed(st.items[|st.items| - 1 := Star(st.items[|st.items| - 1].a)], st.nbra, st.stack)
    case _ => Parsed(st.items + [ItemOf(s)], st.nbra, st.stack)
  }

  /** What can be read where: a set of symbols for every position. */
  type Reader = nat -> iset<Sym>

  /** The symbols stand one after the other, from one position to another. */
  ghost predicate Spelled(g: Reader, from: nat, syms: seq<Sym>, to: nat)
    decreases |syms|
  {
    if syms == [] then from == to else syms[0] in g(from) && Spelled(g, from + Width(syms[0]), syms[1..], to)
  }

  lemma {:induction false} SpelledMore(g: Reader, from: nat, syms: seq<Sym>, to: nat, s: Sym)
    requires Spelled(g, from, syms, to) && s in g(to)
    ensures Spelled(g, from, syms + [s], to + Width(s))
    decreases |syms|
  {
    var more := syms + [s];
    if syms == [] {
      assert more[0] == s && more[1..] == [];
    } else {
      SpelledMore(g, from + Width(syms[0]), syms[1..], to, s);
      assert more[0] == syms[0] && more[1..] == syms[1..] + [s];
    }
  }

  ghost predicate CanApplyAll(st: Parsed, syms: seq<Sym>)
    decreases |syms|
  {
    syms == [] || (CanApply(st, syms[0]) && CanApplyAll(Apply(st, syms[0]), syms[1..]))
  }

  ghost function ApplyAll(st: Parsed, syms: seq<Sym>): Parsed
    requires CanApplyAll(st, syms)
    decreases |syms|
  {
    if syms == [] then st else ApplyAll(Apply(st, syms[0]), syms[1..])
  }

  const START := Parsed([], 0, [])

  ghost function ReaderOf(inp: seq<byte>, eof: byte): Reader { (p: nat) => SymsAt(inp, p, eof) }

  /** A whole pattern as typed: an optional `^`, symbols, and the delimiter at position `end`. */
  ghost predicate IsPattern(inp: seq<byte>, pos: nat, caret: bool, syms: seq<Sym>, end: nat, eof: byte) {
    && pos < |inp| && inp[pos] != eof
    && (caret <==> inp[pos] == CARET)
    && end < |inp| && inp[end] == eof
    && var first := if caret then pos + 1 else pos;
       first < |inp| && inp[first] != ASTERISK && Spelled(ReaderOf(inp, eof), first, syms, end)
         && CanApplyAll(START, syms)
  }

  ghost function ItemsOf(syms: seq<Sym>): seq<Item>
    requires CanApplyAll(START, syms)
  {
    ApplyAll(START, syms).items
  }

  lemma {:induction false} ApplyMore(st: Parsed, syms: seq<Sym>, s: Sym)
    requires CanApplyAll(st, syms) && CanApply(ApplyAll(st, syms), s)
    ensures CanApplyAll(st, syms + [s]) && ApplyAll(st, syms + [s]) == Apply(ApplyAll(st, syms), s)
    decreases |syms|
  {
    if syms == [] {
      assert (syms + [s])[1..] == [];
    } else {
      ApplyMore(Apply(st, syms[0]), syms[1..], s);
      assert (syms + [s])[1..] == syms[1..] + [s];
    }
  }

  // ---------------------------------------------------------------------
  // Sizes
  // ---------------------------------------------------------------------

  ghost function ItemLength(it: Item): nat {
    match it
    case One(a) => AtomLength(a)
    case Star(a) => AtomLength(a)
    case Bra(_) => 2
    case Ket(_) => 2
    case Dol => 1
  }

  ghost function AtomLength(a: Atom): nat {
    match a
    case Chr(_) => 2
    case Dot => 1
    case Class(_, cs) => 2 + |cs|
  }

  ghost function Length(p: seq<Item>): nat { if p == [] then 0 else Length(p[..|p| - 1]) + ItemLength(p[|p| - 1]) }

  lemma LengthSnoc(p: seq<Item>, it: Item)
    ensures Length(p + [it]) == Length(p) + ItemLength(it)
  {
    assert (p + [it])[..|p|] == p;
  }

  lemma {:induction false} EncodeSnoc(p: seq<Item>, it: Item)
    requires ValidItems(p) && ValidItem(it)
    ensures ValidItems(p + [it]) && Encode(p + [it]) == Encode(p) + EncodeItem(it)
  {
    var r := p + [it];
    if p == [] {
      assert r[0] == it && r[1..] == [];
    } else {
      EncodeSnoc(p[1..], it);
      assert r[0] == p[0] && r[1..] == p[1..] + [it];
      assert EncodeItem(p[0]) + (Encode(p[1..]) + EncodeItem(it)) == Encode(p) + EncodeItem(it);
    }
  }

  lemma {:induction false} EncodeLength(p: seq<Item>)
    requires ValidItems(p)
    ensures |Encode(p)| == Length(p)
  {
    if p != [] {
      var n := |p| - 1;
      assert p == p[..n] + [p[n]];
      EncodeSnoc(p[..n], p[n]);
      EncodeLength(p[..n]);
    }
  }

  /** Reading on never makes the code shorter. */
  lemma ApplyGrows(st: Parsed, s: Sym)
    requires CanApply(st, s)
    ensures Length(Apply(st, s).items) >= Length(st.items)
  {
    if s.StarSym? {
      var n := |st.items| - 1;
      var now := Apply(st, s).items;
      assert st.items[..n] == now[..n];
    } else {
      var it := Apply(st, s).items[|st.items|];
      LengthSnoc(st.items, it);
    }
  }

  lemma {:induction false} ApplyAllGrows(st: Parsed, syms: seq<Sym>)
    requires CanApplyAll(st, syms)
    ensures Length(ApplyAll(st, syms).items) >= Length(st.items)
    decreases |syms|
  {
    if syms != [] {
      ApplyGrows(st, syms[0]);
      ApplyAllGrows(Apply(st, syms[0]), syms[1..]);
    }
  }

  // ---------------------------------------------------------------------
  // Spelling is unambiguous
  // ---------------------------------------------------------------------

  lemma SetAt(inp: seq<byte>, pos: nat, neg: bool, cs: seq<byte>)
    requires At(inp, pos, Spell(Set(neg, cs)))
    ensures var first := pos + (if neg then 2 else 1);
      && inp[pos] == LBRACKET && (neg ==> inp[pos + 1] == CARET)
      && first + |cs| < |inp| && inp[first..first + |cs|] == cs && inp[first + |cs|] == RBRACKET
  {
    var s := Spell(Set(neg, cs));
    var first := pos + (if neg then 2 else 1);
    AtIndex(inp, pos, s, 0);
    if neg {
      AtIndex(inp, pos, s, 1);
    }
    AtIndex(inp, pos, s, |s| - 1);
    forall i | first <= i < first + |cs|
      ensures inp[i] == cs[i - first]
    {
      AtIndex(inp, pos, s, i - pos);
    }
  }

  lemma SetUnique(inp: seq<byte>, pos: nat, neg: bool, cs: seq<byte>, neg': bool, cs': seq<byte>)
    requires ValidSet(neg, cs) && ValidSet(neg', cs')
    requires At(inp, pos, Spell(Set(neg, cs))) && At(inp, pos, Spell(Set(neg', cs')))
    ensures neg == neg' && cs == cs'
  {
    SetAt(inp, pos, neg, cs);
    SetAt(inp, pos, neg', cs');
    var first := pos + (if neg then 2 else 1);
    var first' := pos + (if neg' then 2 else 1);
    assert inp[first] == inp[first..first + |cs|][0] && inp[first'] == inp[first'..first' + |cs'|][0];
    assert neg == neg';
    SetNotLonger(inp, first, cs, cs');
    SetNotLonger(inp, first, cs', cs);
    assert cs == inp[first..first + |cs|] == cs';
  }

  lemma SetNotLonger(inp: seq<byte>, first: nat, cs: seq<byte>, cs': seq<byte>)
    requires cs != [] && first + |cs| < |inp| && inp[first + |cs|] == RBRACKET
    requires first + |cs'| < |inp| && inp[first..first + |cs'|] == cs' && Members(cs')
    ensures |cs'| <= |cs|
  {
    assert forall i :: first <= i < first + |cs'| ==> inp[i] == inp[first..first + |cs'|][i - first];
  }

  /** At most one symbol can be read at any position. */
  lemma Unambiguous(inp: seq<byte>, pos: nat, s: Sym, t: Sym, eof: byte)
    requires SymAt(inp, pos, s, eof) && SymAt(inp, pos, t, eof)
    ensures s == t
  {
    AtIndex(inp, pos, Spell(s), 0);
    AtIndex(inp, pos, Spell(t), 0);
    if s.Set? && t.Set? {
      SetUnique(inp, pos, s.neg, s.cs, t.neg, t.cs);
    } else if |Spell(s)| >= 2 && |Spell(t)| >= 2 {
      AtIndex(inp, pos, Spell(s), 1);
      AtIndex(inp, pos, Spell(t), 1);
    }
  }
}
