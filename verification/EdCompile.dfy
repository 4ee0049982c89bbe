/** `compile`: from the pattern as typed to its byte code. */
module EdCompile {
  import opened Common
  import opened EdPattern
  import opened EdCode
  import opened EdSyntax

  /** The compiler's variables: write position, start of the last operation, and brackets. */
  datatype Pos = Pos(ep: nat, lastep: nat, nbra: nat, stack: seq<nat>)

  /** Every open bracket has a number below `NBRA`. */
  ghost predicate Small(stack: seq<nat>) { forall i :: 0 <= i < |stack| ==> stack[i] < NBRA }

  /** The code written so far is that of the items read so far. */
  ghost predicate Written(buf: seq<byte>, at: Pos, st: Parsed) {
    at.nbra == st.nbra <= NBRA && at.stack == st.stack && Small(at.stack) && Coded(buf, at.ep, at.lastep, st.items)
  }

  ghost predicate Coded(buf: seq<byte>, ep: nat, lastep: nat, items: seq<Item>) {
    && ValidItems(items) && ep == Length(items) <= |buf| && buf[..ep] == Encode(items)
    && (items != [] ==> var last := items[|items| - 1];
         lastep + ItemLength(last) == ep && lastep < ep && buf[lastep] == EncodeItem(last)[0])
  }

  /** What the caller of one turn may hope to read; `None` stands for no hope. */
  ghost predicate Hope(want: Option<Sym>, inp: seq<byte>, pos: nat, eof: byte, st: Parsed) {
    want.Some? ==> SymAt(inp, pos, want.value, eof) && CanApply(st, want.value)
  }

  /** The outcome of one turn: a symbol read and its code written, or failure with reason. */
  ghost predicate Turned(ok: bool, sym: Sym, pos': nat, at': Pos, buf': seq<byte>,
                         want: Option<Sym>, inp: seq<byte>, pos: nat, eof: byte, st: Parsed) {
    if ok then
      && sym in SymsAt(inp, pos, eof) && CanApply(st, sym) && pos' == pos + Width(sym)
      && Written(buf', at', Apply(st, sym))
    else
      want.Some? && CanApply(st, want.value) ==> Length(Apply(st, want.value).items) >= ESIZE
  }

  /** A new operation goes behind the code written so far. */
  lemma WriteItem(buf: seq<byte>, buf': seq<byte>, at: Pos, at': Pos, st: Parsed, st': Parsed, it: Item,
    code: seq<byte>)
    requires Written(buf, at, st) && ValidItem(it) && code == EncodeItem(it) && st'.items == st.items + [it]
    requires |buf'| == |buf| && at'.ep == at.ep + |code| <= |buf| && at'.lastep == at.ep
    requires at'.nbra == st'.nbra <= NBRA && at'.stack == st'.stack && Small(at'.stack)
    requires buf'[..at.ep] == buf[..at.ep] && buf'[at.ep..at'.ep] == code
    ensures Written(buf', at', st')
  {
    Appended(buf, buf', at.ep, code);
    EncodeSnoc(st.items, it);
    LengthSnoc(st.items, it);
    EncodeItemLength(it);
    assert st'.items[|st'.items| - 1] == it;
  }

  lemma Appended(buf: seq<byte>, buf': seq<byte>, ep: nat, code: seq<byte>)
    requires |buf'| == |buf| && ep + |code| <= |buf| && code != []
    requires buf'[..ep] == buf[..ep] && buf'[ep..ep + |code|] == code
    ensures buf'[..ep + |code|] == buf[..ep] + code && buf'[ep] == code[0]
  {
    assert buf'[..ep + |code|] == buf'[..ep] + buf'[ep..ep + |code|];
    assert buf'[ep..ep + |code|][0] == buf'[ep];
  }

  lemma EncodeItemLength(it: Item)
    requires ValidItem(it)
    ensures |EncodeItem(it)| == ItemLength(it)
  {
  }

  function SetStar(op: byte): byte { if op % 2 == 0 then op + STAR else op }

  /** Setting the star bit of an operation stars its item. */
  lemma StarItem(it: Item)
    requires ValidItem(it) && (it.One? || it.Star?)
    ensures EncodeItem(Star(it.a)) == EncodeItem(it)[0 := SetStar(EncodeItem(it)[0])]
  {
  }

  /** Setting the star bit of the last operation stars the last item. */
  lemma StarCode(init: seq<Item>, last: Item)
    requires ValidItems(init) && ValidItem(last) && (last.One? || last.Star?)
    ensures ValidItems(init + [last]) && ValidItems(init + [Star(last.a)])
    ensures Length(init + [last]) == Length(init + [Star(last.a)]) == |Encode(init)| + ItemLength(last)
    ensures |Encode(init)| < |Encode(init + [last])|
    ensures var c, k := Encode(init + [last]), |Encode(init)|; Encode(init + [Star(last.a)]) == c[k := SetStar(c[k])]
  {
    EncodeSnoc(init, last);
    EncodeSnoc(init, Star(last.a));
    StarItem(last);
    EncodeLength(init);
    LengthSnoc(init, last);
    LengthSnoc(init, Star(last.a));
  }

  lemma WriteStar(buf: seq<byte>, buf': seq<byte>, at: Pos, st: Parsed)
    requires Written(buf, at, st) && CanApply(st, StarSym) && at.lastep < |buf|
    requires buf' == buf[at.lastep := SetStar(buf[at.lastep])]
    ensures Written(buf', at, Apply(st, StarSym))
  {
    var n := |st.items| - 1;
    var last, init := st.items[n], st.items[..n];
    var st' := Apply(st, StarSym);
    assert st.items == init + [last] && st'.items == init + [Star(last.a)];
    StarCode(init, last);
    StarItem(last);
    UpdatePrefix(buf, at.ep, at.lastep, SetStar(buf[at.lastep]));
    assert st'.items[|st'.items| - 1] == Star(last.a);
  }

  lemma UpdatePrefix(buf: seq<byte>, n: nat, k: nat, b: byte)
    requires k < n <= |buf|
    ensures buf[k := b][..n] == buf[..n][k := b] && buf[..n][k] == buf[k]
  {
  }

  /** The item that a symbol appends. */
  ghost function Added(st: Parsed, sym: Sym): Item
    requires CanApply(st, sym) && !sym.StarSym?
  {
    if sym.Open? then Bra(st.nbra) else if sym.Close? then Ket(st.stack[|st.stack| - 1]) else ItemOf(sym)
  }

  /** Write the one or two bytes of an operation for the symbol at hand. */
  method Emit(expbuf: array<byte>, at: Pos, code: seq<byte>, nbra: nat, stack: seq<nat>, ghost sym: Sym,
    ghost st: Parsed)
    returns (at': Pos)
    requires expbuf.Length == ESIZE + 4 && at.ep < ESIZE && Written(expbuf[..], at, st)
    requires CanApply(st, sym) && !sym.StarSym? && ValidItem(Added(st, sym)) && code == EncodeItem(Added(st, sym))
      && |code| <= 2
    requires nbra == Apply(st, sym).nbra <= NBRA && stack == Apply(st, sym).stack
    requires Small(stack)
    modifies expbuf
    ensures Written(expbuf[..], at', Apply(st, sym))
  {
    ghost var buf := expbuf[..];
    expbuf[at.ep] := code[0];
    if |code| == 2 {
      expbuf[at.ep + 1] := code[1];
    }
    at' := Pos(at.ep + |code|, at.ep, nbra, stack);
    assert expbuf[..][..at.ep] == buf[..at.ep];
    assert expbuf[..][at.ep..at.ep + |code|] == code;
    WriteItem(buf, expbuf[..], at, at', st, Apply(st, sym), Added(st, sym), code);
  }

  /** Where the compiler gives up before writing anything, no symbol can be read. */
  ghost predicate Stuck(inp: seq<byte>, pos: nat, st: Parsed) {
    && pos < |inp|
    && match inp[pos]
       case 10 => true
       case 36 => pos + 1 >= |inp|
       case 42 => !CanApply(st, StarSym)
       case 92 =>
         || pos + 1 >= |inp| || inp[pos + 1] == NEWLINE
         || (inp[pos + 1] == LPAREN && !CanApply(st, Open)) || (inp[pos + 1] == RPAREN && !CanApply(st, Close))
       case _ => false
  }

  lemma StuckMeansNoSymbol(inp: seq<byte>, pos: nat, eof: byte, st: Parsed, want: Option<Sym>)
    requires Stuck(inp, pos, st) && Hope(want, inp, pos, eof, st)
    ensures want.None?
  {
    if want.Some? {
      var s := Spell(want.value);
      AtIndex(inp, pos, s, 0);
      if |s| >= 2 {
        AtIndex(inp, pos, s, 1);
      }
      assert false;
    }
  }

  /** A symbol of two characters stands in the input. */
  lemma TwoAt(inp: seq<byte>, pos: nat, a: byte, b: byte)
    requires pos + 1 < |inp| && inp[pos] == a && inp[pos + 1] == b
    ensures At(inp, pos, [a, b])
  {
    assert inp[pos..][..2] == [a, b];
  }

  lemma EscapeAt(inp: seq<byte>, pos: nat, eof: byte, sym: Sym)
    requires pos + 1 < |inp| && inp[pos] == BACKSLASH != eof && Spell(sym) == [BACKSLASH, inp[pos + 1]]
      && ValidSym(sym, eof)
    ensures sym in SymsAt(inp, pos, eof) && Width(sym) == 2
  {
    TwoAt(inp, pos, BACKSLASH, inp[pos + 1]);
    SpellWidth(sym);
  }

  lemma OneAt(inp: seq<byte>, pos: nat, a: byte)
    requires pos < |inp| && inp[pos] == a
    ensures At(inp, pos, [a])
  {
    assert inp[pos..][..1] == [a];
  }

  lemma PlainAt(inp: seq<byte>, pos: nat, eof: byte, sym: Sym)
    requires pos < |inp| && inp[pos] != eof && Spell(sym) == [inp[pos]] && ValidSym(sym, eof)
    requires (sym == End ==> pos + 1 < |inp| && inp[pos + 1] == eof)
      && (sym == Lit(DOLLAR) ==> pos + 1 < |inp| && inp[pos + 1] != eof)
    ensures sym in SymsAt(inp, pos, eof) && Width(sym) == 1
  {
    OneAt(inp, pos, inp[pos]);
    SpellWidth(sym);
  }

  /** The turn for a backslash: a bracket or a quoted character. */
  method TurnEscape(expbuf: array<byte>, at: Pos, inp: seq<byte>, pos: nat, eof: byte, ghost st: Parsed)
    returns (ok: bool, at': Pos, ghost sym: Sym)
    requires expbuf.Length == ESIZE + 4 && at.ep < ESIZE && Written(expbuf[..], at, st)
    requires pos < |inp| && inp[pos] == BACKSLASH != eof && 0 !in inp
    modifies expbuf
    ensures ok ==>
      sym in SymsAt(inp, pos, eof) && CanApply(st, sym) && Width(sym) == 2
      && Written(expbuf[..], at', Apply(st, sym))
    ensures !ok ==> Stuck(inp, pos, st)
  {
    ok, at', sym := false, at, Any;
    if pos + 1 >= |inp| {
      return;
    }
    var c := inp[pos + 1];
    if c == LPAREN {
      if at.nbra >= NBRA {
        return;
      }
      sym := Open;
      at' := Emit(expbuf, at, [CBRA, at.nbra as byte], at.nbra + 1, at.stack + [at.nbra], Open, st);
    } else if c == RPAREN {
      if at.stack == [] {
        return;
      }
      sym := Close;
      var n := at.stack[|at.stack| - 1];
      at' := Emit(expbuf, at, [CKET, n as byte], at.nbra, at.stack[..|at.stack| - 1], Close, st);
    } else if c == NEWLINE {
      return;
    } else {
      sym := Esc(c);
      assert c in inp;
      at' := Emit(expbuf, at, [CCHR, c], at.nbra, at.stack, sym, st);
    }
    EscapeAt(inp, pos, eof, sym);
    ok := true;
  }

  /** The turn for a character that stands for itself, a dot, or a dollar. */
  method TurnPlain(expbuf: array<byte>, at: Pos, inp: seq<byte>, pos: nat, eof: byte, ghost st: Parsed)
    returns (ok: bool, at': Pos, ghost sym: Sym)
    requires expbuf.Length == ESIZE + 4 && at.ep < ESIZE && Written(expbuf[..], at, st)
    requires pos < |inp| && inp[pos] != eof && 0 !in inp
    requires inp[pos] != BACKSLASH && inp[pos] != ASTERISK && inp[pos] != LBRACKET
    modifies expbuf
    ensures ok ==>
      sym in SymsAt(inp, pos, eof) && CanApply(st, sym) && Width(sym) == 1
      && Written(expbuf[..], at', Apply(st, sym))
    ensures !ok ==> Stuck(inp, pos, st)
  {
    ok, at', sym := false, at, Any;
    var c := inp[pos];
    assert c in inp;
    if c == NEWLINE || (c == DOLLAR && pos + 1 >= |inp|) {
      return;
    }
    ok := true;
    if c == PERIOD {
      at' := Emit(expbuf, at, [CDOT], at.nbra, at.stack, Any, st);
    } else if c == DOLLAR && inp[pos + 1] == eof {
      sym := End;
      at' := Emit(expbuf, at, [CDOL], at.nbra, at.stack, End, st);
    } else {
      sym := Lit(c);
      at' := Emit(expbuf, at, [CCHR, c], at.nbra, at.stack, sym, st);
    }
    PlainAt(inp, pos, eof, sym);
  }

  /** The turn for a star. */
  method TurnStar(expbuf: array<byte>, at: Pos, inp: seq<byte>, pos: nat, eof: byte, ghost st: Parsed)
    returns (ok: bool)
    requires expbuf.Length == ESIZE + 4 && Written(expbuf[..], at, st)
    requires pos < |inp| && inp[pos] == ASTERISK != eof
    requires st.items != [] && !st.items[|st.items| - 1].Dol?
    modifies expbuf
    ensures ok ==> SymAt(inp, pos, StarSym, eof) && CanApply(st, StarSym) && Written(expbuf[..], at, Apply(st, StarSym))
    ensures !ok ==> Stuck(inp, pos, st)
  {
    ghost var buf := expbuf[..];
    OneAt(inp, pos, ASTERISK);
    if expbuf[at.lastep] == CBRA || expbuf[at.lastep] == CKET {
      return false;
    }
    expbuf[at.lastep] := SetStar(expbuf[at.lastep]);
    assert expbuf[..] == buf[at.lastep := SetStar(buf[at.lastep])];
    WriteStar(buf, expbuf[..], at, st);
    ok := true;
  }

  /** Where the members of a set start. */
  function First(pos: nat, neg: bool): nat { if neg then pos + 2 else pos + 1 }

  /** A set whose members start at `first` has `n` of them. */
  ghost predicate SetEnds(inp: seq<byte>, first: nat, n: nat) {
    first + n < |inp| && inp[first + n] == RBRACKET && Members(inp[first..first + n])
  }

  lemma SetEndsIndex(inp: seq<byte>, first: nat, n: nat, k: nat)
    requires SetEnds(inp, first, n) && k < n
    ensures n > 0 && inp[first + k] != NEWLINE && (k > 0 ==> inp[first + k] != RBRACKET)
  {
    assert inp[first + k] == inp[first..first + n][k];
  }

  /** The members read so far are those of any set that can be read here. */
  ghost predicate ReadMembers(inp: seq<byte>, first: nat, n: nat) {
    && first + n < |inp|
    && (forall i :: first <= i < first + n ==> inp[i] != NEWLINE)
    && (forall i :: first < i <= first + n ==> inp[i] != RBRACKET)
  }

  /** Copy the members of a set: it fails just when the set is not closed on this line or too long. */
  method ReadSet(expbuf: array<byte>, ep0: nat, inp: seq<byte>, first: nat) returns (ok: bool, n: nat)
    requires expbuf.Length == ESIZE + 4 && ep0 < ESIZE + 2 && first <= |inp|
    modifies expbuf
    ensures expbuf[..ep0] == old(expbuf[..ep0])
    ensures ok ==> SetEnds(inp, first, n) && ep0 + n < ESIZE && expbuf[ep0..ep0 + n] == inp[first..first + n]
    ensures !ok ==> forall m: nat | SetEnds(inp, first, m) :: ep0 + m >= ESIZE
  {
    ok, n := false, 0;
    while true
      invariant n > 0 ==> ReadMembers(inp, first, n) && ep0 + n < ESIZE
      invariant expbuf[..ep0] == old(expbuf[..ep0])
      invariant expbuf[ep0..ep0 + n] == inp[first..first + n]
      decreases |inp| - n
    {
      if first + n >= |inp| {
        return;
      }
      if inp[first + n] == NEWLINE {
        NotClosed(inp, first, n);
        return;
      }
      expbuf[ep0 + n] := inp[first + n];
      assert expbuf[ep0..ep0 + n + 1] == expbuf[ep0..ep0 + n] + [expbuf[ep0 + n]];
      n := n + 1;
      LongerThan(inp, first, n);
      if ep0 + n >= ESIZE || first + n >= |inp| {
        return;
      }
      if inp[first + n] == RBRACKET {
        assert Members(inp[first..first + n]);
        return true, n;
      }
    }
  }

  lemma NotClosed(inp: seq<byte>, first: nat, n: nat)
    requires ReadMembers(inp, first, n) && inp[first + n] == NEWLINE
    ensures forall m: nat :: !SetEnds(inp, first, m)
  {
    forall m: nat | SetEnds(inp, first, m)
      ensures false
    {
      SetEndsIndex(inp, first, m, if n < m then n else 0);
    }
  }

  lemma LongerThan(inp: seq<byte>, first: nat, n: nat)
    requires n > 0 && ReadMembers(inp, first, n - 1)
    ensures forall m: nat | SetEnds(inp, first, m) :: m >= n
  {
    forall m: nat | SetEnds(inp, first, m)
      ensures m >= n
    {
      SetEndsIndex(inp, first, m, 0);
    }
  }

  /** The set that can be read at an opening bracket. */
  lemma WantedSet(inp: seq<byte>, pos: nat, eof: byte, s: Sym)
    requires SymAt(inp, pos, s, eof) && pos < |inp| && inp[pos] == LBRACKET
    ensures s.Set? && pos + 1 < |inp| && (s.neg <==> inp[pos + 1] == CARET)
    ensures SetEnds(inp, First(pos, s.neg), |s.cs|)
  {
    AtIndex(inp, pos, Spell(s), 0);
    SetHere(inp, pos, s.neg, s.cs);
  }

  lemma SetHere(inp: seq<byte>, pos: nat, neg: bool, cs: seq<byte>)
    requires ValidSet(neg, cs) && At(inp, pos, Spell(Set(neg, cs)))
    ensures pos + 1 < |inp| && (neg <==> inp[pos + 1] == CARET) && SetEnds(inp, First(pos, neg), |cs|)
  {
    SetAt(inp, pos, neg, cs);
    var first := First(pos, neg);
    assert inp[first] == inp[first..first + |cs|][0] == cs[0];
  }

  lemma SetLength(st: Parsed, s: Sym)
    requires s.Set?
    ensures Length(Apply(st, s).items) == Length(st.items) + 2 + |s.cs|
  {
    LengthSnoc(st.items, One(Class(s.neg, s.cs)));
  }

  lemma NoSet(inp: seq<byte>, pos: nat, neg: bool, eof: byte, st: Parsed, want: Option<Sym>)
    requires Hope(want, inp, pos, eof, st) && pos < |inp| && inp[pos] == LBRACKET
    requires neg <==> pos + 1 < |inp| && inp[pos + 1] == CARET
    requires forall m: nat | SetEnds(inp, First(pos, neg), m) :: Length(st.items) + 2 + m >= ESIZE
    ensures want.Some? ==> Length(Apply(st, want.value).items) >= ESIZE
  {
    if want.Some? {
      WantedSet(inp, pos, eof, want.value);
      SetLength(st, want.value);
    }
  }

  lemma SetSpelled(inp: seq<byte>, pos: nat, neg: bool, n: nat, eof: byte, s: Sym)
    requires pos + 1 < |inp| && inp[pos] == LBRACKET != eof && (neg <==> inp[pos + 1] == CARET)
    requires SetEnds(inp, First(pos, neg), n) && s == Set(neg, inp[First(pos, neg)..First(pos, neg) + n])
    ensures s in SymsAt(inp, pos, eof) && pos + Width(s) == First(pos, neg) + n + 1
  {
    SpellSet(inp, pos, neg, n);
    SpellWidth(s);
    assert s.cs[0] == inp[First(pos, neg)];
    assert ValidSym(s, eof);
  }

  lemma SpellSet(inp: seq<byte>, pos: nat, neg: bool, n: nat)
    requires pos < |inp| && inp[pos] == LBRACKET && (neg ==> pos + 1 < |inp| && inp[pos + 1] == CARET)
    requires var first := First(pos, neg); first + n < |inp| && inp[first + n] == RBRACKET
    ensures var first := First(pos, neg);
      var s := Spell(Set(neg, inp[first..first + n])); At(inp, pos, s) && pos + |s| == first + n + 1
  {
    var first := First(pos, neg);
    var head := if neg then [LBRACKET, CARET] else [LBRACKET];
    assert inp[pos..pos + |head|] == head;
    AtThree(inp, pos, head, inp[first..first + n], [RBRACKET]);
  }

  lemma AtThree(inp: seq<byte>, pos: nat, a: seq<byte>, b: seq<byte>, c: seq<byte>)
    requires pos + |a| + |b| + |c| <= |inp|
    requires var i, j := pos + |a|, pos + |a| + |b|; inp[pos..i] == a && inp[i..j] == b && inp[j..j + |c|] == c
    ensures At(inp, pos, a + b + c)
  {
    var i, j := pos + |a|, pos + |a| + |b|;
    assert inp[pos..][..|a + b + c|] == inp[pos..i] + inp[i..j] + inp[j..j + |c|];
  }

  lemma SetCode(neg: bool, cs: seq<byte>)
    requires |cs| + 1 < ESIZE
    ensures EncodeItem(One(Class(neg, cs))) == SetBytes(neg, cs)
  {
  }

  function SetBytes(neg: bool, cs: seq<byte>): seq<byte>
    requires |cs| + 1 < ESIZE
  {
    [if neg then NCCL else CCL, (|cs| + 1) as byte] + cs
  }

  lemma SliceTwo(buf: seq<byte>, ep: nat, n: nat)
    requires ep + 2 + n <= |buf|
    ensures buf[ep..ep + 2 + n] == [buf[ep], buf[ep + 1]] + buf[ep + 2..ep + 2 + n]
  {
  }

  /** Write the bytes of a set. */
  method WriteSet(expbuf: array<byte>, ep: nat, inp: seq<byte>, first: nat, neg: bool) returns (ok: bool, n: nat)
    requires expbuf.Length == ESIZE + 4 && ep < ESIZE && first <= |inp|
    modifies expbuf
    ensures expbuf[..][..ep] == old(expbuf[..])[..ep]
    ensures ok ==>
      SetEnds(inp, first, n) && ep + 2 + n < ESIZE
      && expbuf[..][ep..ep + 2 + n] == SetBytes(neg, inp[first..first + n])
    ensures !ok ==> forall m: nat | SetEnds(inp, first, m) :: ep + 2 + m >= ESIZE
  {
    expbuf[ep] := if neg then NCCL else CCL;
    expbuf[ep + 1] := 0;
    ghost var buf := expbuf[..];
    ok, n := ReadSet(expbuf, ep + 2, inp, first);
    assert expbuf[..ep + 2][ep] == buf[ep];
    assert expbuf[..][..ep] == expbuf[..ep + 2][..ep] == buf[..ep];
    if ok {
      ghost var mid := expbuf[..];
      assert mid[ep + 2..ep + 2 + n] == expbuf[ep + 2..ep + 2 + n];
      expbuf[ep + 1] := (n + 1) as byte;
      assert expbuf[..] == mid[ep + 1 := (n + 1) as byte];
      SliceTwo(expbuf[..], ep, n);
    }
  }

  lemma SetWritten(buf: seq<byte>, buf': seq<byte>, at: Pos, at': Pos, st: Parsed, neg: bool, cs: seq<byte>)
    requires Written(buf, at, st) && |buf'| == |buf| && at.ep + 2 + |cs| < ESIZE <= |buf|
    requires buf'[..at.ep] == buf[..at.ep] && buf'[at.ep..at.ep + 2 + |cs|] == SetBytes(neg, cs)
    requires at' == Pos(at.ep + 2 + |cs|, at.ep, at.nbra, at.stack)
    ensures Written(buf', at', Apply(st, Set(neg, cs)))
  {
    SetCode(neg, cs);
    WriteItem(buf, buf', at, at', st, Apply(st, Set(neg, cs)), One(Class(neg, cs)), SetBytes(neg, cs));
  }

  /** Write the code of a set. */
  method EmitSet(expbuf: array<byte>, at: Pos, inp: seq<byte>, first: nat, neg: bool, ghost st: Parsed)
    returns (ok: bool, n: nat, at': Pos)
    requires expbuf.Length == ESIZE + 4 && at.ep < ESIZE && Written(expbuf[..], at, st) && first <= |inp|
    modifies expbuf
    ensures ok ==> SetEnds(inp, first, n) && Written(expbuf[..], at', Apply(st, Set(neg, inp[first..first + n])))
    ensures !ok ==> forall m: nat | SetEnds(inp, first, m) :: at.ep + 2 + m >= ESIZE
  {
    ghost var buf := expbuf[..];
    ok, n := WriteSet(expbuf, at.ep, inp, first, neg);
    at' := at;
    if ok {
      at' := Pos(at.ep + 2 + n, at.ep, at.nbra, at.stack);
      SetWritten(buf, expbuf[..], at, at', st, neg, inp[first..first + n]);
    }
  }

  /** The turn for a set in brackets; `want` is the symbol that can be read there, if any. */
  method TurnSet(expbuf: array<byte>, at: Pos, inp: seq<byte>, pos: nat, eof: byte, ghost st: Parsed,
    ghost want: Option<Sym>)
    returns (ok: bool, at': Pos, pos': nat, ghost sym: Sym)
    requires expbuf.Length == ESIZE + 4 && at.ep < ESIZE && Written(expbuf[..], at, st)
    requires pos < |inp| && inp[pos] == LBRACKET != eof && Hope(want, inp, pos, eof, st)
    modifies expbuf
    ensures ok ==>
      sym in SymsAt(inp, pos, eof) && CanApply(st, sym) && pos' == pos + Width(sym)
      && Written(expbuf[..], at', Apply(st, sym))
    ensures !ok && want.Some? ==> Length(Apply(st, want.value).items) >= ESIZE
  {
    ok, at', pos', sym := false, at, pos, Any;
    var neg := pos + 1 < |inp| && inp[pos + 1] == CARET;
    var first := First(pos, neg);
    var n;
    ok, n, at' := EmitSet(expbuf, at, inp, first, neg, st);
    if ok {
      pos', sym := first + n + 1, Set(neg, inp[first..first + n]);
      SetSpelled(inp, pos, neg, n, eof, sym);
    } else {
      NoSet(inp, pos, neg, eof, st, want);
    }
  }

  /** A star cannot come first, and nothing but the delimiter follows an anchor. */
  ghost predicate Settled(inp: seq<byte>, pos: nat, eof: byte, st: Parsed) {
    && (st.items == [] ==> pos >= |inp| || inp[pos] != ASTERISK)
    && (st.items != [] && st.items[|st.items| - 1].Dol? ==> pos < |inp| && inp[pos] == eof)
  }

  lemma StaysSettled(inp: seq<byte>, pos: nat, eof: byte, st: Parsed, sym: Sym)
    requires SymAt(inp, pos, sym, eof) && CanApply(st, sym)
    ensures Settled(inp, pos + Width(sym), eof, Apply(st, sym))
  {
  }

  /** One turn of the loop. */
  method Turn(expbuf: array<byte>, at: Pos, inp: seq<byte>, pos: nat, eof: byte, ghost st: Parsed,
    ghost want: Option<Sym>)
    returns (ok: bool, at': Pos, pos': nat, ghost sym: Sym)
    requires expbuf.Length == ESIZE + 4 && at.ep < ESIZE && Written(expbuf[..], at, st)
    requires pos < |inp| && inp[pos] != eof && 0 !in inp && Hope(want, inp, pos, eof, st) && Settled(inp, pos, eof, st)
    modifies expbuf
    ensures Turned(ok, sym, pos', at', expbuf[..], want, inp, pos, eof, st)
  {
    if inp[pos] == LBRACKET {
      ok, at', pos', sym := TurnSet(expbuf, at, inp, pos, eof, st, want);
      return;
    }
    if inp[pos] == BACKSLASH {
      ok, at', sym := TurnEscape(expbuf, at, inp, pos, eof, st);
      pos' := pos + 2;
    } else if inp[pos] == ASTERISK {
      ok := TurnStar(expbuf, at, inp, pos, eof, st);
      at', pos', sym := at, pos + 1, StarSym;
    } else {
      ok, at', sym := TurnPlain(expbuf, at, inp, pos, eof, st);
      pos' := pos + 1;
    }
    if !ok {
      StuckMeansNoSymbol(inp, pos, eof, st, want);
    }
  }

  /** A hope for the rest of the input: symbols up to `end` whose code fits, or none. */
  datatype Plan = NoPlan | Plan(rest: seq<Sym>, end: nat)

  ghost predicate Sound(plan: Plan, g: Reader, pos: nat, st: Parsed) {
    plan.Plan? ==>
      && Spelled(g, pos, plan.rest, plan.end) && CanApplyAll(st, plan.rest)
        && Length(ApplyAll(st, plan.rest).items) < ESIZE
  }

  ghost function Next(plan: Plan): Option<Sym> {
    if plan.Plan? && plan.rest != [] then Some(plan.rest[0]) else None
  }

  ghost function Later(plan: Plan): Plan {
    if plan.Plan? && plan.rest != [] then Plan(plan.rest[1..], plan.end) else NoPlan
  }

  /** After a turn that read a symbol, the rest of the plan is still to come. */
  lemma PlanKept(plan: Plan, g: Reader, pos: nat, st: Parsed, sym: Sym)
    requires Sound(plan, g, pos, st) && (plan.Plan? ==> plan.rest != []) && sym in g(pos)
    requires forall s, t :: s in g(pos) && t in g(pos) ==> s == t
    ensures plan.Plan? ==>
      sym == plan.rest[0] && CanApply(st, sym)
      && Sound(Later(plan), g, pos + Width(sym), Apply(st, sym))
  {
  }

  /** A sound plan fits the buffer, and the next symbol with it. */
  lemma PlanFits(plan: Plan, g: Reader, pos: nat, st: Parsed)
    requires Sound(plan, g, pos, st) && plan.Plan?
    ensures Length(st.items) < ESIZE
    ensures plan.rest != [] ==> CanApply(st, plan.rest[0]) && Length(Apply(st, plan.rest[0]).items) < ESIZE
  {
    ApplyAllGrows(st, plan.rest);
    if plan.rest != [] {
      ApplyAllGrows(Apply(st, plan.rest[0]), plan.rest[1..]);
    }
  }

  /** The symbols read so far, what they stand for, and what is still to come of the pattern hoped for. */
  ghost predicate Reading(pat: Plan, plan: Plan, g: Reader, from: nat, syms: seq<Sym>, pos: nat, st: Parsed) {
    && Spelled(g, from, syms, pos) && CanApplyAll(START, syms) && ApplyAll(START, syms) == st
    && Sound(plan, g, pos, st)
    && (if pat.Plan? then plan.Plan? && plan.end == pat.end && syms + plan.rest == pat.rest else plan.NoPlan?)
  }

  lemma ReadOn(pat: Plan, plan: Plan, g: Reader, from: nat, syms: seq<Sym>, pos: nat, st: Parsed,
               sym: Sym, plan': Plan, syms': seq<Sym>, pos': nat, st': Parsed)
    requires Reading(pat, plan, g, from, syms, pos, st) && sym in g(pos) && CanApply(st, sym)
    requires plan' == Later(plan) && syms' == syms + [sym] && pos' == pos + Width(sym) && st' == Apply(st, sym)
    requires plan.Plan? ==> plan.rest != []
    requires forall s, t :: s in g(pos) && t in g(pos) ==> s == t
    ensures Reading(pat, plan', g, from, syms', pos', st')
  {
    PlanKept(plan, g, pos, st, sym);
    if plan.Plan? {
      assert syms + plan.rest == syms + [sym] + plan.rest[1..];
    }
    SpelledMore(g, from, syms, pos, sym);
    ApplyMore(START, syms, sym);
  }

  /** Reading by the input at hand: no symbol starts with the delimiter, and at most one can be read. */
  ghost predicate Clear(g: Reader, inp: seq<byte>, pos: nat, eof: byte) {
    && g(pos) == SymsAt(inp, pos, eof)
    && (pos >= |inp| || inp[pos] == eof ==> g(pos) == iset{})
    && (forall s, t :: s in g(pos) && t in g(pos) ==> s == t)
  }

  lemma ReaderIsClear(g: Reader, inp: seq<byte>, pos: nat, eof: byte)
    requires g == ReaderOf(inp, eof)
    ensures Clear(g, inp, pos, eof)
  {
    forall s, t | s in g(pos) && t in g(pos)
      ensures pos < |inp| && inp[pos] != eof && s == t
    {
      AtIndex(inp, pos, Spell(s), 0);
      Unambiguous(inp, pos, s, t, eof);
    }
  }

  /** The delimiter is where the plan ends. */
  lemma PlanEnds(plan: Plan, g: Reader, inp: seq<byte>, pos: nat, eof: byte, st: Parsed)
    requires Sound(plan, g, pos, st) && plan.Plan? && Clear(g, inp, pos, eof) && plan.end < |inp|
      && inp[plan.end] == eof
    ensures pos < |inp| && (inp[pos] == eof <==> plan.rest == []) && (inp[pos] == eof ==> pos == plan.end)
  {
    assert plan.rest != [] ==> plan.rest[0] in g(pos);
  }

  /**
   * The loop of `compile`. `pat` is a pattern that stands in the input and whose code fits, if there is one:
   * then compilation succeeds and reads just that pattern.
   */
  method CompileLoop(expbuf: array<byte>, inp: seq<byte>, from: nat, eof: byte, ghost g: Reader, ghost pat: Plan)
    returns (ok: bool, pos: nat, ghost syms: seq<Sym>)
    requires expbuf.Length == ESIZE + 4 && from < |inp| && inp[from] != ASTERISK && 0 !in inp && g == ReaderOf(inp, eof)
    requires Sound(pat, g, from, START) && (pat.Plan? ==> pat.end < |inp| && inp[pat.end] == eof)
    modifies expbuf
    ensures ok ==> Spelled(g, from, syms, pos) && pos < |inp| && inp[pos] == eof
    ensures ok ==> CanApplyAll(START, syms) && ValidItems(ItemsOf(syms)) && Length(ItemsOf(syms)) < ESIZE
    ensures ok ==> At(expbuf[..], 0, Code(ItemsOf(syms)))
    ensures pat.Plan? ==> ok && syms == pat.rest && pos == pat.end
  {
    var at := Pos(0, 0, 0, []);
    ghost var st, plan := START, pat;
    pos, syms := from, [];
    while true
      invariant Written(expbuf[..], at, st) && Settled(inp, pos, eof, st) && Reading(pat, plan, g, from, syms, pos, st)
      decreases |inp| - pos
    {
      ReaderIsClear(g, inp, pos, eof);
      if plan.Plan? {
        PlanFits(plan, g, pos, st);
        PlanEnds(plan, g, inp, pos, eof, st);
      }
      if at.ep >= ESIZE || pos >= |inp| {
        return false, pos, syms;
      }
      if inp[pos] == eof {
        EndCode(expbuf, at, st);
        return true, pos, syms;
      }
      var at', pos';
      ghost var sym;
      ok, at', pos', sym := Turn(expbuf, at, inp, pos, eof, st, Next(plan));
      if !ok {
        return;
      }
      ghost var plan', syms', st' := Later(plan), syms + [sym], Apply(st, sym);
      ReadOn(pat, plan, g, from, syms, pos, st, sym, plan', syms', pos', st');
      StaysSettled(inp, pos, eof, st, sym);
      at, pos, st, syms, plan := at', pos', st', syms', plan';
    }
  }

  /** Close the code. */
  method EndCode(expbuf: array<byte>, at: Pos, ghost st: Parsed)
    requires expbuf.Length == ESIZE + 4 && at.ep < ESIZE && Written(expbuf[..], at, st)
    modifies expbuf
    ensures ValidItems(st.items) && At(expbuf[..], 0, Code(st.items))
  {
    ghost var buf := expbuf[..];
    expbuf[at.ep] := CEOF;
    assert expbuf[..][..at.ep] == buf[..at.ep];
    assert expbuf[..][0..][..at.ep + 1] == expbuf[..][..at.ep] + [CEOF];
  }

  /**
   * `compile` on input that does not start with the delimiter. Whatever it accepts is a pattern,
   * the code written is that pattern's, and reading stops behind its delimiter; every pattern
   * whose code fits the buffer is accepted.
   */
  method Compile(expbuf: array<byte>, inp: seq<byte>, start: nat, eof: byte, ghost pat: Plan)
    returns (ok: bool, circfl: bool, end: nat, ghost syms: seq<Sym>)
    requires expbuf.Length == ESIZE + 4 && start < |inp| && inp[start] != eof && 0 !in inp
    requires pat.Plan? ==>
      IsPattern(inp, start, inp[start] == CARET, pat.rest, pat.end, eof)
      && Length(ItemsOf(pat.rest)) < ESIZE
    modifies expbuf
    ensures ok ==>
      IsPattern(inp, start, circfl, syms, end, eof) && ValidItems(ItemsOf(syms))
      && Length(ItemsOf(syms)) < ESIZE
    ensures ok ==> At(expbuf[..], 0, Code(ItemsOf(syms)))
    ensures pat.Plan? ==> ok && syms == pat.rest && end == pat.end
  {
    circfl := inp[start] == CARET;
    var from := if circfl then start + 1 else start;
    if from >= |inp| || inp[from] == ASTERISK {
      return false, circfl, from, [];
    }
    ok, end, syms := CompileLoop(expbuf, inp, from, eof, ReaderOf(inp, eof), pat);
  }
}
