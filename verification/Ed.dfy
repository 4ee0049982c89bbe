/** The pattern matcher of the line editor: `cclass`, `advance` and `execute`. */
module Ed {
  import opened Common
  import opened EdPattern
  import opened EdCode

  /** The position recorded for each opening (or closing) bracket along a path. */
  ghost function Marks(p: seq<Item>, i: nat, ks: seq<nat>, opening: bool): map<nat, nat>
    decreases |p|
  {
    if p == [] then map[]
    else
      match p[0]
      case One(a) => Marks(p[1..], i + 1, ks, opening)
      case Star(a) => if ks == [] then map[] else Marks(p[1..], i + ks[0], ks[1..], opening)
      case Dol => Marks(p[1..], i, ks, opening)
      case Bra(n) => if opening then map[n := i] + Marks(p[1..], i, ks, opening) else Marks(p[1..], i, ks, opening)
      case Ket(n) => if opening then Marks(p[1..], i, ks, opening) else map[n := i] + Marks(p[1..], i, ks, opening)
  }

  /** The bracket numbers that occur in a pattern. */
  ghost function Brackets(p: seq<Item>, opening: bool): set<nat> {
    if p == [] then {}
    else
      var rest := Brackets(p[1..], opening);
      if opening && p[0].Bra? then {p[0].n} + rest
      else if !opening && p[0].Ket? then {p[0].n} + rest
      else rest
  }

  lemma {:induction false} MarksOfPath(p: seq<Item>, line: seq<byte>, i: nat, ks: seq<nat>, j: nat, opening: bool)
    requires i <= |line| && Path(p, line, i, ks, j)
    ensures Marks(p, i, ks, opening).Keys == Brackets(p, opening)
    decreases |p|
  {
    if p != [] {
      match p[0]
      case One(a) => MarksOfPath(p[1..], line, i + 1, ks, j, opening);
      case Star(a) => MarksOfPath(p[1..], line, i + ks[0], ks[1..], j, opening);
      case Dol => MarksOfPath(p[1..], line, i, ks, j, opening);
      case Bra(_) => MarksOfPath(p[1..], line, i, ks, j, opening);
      case Ket(_) => MarksOfPath(p[1..], line, i, ks, j, opening);
    }
  }

  /** The marks left by the greedy match. */
  ghost function MatchMarks(p: seq<Item>, line: seq<byte>, i: nat, opening: bool): map<nat, nat>
    requires i <= |line|
  {
    var m := Greedy(p, line, i);
    if m.Some? then Marks(p, i, m.value.ks, opening) else map[]
  }

  lemma MatchMarksKeys(p: seq<Item>, line: seq<byte>, i: nat, opening: bool)
    requires i <= |line| && Greedy(p, line, i).Some?
    ensures MatchMarks(p, line, i, opening).Keys == Brackets(p, opening)
  {
    GreedyIsPath(p, line, i);
    var m := Greedy(p, line, i).value;
    MarksOfPath(p, line, i, m.ks, m.end, opening);
  }

  class Matcher {
    const linebuf: array<byte>
    const expbuf: array<byte>
    const braslist: array<nat>
    const braelist: array<nat>
    var loc1: nat
    var loc2: nat
    var circfl: bool

    /** `cclass`: is `c` in the set stored at `set`, or outside it when `af` is false? */
    method Cclass(set_: nat, c: byte, af: bool, ghost cs: seq<byte>) returns (r: bool)
      requires |cs| + 1 < ESIZE && At(expbuf[..], set_, [(|cs| + 1) as byte] + cs)
      ensures r == Accepts(Class(!af, cs), c)
    {
      if c == 0 {
        return false;
      }
      AtIndex(expbuf[..], set_, [(|cs| + 1) as byte] + cs, 0);
      AtSplit(expbuf[..], set_, [(|cs| + 1) as byte], cs);
      var n, at: nat := expbuf[set_] - 1, set_ + 1;
      while n > 0
        invariant 0 <= n <= |cs| && at == set_ + 1 + (|cs| - n)
        invariant c !in cs[..|cs| - n]
      {
        AtIndex(expbuf[..], set_ + 1, cs, |cs| - n);
        assert cs[..|cs| - n + 1] == cs[..|cs| - n] + [cs[|cs| - n]];
        if expbuf[at] == c {
          return af;
        }
        at := at + 1;
        n := n - 1;
      }
      assert cs[..|cs|] == cs;
      return !af;
    }

    /** Where the arguments of an atom end, and whether it accepts the character at `lp`. */
    method TestAtom(op: byte, lp: nat, ep: nat, ghost a: Atom, ghost line: seq<byte>) returns (ok: bool, next: nat)
      requires 0 !in line && |line| < linebuf.Length && linebuf[..|line|] == line && linebuf[|line|] == 0
      requires lp <= |line| && ValidAtom(a) && op == AtomOp(a) && At(expbuf[..], ep, AtomArgs(a))
      ensures ok <==> lp < |line| && Accepts(a, line[lp])
      ensures next == ep + |AtomArgs(a)|
    {
      var c := linebuf[lp];
      assert lp < |line| ==> c == linebuf[..|line|][lp] == line[lp];
      assert c == 0 <==> lp == |line|;
      if op == CCHR {
        AtIndex(expbuf[..], ep, AtomArgs(a), 0);
        ok, next := expbuf[ep] == c, ep + 1;
      } else if op == CDOT {
        ok, next := c != 0, ep;
      } else {
        AtIndex(expbuf[..], ep, AtomArgs(a), 0);
        ok := Cclass(ep, c, op == CCL, a.cs);
        next := ep + expbuf[ep];
      }
    }

    /** A starred atom runs as far as it can; `lp` ends one past the first character refused. */
    method RunAtom(op: byte, lp: nat, ep: nat, ghost a: Atom, ghost line: seq<byte>) returns (end: nat, next: nat)
      requires 0 !in line && |line| < linebuf.Length && linebuf[..|line|] == line && linebuf[|line|] == 0
      requires lp <= |line| && ValidAtom(a) && op == AtomOp(a) && At(expbuf[..], ep, AtomArgs(a))
      ensures end == lp + RunLength(a, line, lp) + 1 && next == ep + |AtomArgs(a)|
    {
      var more;
      more, next := TestAtom(op, lp, ep, a, line);
      end := lp + 1;
      while more
        invariant lp < end <= |line| + 1 && next == ep + |AtomArgs(a)|
        invariant more <==> end - 1 < |line| && Accepts(a, line[end - 1])
        invariant lp + RunLength(a, line, lp) == end - 1 + RunLength(a, line, end - 1)
        decreases |line| + 1 - end
      {
        more, next := TestAtom(op, end, ep, a, line);
        end := end + 1;
      }
    }

    /** A NUL-terminated line in `linebuf`, and buffers that do not overlap. */
    ghost predicate LineReady(line: seq<byte>)
      reads linebuf
    {
      && linebuf != expbuf && braslist != braelist && braslist.Length == braelist.Length == NBRA
      && 0 !in line && |line| < linebuf.Length && linebuf[..|line|] == line && linebuf[|line|] == 0
    }

    ghost function Lists(): Lists
      reads braslist, braelist
    {
      Pair(braslist[..], braelist[..])
    }

    /** Record the position of a bracket. */
    method MarkBracket(op: byte, lp: nat, ep: nat, ghost it: Item)
      requires braslist != braelist && braslist.Length == braelist.Length == NBRA
      requires ValidItem(it) && (it.Bra? || it.Ket?) && op == EncodeItem(it)[0]
        && At(expbuf[..], ep, EncodeItem(it)[1..])
      modifies braslist, braelist
      ensures LeavesMark(old(Lists()), Lists(), it, lp)
    {
      AtIndex(expbuf[..], ep, EncodeItem(it)[1..], 0);
      if op == CBRA {
        braslist[expbuf[ep]] := lp;
      } else {
        braelist[expbuf[ep]] := lp;
      }
    }

    /** One operation that is not starred: go on behind it, or fail. */
    method Step(op: byte, lp: nat, ep: nat, ghost q: seq<Item>, ghost line: seq<byte>)
      returns (ok: bool, lp': nat, ep': nat)
      requires LineReady(line) && lp <= |line| && ValidItems(q) && q != [] && !q[0].Star?
      requires op == EncodeItem(q[0])[0] && At(expbuf[..], ep, EncodeItem(q[0])[1..])
      modifies braslist, braelist
      ensures lp' <= |line| && ep' == ep + |EncodeItem(q[0])| - 1
      ensures Greedy(q, line, lp) == if ok then Greedy(q[1..], line, lp') else None
      ensures ok ==> lp' == if q[0].One? then lp + 1 else lp
      ensures LeavesMark(old(Lists()), Lists(), q[0], lp)
    {
      ok, lp', ep' := true, lp, ep;
      if op == CDOL {
        assert linebuf[lp] == 0 <==> lp == |line| by {
          assert lp < |line| ==> linebuf[lp] == linebuf[..|line|][lp] == line[lp];
        }
        ok := linebuf[lp] == 0;
        NoMark(Lists(), q[0], lp);
      } else if op == CBRA || op == CKET {
        MarkBracket(op, lp, ep, q[0]);
        ep' := ep + 1;
      } else {
        NoMark(Lists(), q[0], lp);
        AtomArgsTail(q[0]);
        ok, ep' := TestAtom(op, lp, ep, q[0].a, line);
        if ok {
          lp' := lp + 1;
        }
      }
    }

    /** `advance`: match the items at `aep` against the line from `alp` on. */
    method Advance(alp: nat, aep: nat, ghost p: seq<Item>, ghost line: seq<byte>) returns (ok: bool)
      requires LineReady(line) && alp <= |line| && ValidItems(p) && At(expbuf[..], aep, Code(p))
      modifies this`loc2, braslist, braelist
      ensures Outcome(ok, loc2, p, line, alp) && Recorded(old(Lists()), Lists(), p, line, alp)
      decreases |p|, 3
    {
      ghost var lists0, lists := Lists(), Lists();
      var lp: nat, ep: nat := alp, aep;
      ghost var q := p;
      var more := true;
      ok := false;
      while more
        invariant lp <= |line| && |q| <= |p| && lists0 == old(Lists())
        invariant more ==> ValidItems(q) && At(expbuf[..], ep, Code(q)) && lists == Lists()
        invariant more ==> Greedy(p, line, alp) == Greedy(q, line, lp) && Halfway(lists0, lists, p, alp, q, lp, line)
        invariant !more ==> Outcome(ok, loc2, p, line, alp) && Recorded(lists0, Lists(), p, line, alp)
        decreases more, |q|
      {
        ghost var i: nat := lp;
        more, ok, lp, ep := Operate(lp, ep, q, line);
        ghost var after := Lists();
        if more {
          StepOn(lists0, lists, after, p, alp, q, i, lp, line);
          q, lists := q[1..], after;
        } else {
          Finish(lists0, lists, after, p, alp, q, i, line);
        }
      }
    }

    /** One turn of the loop: the match is decided, or the rest of the items decides it. */
    method Operate(lp: nat, ep: nat, ghost q: seq<Item>, ghost line: seq<byte>)
      returns (more: bool, ok: bool, lp': nat, ep': nat)
      requires LineReady(line) && lp <= |line| && ValidItems(q) && At(expbuf[..], ep, Code(q))
      modifies this`loc2, braslist, braelist
      ensures lp' <= |line|
      ensures !more ==> Outcome(ok, loc2, q, line, lp) && Recorded(old(Lists()), Lists(), q, line, lp)
      ensures more ==> q != [] && !q[0].Star? && lp' == (if q[0].One? then lp + 1 else lp)
      ensures more ==> Greedy(q, line, lp) == Greedy(q[1..], line, lp') && At(expbuf[..], ep', Code(q[1..]))
      ensures more ==> LeavesMark(old(Lists()), Lists(), q[0], lp)
      decreases |q|, 2
    {
      var op := Fetch(ep, q);
      ghost var exp := expbuf[..];
      lp', ep' := lp, ep;
      if op == CEOF {
        loc2 := lp;
        return false, true, lp, ep;
      }
      if IsStarOp(op) {
        more := false;
        ok := StarLoop(op - STAR, lp, ep + 1, q, line);
        return;
      }
      ok, lp', ep' := Step(op, lp, ep + 1, q, line);
      more := ok;
      assert expbuf[..] == exp;
    }

    /** The next operation byte, and what it says about the items left. */
    method Fetch(ep: nat, ghost q: seq<Item>) returns (op: byte)
      requires ValidItems(q) && At(expbuf[..], ep, Code(q))
      ensures op == CEOF <==> q == []
      ensures q != [] ==> op == EncodeItem(q[0])[0]
      ensures IsStarOp(op) <==> q != [] && q[0].Star?
      ensures q != [] ==>
        At(expbuf[..], ep + 1, EncodeItem(q[0])[1..])
        && At(expbuf[..], ep + |EncodeItem(q[0])|, Code(q[1..])) && ValidItems(q[1..])
      ensures q != [] && q[0].Star? ==>
        op - STAR == AtomOp(q[0].a) && At(expbuf[..], ep + 1, AtomArgs(q[0].a))
        && At(expbuf[..], ep + 1 + |AtomArgs(q[0].a)|, Code(q[1..]))
    {
      OpDetermines(q);
      AtIndex(expbuf[..], ep, Code(q), 0);
      op := expbuf[ep];
      if op != CEOF {
        CodeParts(expbuf[..], ep, q);
        if q[0].Star? {
          AtomParts(expbuf[..], ep, q);
        }
      }
    }

    /** A starred operation: try the rest of the pattern behind ever shorter runs. */
    method StarLoop(op: byte, curlp: nat, ep: nat, ghost q: seq<Item>, ghost line: seq<byte>) returns (ok: bool)
      requires LineReady(line) && curlp <= |line| && ValidItems(q) && q != [] && q[0].Star? && op == AtomOp(q[0].a)
      requires At(expbuf[..], ep, AtomArgs(q[0].a)) && At(expbuf[..], ep + |AtomArgs(q[0].a)|, Code(q[1..]))
      modifies this`loc2, braslist, braelist
      ensures Outcome(ok, loc2, q, line, curlp) && Recorded(old(Lists()), Lists(), q, line, curlp)
      decreases |q|, 1
    {
      ghost var exp, lists0 := expbuf[..], Lists();
      var lp: nat, next: nat := RunAtom(op, curlp, ep, q[0].a, line);
      while true
        invariant exp == expbuf[..] && lists0 == old(Lists()) && At(exp, next, Code(q[1..]))
        invariant curlp < lp <= |line| + 1
        invariant Disturbed(lists0, Lists(), q)
        invariant Greedy(q, line, curlp) == Backtrack(q, line, curlp, lp - 1 - curlp)
        decreases lp
      {
        lp := lp - 1;
        ghost var lists := Lists();
        ok := Advance(lp, next, q[1..], line);
        StarAttempt(lists0, lists, Lists(), q, line, curlp, lp);
        if ok || lp <= curlp {
          return;
        }
      }
    }

    /** The scan of `execute`, with or without the check for a literal first character. */
    method Scan(fast: bool, c: byte, ghost p: seq<Item>, ghost line: seq<byte>) returns (ok: bool)
      requires LineReady(line) && ValidItems(p) && At(expbuf[..], 0, Code(p))
      requires fast ==> p != [] && p[0] == One(Chr(c))
      modifies this`loc1, this`loc2, braslist, braelist
      ensures ok <==> exists i: nat :: MatchesAt(p, line, i)
      ensures ok ==> IsFirst(p, line, loc1)
      ensures ok ==> Outcome(true, loc2, p, line, loc1) && Recorded(old(Lists()), Lists(), p, line, loc1)
    {
      ghost var lists0 := Lists();
      var p1: nat := 0;
      while true
        invariant p1 <= |line| && At(expbuf[..], 0, Code(p))
        invariant forall i: nat :: i < p1 ==> !MatchesAt(p, line, i)
        invariant Disturbed(lists0, Lists(), p)
        decreases |line| - p1
      {
        GreedyIffMatches(p, line, p1);
        ghost var lists := Lists();
        ok := false;
        assert linebuf[p1] == 0 <==> p1 == |line| by {
          assert p1 < |line| ==> linebuf[p1] == linebuf[..|line|][p1] == line[p1];
        }
        if !fast || linebuf[p1] == c {
          ok := Advance(p1, 0, p, line);
          Retry(lists0, lists, Lists(), p, line, p1);
        } else {
          FastSkip(p, line, p1, c, linebuf[p1]);
        }
        if ok {
          loc1 := p1;
          return;
        }
        if linebuf[p1] == 0 {
          return;
        }
        p1 := p1 + 1;
      }
    }

    /** `execute` with `gf` zero: is there a match in the line, and where is the first one? */
    method Execute(ghost p: seq<Item>, ghost line: seq<byte>) returns (ok: bool)
      requires LineReady(line) && ValidItems(p) && At(expbuf[..], 0, Code(p))
      modifies this`loc1, this`loc2, braslist, braelist
      ensures circfl ==> (ok <==> MatchesAt(p, line, 0)) && (ok ==> loc1 == 0)
      ensures !circfl ==> (ok <==> exists i: nat :: MatchesAt(p, line, i)) && (ok ==> IsFirst(p, line, loc1))
      ensures ok ==>
        loc1 <= |line| && Outcome(true, loc2, p, line, loc1)
        && Recorded(old(Lists()), Lists(), p, line, loc1)
    {
      if circfl {
        loc1 := 0;
        GreedyIffMatches(p, line, 0);
        ok := Advance(0, 0, p, line);
        return;
      }
      var op := Fetch(0, p);
      var c := 0;
      if op == CCHR {
        LiteralFirst(expbuf[..], p);
        c := expbuf[1];
      }
      ok := Scan(op == CCHR, c, p, line);
    }
  }

  /** The leftmost position where the pattern matches. */
  ghost predicate IsFirst(p: seq<Item>, line: seq<byte>, i: nat) {
    MatchesAt(p, line, i) && forall j: nat :: j < i ==> !MatchesAt(p, line, j)
  }

  /** A literal first character that does not match cannot start a match. */
  lemma FastSkip(p: seq<Item>, line: seq<byte>, i: nat, c: byte, at: byte)
    requires p != [] && p[0] == One(Chr(c)) && i <= |line| && at != c && (i < |line| ==> line[i] == at)
    ensures !MatchesAt(p, line, i)
  {
    GreedyIffMatches(p, line, i);
  }

  lemma LiteralFirst(buf: seq<byte>, p: seq<Item>)
    requires ValidItems(p) && p != [] && At(buf, 0, Code(p)) && EncodeItem(p[0])[0] == CCHR
    ensures 1 < |buf| && p[0] == One(Chr(buf[1]))
  {
    AtomParts(buf, 0, p);
    AtIndex(buf, 1, AtomArgs(p[0].a), 0);
  }

  /** Failed attempts further left do not show in what a match records. */
  lemma Retry(l: Lists, l1: Lists, l2: Lists, p: seq<Item>, line: seq<byte>, i: nat)
    requires i <= |line| && Disturbed(l, l1, p) && Recorded(l1, l2, p, line, i)
    ensures Recorded(l, l2, p, line, i)
  {
    if Greedy(p, line, i).Some? {
      forall o
        ensures l2.Get(o) == Overlay(l.Get(o), MatchMarks(p, line, i, o))
      {
        MatchMarksKeys(p, line, i, o);
      }
    }
  }

  // ---------------------------------------------------------------------
  // Bracket lists
  // ---------------------------------------------------------------------

  /** `b` with the entries of `m` written over it. */
  ghost function Overlay(b: seq<nat>, m: map<nat, nat>): (r: seq<nat>)
    ensures |r| == |b|
  {
    seq(|b|, n requires 0 <= n < |b| => if n in m then m[n] else b[n])
  }

  ghost predicate SameOutside(b: seq<nat>, b': seq<nat>, s: set<nat>) {
    |b'| == |b| && forall n :: 0 <= n < |b| && n !in s ==> b'[n] == b[n]
  }

  /** The two bracket lists. */
  datatype Lists = Pair(opens: seq<nat>, closes: seq<nat>)
  {
    ghost function Get(opening: bool): seq<nat> { if opening then opens else closes }
  }

  ghost predicate Outcome(ok: bool, end: nat, p: seq<Item>, line: seq<byte>, i: nat)
    requires i <= |line|
  {
    var m := Greedy(p, line, i);
    (ok <==> m.Some?) && (ok ==> end == m.value.end)
  }

  /** Entries for brackets that do not occur in `p` are as before. */
  ghost predicate Disturbed(l: Lists, l': Lists, p: seq<Item>) {
    forall o :: SameOutside(l.Get(o), l'.Get(o), Brackets(p, o))
  }

  /** The effect of one item on the lists. */
  ghost predicate LeavesMark(l: Lists, l': Lists, it: Item, i: nat) {
    forall o :: l'.Get(o) == Overlay(l.Get(o), OwnMark(it, i, o))
  }

  lemma NoMark(l: Lists, it: Item, i: nat)
    requires !it.Bra? && !it.Ket?
    ensures LeavesMark(l, l, it, i)
  {
  }

  /** A successful match leaves its marks and no others; a failed one disturbs only brackets of the pattern. */
  ghost predicate Recorded(l: Lists, l': Lists, p: seq<Item>, line: seq<byte>, i: nat)
    requires i <= |line|
  {
    && Disturbed(l, l', p)
    && (Greedy(p, line, i).Some? ==> forall o :: l'.Get(o) == Overlay(l.Get(o), MatchMarks(p, line, i, o)))
  }

  /** On the way through `p`, with `q` still to do. */
  ghost predicate Halfway(l: Lists, l': Lists, p: seq<Item>, i: nat, q: seq<Item>, i': nat, line: seq<byte>)
    requires i <= |line| && i' <= |line|
  {
    && Disturbed(l, l', p) && (forall o :: Brackets(q, o) <= Brackets(p, o))
    && (Greedy(p, line, i).Some? ==> forall o ::
          Overlay(l'.Get(o), MatchMarks(q, line, i', o)) == Overlay(l.Get(o), MatchMarks(p, line, i, o)))
  }

  lemma Finish(l: Lists, l1: Lists, l2: Lists, p: seq<Item>, i: nat, q: seq<Item>, i': nat, line: seq<byte>)
    requires i <= |line| && i' <= |line| && Greedy(p, line, i) == Greedy(q, line, i')
    requires Halfway(l, l1, p, i, q, i', line) && Recorded(l1, l2, q, line, i')
    ensures Recorded(l, l2, p, line, i)
  {
  }

  /** One plain operation moves the marker on and keeps what is recorded. */
  lemma StepOn(l: Lists, l1: Lists, l2: Lists, p: seq<Item>, i: nat, q: seq<Item>, i1: nat, i2: nat, line: seq<byte>)
    requires i <= |line| && i1 <= |line| && q != [] && !q[0].Star? && ValidItem(q[0])
    requires i2 == (if q[0].One? then i1 + 1 else i1) <= |line|
    requires Greedy(p, line, i) == Greedy(q, line, i1) == Greedy(q[1..], line, i2)
    requires Halfway(l, l1, p, i, q, i1, line) && LeavesMark(l1, l2, q[0], i1)
    ensures Halfway(l, l2, p, i, q[1..], i2, line)
  {
    if Greedy(p, line, i).Some? {
      forall o
        ensures Overlay(l2.Get(o), MatchMarks(q[1..], line, i2, o)) == Overlay(l1.Get(o), MatchMarks(q, line, i1, o))
      {
        StepMarks(q, line, i1, i2, o);
        var own, rest := OwnMark(q[0], i1, o), MatchMarks(q[1..], line, i2, o);
        assert Overlay(Overlay(l1.Get(o), own), rest) == Overlay(l1.Get(o), own + rest);
      }
    }
  }

  /** One attempt at the rest of a pattern behind a star. */
  lemma StarAttempt(l: Lists, l1: Lists, l2: Lists, q: seq<Item>, line: seq<byte>, i: nat, i': nat)
    requires q != [] && q[0].Star? && i <= i' <= |line|
    requires Disturbed(l, l1, q) && Recorded(l1, l2, q[1..], line, i')
    requires Greedy(q, line, i) == Backtrack(q, line, i, i' - i)
    ensures Disturbed(l, l2, q)
    ensures var m := Greedy(q[1..], line, i');
      if m.Some? then Recorded(l, l2, q, line, i) && Greedy(q, line, i).Some?
        && Greedy(q, line, i).value.end == m.value.end
      else if i' == i then Greedy(q, line, i).None?
      else Greedy(q, line, i) == Backtrack(q, line, i, i' - 1 - i)
  {
    if Greedy(q[1..], line, i').Some? {
      forall o
        ensures l2.Get(o) == Overlay(l.Get(o), MatchMarks(q, line, i, o))
      {
        MatchMarksKeys(q[1..], line, i', o);
        var m := Greedy(q[1..], line, i').value;
        assert ([i' - i] + m.ks)[1..] == m.ks;
        assert MatchMarks(q, line, i, o) == MatchMarks(q[1..], line, i', o);
      }
    }
  }

  /** The mark that one item leaves by itself. */
  ghost function OwnMark(it: Item, i: nat, opening: bool): map<nat, nat> {
    if opening && it.Bra? then map[it.n := i]
    else if !opening && it.Ket? then map[it.n := i]
    else map[]
  }

  lemma StepMarks(q: seq<Item>, line: seq<byte>, i: nat, i': nat, opening: bool)
    requires q != [] && !q[0].Star? && i <= |line| && i' == (if q[0].One? then i + 1 else i) <= |line|
    requires Greedy(q, line, i).Some? && Greedy(q, line, i) == Greedy(q[1..], line, i')
    ensures MatchMarks(q, line, i, opening) == OwnMark(q[0], i, opening) + MatchMarks(q[1..], line, i', opening)
  {
  }
}
