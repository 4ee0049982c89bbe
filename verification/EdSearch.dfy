/** Compiling a pattern and looking for it in a line. */
module EdSearch {
  import opened Common
  import opened EdPattern
  import opened EdCode
  import opened EdSyntax
  import opened EdCompile
  import opened Ed

  /** A match of the typed pattern at `i`: at the start of the line only, if the pattern starts with `^`. */
  ghost predicate Hit(caret: bool, p: seq<Item>, line: seq<byte>, i: nat) {
    MatchesAt(p, line, i) && (caret ==> i == 0)
  }

  ghost predicate AnyHit(caret: bool, p: seq<Item>, line: seq<byte>) { exists i: nat :: Hit(caret, p, line, i) }

  ghost predicate FirstHit(caret: bool, p: seq<Item>, line: seq<byte>, i: nat) {
    Hit(caret, p, line, i) && forall j: nat | Hit(caret, p, line, j) :: i <= j
  }

  /** Of all ways to match at `i`, this one takes the most of each star in turn. */
  ghost predicate Greediest(p: seq<Item>, line: seq<byte>, i: nat, ks: seq<nat>, j: nat) {
    && i <= |line| && Path(p, line, i, ks, j)
    && forall ks': seq<nat>, j': nat | Path(p, line, i, ks', j') :: LexAtLeast(ks, ks')
  }

  lemma HitIffMatch(caret: bool, p: seq<Item>, line: seq<byte>)
    ensures AnyHit(caret, p, line) <==> if caret then MatchesAt(p, line, 0) else exists i: nat :: MatchesAt(p, line, i)
  {
    if !caret {
      forall i: nat | MatchesAt(p, line, i)
        ensures AnyHit(caret, p, line)
      {
        assert Hit(caret, p, line, i);
      }
    } else if MatchesAt(p, line, 0) {
      assert Hit(caret, p, line, 0);
    }
  }

  lemma GreedyIsGreediest(p: seq<Item>, line: seq<byte>, i: nat)
    requires i <= |line| && Greedy(p, line, i).Some?
    ensures var m := Greedy(p, line, i).value; Greediest(p, line, i, m.ks, m.end)
  {
    var m := Greedy(p, line, i).value;
    GreedyIsPath(p, line, i);
    forall ks': seq<nat>, j: nat | Path(p, line, i, ks', j)
      ensures LexAtLeast(m.ks, ks')
    {
      GreedyIsGreatest(p, line, i, ks', j);
    }
  }

  /**
   * `compile` followed by `execute` with `gf` zero. When the input holds a pattern that fits the
   * buffer, the line is searched for just that pattern: the search succeeds if and only if it
   * matches somewhere, and reports the leftmost match, with the greediest star counts in order.
   */
  method Search(m: Matcher, inp: seq<byte>, start: nat, eof: byte, ghost line: seq<byte>, ghost pat: Plan)
    returns (compiled: bool, found: bool, ghost syms: seq<Sym>, ghost ks: seq<nat>)
    requires m.expbuf.Length == ESIZE + 4 && m.LineReady(line)
    requires start < |inp| && inp[start] != eof && 0 !in inp
    requires pat.Plan? ==>
      IsPattern(inp, start, inp[start] == CARET, pat.rest, pat.end, eof)
      && Length(ItemsOf(pat.rest)) < ESIZE
    modifies m, m.expbuf, m.braslist, m.braelist
    ensures pat.Plan? ==> compiled && syms == pat.rest
    ensures compiled ==> CanApplyAll(START, syms) && (found <==> AnyHit(inp[start] == CARET, ItemsOf(syms), line))
    ensures compiled && found ==> FirstHit(inp[start] == CARET, ItemsOf(syms), line, m.loc1)
    ensures compiled && found ==> Greediest(ItemsOf(syms), line, m.loc1, ks, m.loc2)
  {
    var circfl, end;
    compiled, circfl, end, syms := Compile(m.expbuf, inp, start, eof, pat);
    found, ks := false, [];
    if !compiled {
      return;
    }
    m.circfl := circfl;
    ghost var p := ItemsOf(syms);
    found := m.Execute(p, line);
    HitIffMatch(circfl, p, line);
    if found {
      ks := Greedy(p, line, m.loc1).value.ks;
      GreedyIsGreediest(p, line, m.loc1);
    }
  }
}
