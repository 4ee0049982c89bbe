/** Patterns of the line editor: what they mean, and which match the greedy matcher picks. */
module EdPattern {
  import opened Common

  /** What matches a single character. */
  datatype Atom = Chr(c: byte) | Dot | Class(neg: bool, cs: seq<byte>)

  /** One operation of a compiled pattern. */
  datatype Item = One(a: Atom) | Star(a: Atom) | Bra(n: nat) | Ket(n: nat) | Dol

  predicate Accepts(a: Atom, c: byte) {
    match a
    case Chr(x) => c == x
    case Dot => c != 0
    case Class(neg, cs) => c != 0 && ((c in cs) != neg)
  }

  // ---------------------------------------------------------------------
  // Denotation
  // ---------------------------------------------------------------------

  /** `k` characters from `i` on are all accepted. */
  ghost predicate AcceptsRun(a: Atom, line: seq<byte>, i: nat, k: nat) {
    i + k <= |line| && forall x :: i <= x < i + k ==> Accepts(a, line[x])
  }

  /** Reading `p` from position `i`, with the `n`-th star repeated `ks[n]` times, ends at `j`. */
  ghost predicate Path(p: seq<Item>, line: seq<byte>, i: nat, ks: seq<nat>, j: nat)
    requires i <= |line|
    decreases |p|
  {
    if p == [] then ks == [] && i == j
    else
      match p[0]
      case One(a) => i < |line| && Accepts(a, line[i]) && Path(p[1..], line, i + 1, ks, j)
      case Star(a) => ks != [] && AcceptsRun(a, line, i, ks[0]) && Path(p[1..], line, i + ks[0], ks[1..], j)
      case Dol => i == |line| && Path(p[1..], line, i, ks, j)
      case Bra(_) => Path(p[1..], line, i, ks, j)
      case Ket(_) => Path(p[1..], line, i, ks, j)
  }

  /** The pattern matches the line from position `i` on. */
  ghost predicate MatchesAt(p: seq<Item>, line: seq<byte>, i: nat) {
    i <= |line| && exists ks: seq<nat>, j: nat :: Path(p, line, i, ks, j)
  }

  /** A single character, then the rest. */
  lemma {:induction false} OneThenRest(a: Atom, p: seq<Item>, line: seq<byte>, i: nat)
    ensures MatchesAt([One(a)] + p, line, i) <==> i < |line| && Accepts(a, line[i]) && MatchesAt(p, line, i + 1)
  {
    var q := [One(a)] + p;
    assert q[0] == One(a) && q[1..] == p;
    if MatchesAt(q, line, i) {
      var ks: seq<nat>, j: nat :| Path(q, line, i, ks, j);
      assert Path(p, line, i + 1, ks, j);
    } else if i < |line| && Accepts(a, line[i]) && MatchesAt(p, line, i + 1) {
      var ks: seq<nat>, j: nat :| Path(p, line, i + 1, ks, j);
      assert Path(q, line, i, ks, j);
    }
  }

  /** A class is a choice of its characters. */
  lemma {:induction false} ClassIsChoice(cs: seq<byte>, p: seq<Item>, line: seq<byte>, i: nat)
    requires 0 !in cs
    ensures MatchesAt([One(Class(false, cs))] + p, line, i)
        <==> exists k :: 0 <= k < |cs| && MatchesAt([One(Chr(cs[k]))] + p, line, i)
  {
    OneThenRest(Class(false, cs), p, line, i);
    forall k | 0 <= k < |cs|
      ensures MatchesAt([One(Chr(cs[k]))] + p, line, i) <==> i < |line| && line[i] == cs[k] && MatchesAt(p, line, i + 1)
    {
      OneThenRest(Chr(cs[k]), p, line, i);
    }
  }

  /** A negated class takes what a dot takes and the class does not. */
  lemma {:induction false} ClassOrNot(cs: seq<byte>, p: seq<Item>, line: seq<byte>, i: nat)
    ensures MatchesAt([One(Class(true, cs))] + p, line, i)
        <==> MatchesAt([One(Dot)] + p, line, i) && !MatchesAt([One(Class(false, cs))] + p, line, i)
    ensures MatchesAt([One(Dot)] + p, line, i) <==> i < |line| && line[i] != 0 && MatchesAt(p, line, i + 1)
  {
    OneThenRest(Class(true, cs), p, line, i);
    OneThenRest(Class(false, cs), p, line, i);
    OneThenRest(Dot, p, line, i);
  }

  /** Star counts in order: `a` is at least as greedy as `b`. */
  ghost predicate LexAtLeast(a: seq<nat>, b: seq<nat>) {
    if b == [] then true
    else if a == [] then false
    else a[0] > b[0] || (a[0] == b[0] && LexAtLeast(a[1..], b[1..]))
  }

  // ---------------------------------------------------------------------
  // The matcher as a function
  // ---------------------------------------------------------------------

  /** How far a star reaches at most. */
  ghost function RunLength(a: Atom, line: seq<byte>, i: nat): (k: nat)
    requires i <= |line|
    ensures i + k <= |line|
    decreases |line| - i
  {
    if i < |line| && Accepts(a, line[i]) then 1 + RunLength(a, line, i + 1) else 0
  }

  datatype Match = Match(ks: seq<nat>, end: nat)

  /** The first match found when every star tries its longest run first. */
  ghost function Greedy(p: seq<Item>, line: seq<byte>, i: nat): Option<Match>
    requires i <= |line|
    decreases |p|, 1, 0
  {
    if p == [] then Some(Match([], i))
    else
      match p[0]
      case One(a) => if i < |line| && Accepts(a, line[i]) then Greedy(p[1..], line, i + 1) else None
      case Star(a) => Backtrack(p, line, i, RunLength(a, line, i))
      case Dol => if i == |line| then Greedy(p[1..], line, i) else None
      case Bra(_) => Greedy(p[1..], line, i)
      case Ket(_) => Greedy(p[1..], line, i)
  }

  /** The rest of the pattern after `k`, `k - 1`, ... repetitions of the star at its head. */
  ghost function Backtrack(p: seq<Item>, line: seq<byte>, i: nat, k: nat): Option<Match>
    requires p != [] && i + k <= |line|
    decreases |p|, 0, k
  {
    var m := Greedy(p[1..], line, i + k);
    if m.Some? then Some(Match([k] + m.value.ks, m.value.end))
    else if k == 0 then None
    else Backtrack(p, line, i, k - 1)
  }

  // ---------------------------------------------------------------------
  // The matcher finds the greediest match, and misses none
  // ---------------------------------------------------------------------

  lemma {:induction false} RunLengthIsLongest(a: Atom, line: seq<byte>, i: nat, k: nat)
    requires i <= |line|
    ensures AcceptsRun(a, line, i, k) <==> k <= RunLength(a, line, i)
    decreases |line| - i
  {
    if k > 0 && i < |line| && Accepts(a, line[i]) {
      RunLengthIsLongest(a, line, i + 1, k - 1);
      assert AcceptsRun(a, line, i, k) <==> AcceptsRun(a, line, i + 1, k - 1);
    }
  }

  /** What the matcher returns is a match. */
  lemma {:induction false} GreedyIsPath(p: seq<Item>, line: seq<byte>, i: nat)
    requires i <= |line| && Greedy(p, line, i).Some?
    ensures var m := Greedy(p, line, i).value; m.end <= |line| && Path(p, line, i, m.ks, m.end)
    decreases |p|, 1, 0
  {
    if p != [] {
      match p[0]
      case One(a) => GreedyIsPath(p[1..], line, i + 1);
      case Star(a) => BacktrackIsPath(p, line, i, RunLength(a, line, i));
      case Dol => GreedyIsPath(p[1..], line, i);
      case Bra(_) => GreedyIsPath(p[1..], line, i);
      case Ket(_) => GreedyIsPath(p[1..], line, i);
    }
  }

  lemma {:induction false} BacktrackIsPath(p: seq<Item>, line: seq<byte>, i: nat, k: nat)
    requires p != [] && p[0].Star? && i + k <= |line| && k <= RunLength(p[0].a, line, i)
    requires Backtrack(p, line, i, k).Some?
    ensures var m := Backtrack(p, line, i, k).value; m.end <= |line| && Path(p, line, i, m.ks, m.end)
    decreases |p|, 0, k
  {
    var m := Greedy(p[1..], line, i + k);
    if m.Some? {
      GreedyIsPath(p[1..], line, i + k);
      RunLengthIsLongest(p[0].a, line, i, k);
      assert ([k] + m.value.ks)[1..] == m.value.ks;
    } else {
      BacktrackIsPath(p, line, i, k - 1);
    }
  }

  /** No match is missed, and none is greedier. */
  lemma {:induction false} GreedyIsGreatest(p: seq<Item>, line: seq<byte>, i: nat, ks: seq<nat>, j: nat)
    requires i <= |line| && Path(p, line, i, ks, j)
    ensures Greedy(p, line, i).Some? && LexAtLeast(Greedy(p, line, i).value.ks, ks)
    decreases |p|, 1, 0
  {
    if p != [] {
      match p[0]
      case One(a) => GreedyIsGreatest(p[1..], line, i + 1, ks, j);
      case Star(a) =>
        RunLengthIsLongest(a, line, i, ks[0]);
        BacktrackIsGreatest(p, line, i, RunLength(a, line, i), ks, j);
      case Dol => GreedyIsGreatest(p[1..], line, i, ks, j);
      case Bra(_) => GreedyIsGreatest(p[1..], line, i, ks, j);
      case Ket(_) => GreedyIsGreatest(p[1..], line, i, ks, j);
    }
  }

  lemma {:induction false} BacktrackIsGreatest(p: seq<Item>, line: seq<byte>, i: nat, k: nat, ks: seq<nat>, j: nat)
    requires p != [] && p[0].Star? && i + k <= |line| && Path(p, line, i, ks, j) && ks[0] <= k
    ensures Backtrack(p, line, i, k).Some? && LexAtLeast(Backtrack(p, line, i, k).value.ks, ks)
    decreases |p|, 0, k
  {
    if ks[0] == k {
      GreedyIsGreatest(p[1..], line, i + k, ks[1..], j);
      var m := Greedy(p[1..], line, i + k).value;
      assert ([k] + m.ks)[1..] == m.ks;
    } else if Greedy(p[1..], line, i + k).None? {
      BacktrackIsGreatest(p, line, i, k - 1, ks, j);
    }
  }

  /** The matcher succeeds exactly where the pattern matches. */
  lemma GreedyIffMatches(p: seq<Item>, line: seq<byte>, i: nat)
    requires i <= |line|
    ensures Greedy(p, line, i).Some? <==> MatchesAt(p, line, i)
  {
    if Greedy(p, line, i).Some? {
      GreedyIsPath(p, line, i);
      var m := Greedy(p, line, i).value;
      assert Path(p, line, i, m.ks, m.end);
    }
    if MatchesAt(p, line, i) {
      var ks: seq<nat>, j: nat :| Path(p, line, i, ks, j);
      GreedyIsGreatest(p, line, i, ks, j);
    }
  }

  /** The star counts fix where the match ends. */
  lemma {:induction false} PathEndUnique(p: seq<Item>, line: seq<byte>, i: nat, ks: seq<nat>, j: nat, j': nat)
    requires i <= |line| && Path(p, line, i, ks, j) && Path(p, line, i, ks, j')
    ensures j == j'
    decreases |p|
  {
    if p != [] {
      match p[0]
      case One(a) => PathEndUnique(p[1..], line, i + 1, ks, j, j');
      case Star(a) => PathEndUnique(p[1..], line, i + ks[0], ks[1..], j, j');
      case Dol => PathEndUnique(p[1..], line, i, ks, j, j');
      case Bra(_) => PathEndUnique(p[1..], line, i, ks, j, j');
      case Ket(_) => PathEndUnique(p[1..], line, i, ks, j, j');
    }
  }
}
