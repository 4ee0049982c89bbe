/** Initialisation functions and the dependencies they name. */
module InitGraph {

  /** One function: its name and the names it depends on. */
  datatype Entry = Entry(name: string, deps: seq<string>)

  type Table = seq<Entry>

  /** The first function with the given name. */
  ghost predicate Named(t: Table, name: string, g: nat) {
    g < |t| && t[g].name == name && forall j | 0 <= j < g :: t[j].name != name
  }

  /** The `k`-th dependency of `f` is `g`. */
  ghost predicate Edge(t: Table, f: nat, k: nat, g: nat) {
    f < |t| && k < |t[f].deps| && Named(t, t[f].deps[k], g)
  }

  ghost predicate Missing(t: Table, f: nat, k: nat) {
    f < |t| && k < |t[f].deps| && forall g | 0 <= g < |t| :: t[g].name != t[f].deps[k]
  }

  lemma EdgeUnique(t: Table, f: nat, k: nat, g: nat, h: nat)
    requires Edge(t, f, k, g) && Edge(t, f, k, h)
    ensures g == h
  {
  }

  // ---------------------------------------------------------------------
  // Reachability
  // ---------------------------------------------------------------------

  ghost predicate Leads(t: Table, f: nat, g: nat) { exists k: nat :: Edge(t, f, k, g) }

  ghost predicate Path(t: Table, p: seq<nat>) {
    && p != [] && (forall i | 0 <= i < |p| :: p[i] < |t|)
    && forall i | 0 <= i < |p| - 1 :: Leads(t, p[i], p[i + 1])
  }

  ghost predicate PathFrom(t: Table, p: seq<nat>, f: nat, g: nat) { Path(t, p) && p[0] == f && p[|p| - 1] == g }

  ghost predicate Reaches(t: Table, f: nat, g: nat) { exists p: seq<nat> :: PathFrom(t, p, f, g) }

  lemma ReachesItself(t: Table, f: nat)
    requires f < |t|
    ensures Reaches(t, f, f)
  {
    assert PathFrom(t, [f], f, f);
  }

  lemma ReachesOn(t: Table, r: nat, f: nat, k: nat, g: nat)
    requires Reaches(t, r, f) && Edge(t, f, k, g)
    ensures Reaches(t, r, g)
  {
    var p :| PathFrom(t, p, r, f);
    assert Leads(t, f, g);
    assert PathFrom(t, p + [g], r, g);
  }

  ghost predicate Closed(t: Table, s: set<nat>) { forall f, k, g | f in s && Edge(t, f, k, g) :: g in s }

  lemma {:induction false} PathStaysIn(t: Table, s: set<nat>, p: seq<nat>, n: nat)
    requires Closed(t, s) && Path(t, p) && p[0] in s && n < |p|
    ensures p[n] in s
  {
    if n > 0 {
      PathStaysIn(t, s, p, n - 1);
      assert Leads(t, p[n - 1], p[n - 1 + 1]);
    }
  }

  lemma ReachesStaysIn(t: Table, s: set<nat>, f: nat, g: nat)
    requires Closed(t, s) && f in s && Reaches(t, f, g)
    ensures g in s
  {
    var p :| PathFrom(t, p, f, g);
    PathStaysIn(t, s, p, |p| - 1);
  }

  // ---------------------------------------------------------------------
  // Which orders of calls are right
  // ---------------------------------------------------------------------

  /** Every call comes once, and after all the functions it depends on. */
  ghost predicate Ordered(t: Table, log: seq<nat>) {
    && (forall i | 0 <= i < |log| :: log[i] < |t|)
    && (forall i, j | 0 <= i < j < |log| :: log[i] != log[j])
    && (forall i, k | 0 <= i < |log| && 0 <= k < |t[log[i]].deps| :: Resolved(t, log, i, k))
  }

  /** The `k`-th dependency of the `i`-th call is an earlier call. */
  ghost predicate Resolved(t: Table, log: seq<nat>, i: nat, k: nat)
    requires i < |log|
  {
    exists j: nat :: j < i && Edge(t, log[i], k, log[j])
  }

  ghost predicate Complete(t: Table, log: seq<nat>) { Ordered(t, log) && forall f | 0 <= f < |t| :: f in log }

  /** A complete order exists only if no dependency is missing. */
  lemma OrderMeansNoneMissing(t: Table, log: seq<nat>, f: nat, k: nat)
    requires Complete(t, log) && f < |t| && k < |t[f].deps|
    ensures exists g: nat :: Edge(t, f, k, g)
  {
    assert f in log;
    var i :| 0 <= i < |log| && log[i] == f;
    assert Resolved(t, log, i, k);
  }

  /** Dependencies, and theirs in turn, come earlier in the order. */
  lemma {:induction false} PathGoesBack(t: Table, log: seq<nat>, p: seq<nat>, i: nat)
    requires Ordered(t, log) && Path(t, p) && i < |log| && log[i] == p[0]
    ensures exists j: nat :: j < |log| && log[j] == p[|p| - 1] && (|p| > 1 ==> j < i) && j <= i
    decreases |p|
  {
    if |p| > 1 {
      assert Leads(t, p[0], p[0 + 1]);
      var k: nat :| Edge(t, p[0], k, p[1]);
      assert Resolved(t, log, i, k);
      var j: nat :| j < i && Edge(t, log[i], k, log[j]);
      EdgeUnique(t, p[0], k, p[1], log[j]);
      var q := p[1..];
      forall x | 0 <= x < |q| - 1
        ensures Leads(t, q[x], q[x + 1])
      {
        assert Leads(t, p[x + 1], p[x + 1 + 1]);
      }
      PathGoesBack(t, log, q, j);
    }
  }

  /** A complete order exists only if no function depends on itself, directly or not. */
  lemma OrderMeansNoCycle(t: Table, log: seq<nat>, p: seq<nat>)
    requires Complete(t, log) && Path(t, p) && |p| > 1
    ensures p[0] != p[|p| - 1]
  {
    assert p[0] in log;
    var i :| 0 <= i < |log| && log[i] == p[0];
    PathGoesBack(t, log, p, i);
  }

  ghost predicate InLog(t: Table, log: seq<nat>, f: nat, k: nat) { exists g: nat :: g in log && Edge(t, f, k, g) }

  /** A function that has been called has had its dependencies called. */
  lemma LogHasDeps(t: Table, log: seq<nat>, f: nat, k: nat)
    requires Ordered(t, log) && f in log && k < |t[f].deps|
    ensures InLog(t, log, f, k)
  {
    var i :| 0 <= i < |log| && log[i] == f;
    assert Resolved(t, log, i, k);
  }

  lemma OrderedMore(t: Table, log: seq<nat>, f: nat)
    requires Ordered(t, log) && f < |t| && f !in log
    requires forall k: nat | k < |t[f].deps| :: InLog(t, log, f, k)
    ensures Ordered(t, log + [f])
  {
    var log' := log + [f];
    forall i, k | 0 <= i < |log'| && 0 <= k < |t[log'[i]].deps|
      ensures Resolved(t, log', i, k)
    {
      if i < |log| {
        assert Resolved(t, log, i, k);
        var j: nat :| j < i && Edge(t, log[i], k, log[j]);
        assert Edge(t, log'[i], k, log'[j]);
      } else {
        assert InLog(t, log, f, k);
        var g: nat :| g in log && Edge(t, f, k, g);
        var j :| 0 <= j < |log| && log[j] == g;
        assert Edge(t, log'[i], k, log'[j]);
      }
    }
  }

  /** The calls made so far are closed under dependency. */
  lemma OrderedIsClosed(t: Table, log: seq<nat>, s: set<nat>)
    requires Ordered(t, log) && forall f :: f in s <==> f in log
    ensures Closed(t, s)
  {
    forall f, k, g | f in s && Edge(t, f, k, g)
      ensures g in s
    {
      var i :| 0 <= i < |log| && log[i] == f;
      assert Resolved(t, log, i, k);
      var j: nat :| j < i && Edge(t, log[i], k, log[j]);
      EdgeUnique(t, f, k, g, log[j]);
    }
  }

  // ---------------------------------------------------------------------
  // When the search goes through
  // ---------------------------------------------------------------------

  /** `f` is reached from `r`, and from no function before `r` in the table. */
  ghost predicate Group(t: Table, r: nat, f: nat) {
    Reaches(t, r, f) && forall j: nat | j < r :: !Reaches(t, j, f)
  }

  /**
   * Something in the group of `r` is named twice within the group, or `r` itself is named there,
   * or a name is missing.
   */
  ghost predicate Defect(t: Table, r: nat) {
    || (exists f: nat, k: nat :: Group(t, r, f) && Missing(t, f, k))
    || (exists f: nat, k: nat :: Group(t, r, f) && Edge(t, f, k, r))
    || (exists f: nat, k: nat, f': nat, k': nat :: Twice(t, r, f, k, f', k'))
  }

  ghost predicate Twice(t: Table, r: nat, f: nat, k: nat, f': nat, k': nat) {
    && Group(t, r, f) && Group(t, r, f') && (f, k) != (f', k')
    && exists g: nat :: Edge(t, f, k, g) && Edge(t, f', k', g) && Group(t, r, g)
  }

  /** No group has a defect. */
  ghost predicate Tidy(t: Table) { forall r: nat | r < |t| && Group(t, r, r) :: !Defect(t, r) }

  ghost predicate HasMissing(t: Table) { exists f: nat, k: nat :: Missing(t, f, k) }

  ghost predicate IsCycle(t: Table, p: seq<nat>) { Path(t, p) && |p| > 1 && p[0] == p[|p| - 1] }

  ghost predicate HasCycle(t: Table) { exists p: seq<nat> :: IsCycle(t, p) }

  lemma OrderMeansSound(t: Table, log: seq<nat>)
    requires Complete(t, log)
    ensures !HasMissing(t) && !HasCycle(t)
  {
    forall f: nat, k: nat
      ensures !Missing(t, f, k)
    {
      if f < |t| && k < |t[f].deps| {
        OrderMeansNoneMissing(t, log, f, k);
      }
    }
    forall p: seq<nat>
      ensures !IsCycle(t, p)
    {
      if Path(t, p) && |p| > 1 {
        OrderMeansNoCycle(t, log, p);
      }
    }
  }

  const DIAMOND: Table := [Entry("a", ["b", "c"]), Entry("b", ["d"]), Entry("c", ["d"]), Entry("d", [])]

  ghost predicate Diamond(t: Table) {
    && |t| == 4 && |t[0].deps| == 2 && |t[1].deps| == 1 && |t[2].deps| == 1 && |t[3].deps| == 0
    && Edge(t, 0, 0, 1) && Edge(t, 0, 1, 2) && Edge(t, 1, 0, 3) && Edge(t, 2, 0, 3)
  }

  /** Two functions of one group that depend on a third are a defect, although a right order exists. */
  lemma DiamondIsRefused()
    ensures Complete(DIAMOND, [3, 1, 2, 0]) && !Tidy(DIAMOND)
  {
    assert Diamond(DIAMOND);
    DiamondInOrder(DIAMOND, [3, 1, 2, 0]);
    DiamondUntidy(DIAMOND);
  }

  lemma DiamondInOrder(t: Table, log: seq<nat>)
    requires Diamond(t) && log == [3, 1, 2, 0]
    ensures Complete(t, log)
  {
    forall i, k | 0 <= i < |log| && 0 <= k < |t[log[i]].deps|
      ensures Resolved(t, log, i, k)
    {
      assert Edge(t, log[i], k, log[if i < 3 then 0 else k + 1]);
    }
  }

  lemma DiamondUntidy(t: Table)
    requires Diamond(t)
    ensures !Tidy(t)
  {
    ReachesItself(t, 0);
    ReachesOn(t, 0, 0, 0, 1);
    ReachesOn(t, 0, 0, 1, 2);
    ReachesOn(t, 0, 1, 0, 3);
    assert Group(t, 0, 0) && Group(t, 0, 3);
    assert Twice(t, 0, 1, 0, 2, 0);
  }
}
