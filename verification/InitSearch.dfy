/** What holds while the initialisation functions are searched depth first. */
module InitSearch {
  import opened InitGraph

  /**
   * For each function the number of the last search that came by, and whether it has been called;
   * the calls made; and the dependency through which the current search found a function.
   */
  datatype State = State(search: seq<nat>, called: seq<bool>, log: seq<nat>, parent: map<nat, (nat, nat)>)

  ghost predicate Valid(t: Table, s: State) {
    && |s.search| == |s.called| == |t| && Ordered(t, s.log)
    && forall f | 0 <= f < |t| :: s.called[f] <==> f in s.log
  }

  predicate Marked(s: State, f: nat, id: nat) { f < |s.search| && s.search[f] == id }

  predicate Called(s: State, f: nat) { f < |s.called| && s.called[f] }

  /** `g` is not the root, and it was found through the `k`-th dependency of `f`. */
  ghost predicate Only(s: State, r: nat, f: nat, k: nat, g: nat) { g != r && g in s.parent && s.parent[g] == (f, k) }

  ghost predicate FoundBy(t: Table, s: State, g: nat, id: nat)
    requires g in s.parent
  {
    Marked(s, g, id) && Marked(s, s.parent[g].0, id) && Edge(t, s.parent[g].0, s.parent[g].1, g)
  }

  /** `before` is what the functions ahead of `r` reach. */
  ghost predicate ReachedBefore(t: Table, r: nat, before: set<nat>) {
    && (forall j: nat, x: nat | j < r && Reaches(t, j, x) :: x in before)
    && (forall x: nat | x in before :: exists j: nat :: j < r && Reaches(t, j, x))
  }

  /** Search number `id` is going on from `r`; `before` had been called when it began. */
  ghost predicate Searching(t: Table, s: State, r: nat, id: nat, before: set<nat>) {
    Valid(t, s) && Marks(t, s, r, id, before) && Tree(t, s, r, id)
  }

  /** Marks are on functions of the group, and calls are old or of marked functions. */
  ghost predicate Marks(t: Table, s: State, r: nat, id: nat, before: set<nat>) {
    && Marked(s, r, id)
    && (forall f: nat | f in before :: Called(s, f) && !Marked(s, f, id))
    && (forall f: nat | Called(s, f) :: f in before || Marked(s, f, id))
    && (forall f: nat | Marked(s, f, id) :: Group(t, r, f))
  }

  /** Each marked function but the root was found once, and calls are complete. */
  ghost predicate Tree(t: Table, s: State, r: nat, id: nat) {
    && (forall f: nat | Marked(s, f, id) :: f == r || f in s.parent)
    && (forall g: nat | g in s.parent :: FoundBy(t, s, g, id))
    && (forall f: nat, k: nat, g: nat | Marked(s, f, id) && Called(s, f) && Edge(t, f, k, g) && Marked(s, g, id) ::
      Only(s, r, f, k, g))
  }

  /** What a call of `f` may change. */
  ghost predicate Grown(s: State, s': State, id: nat, f: nat) {
    && |s'.search| == |s.search| && |s'.called| == |s.called|
    && (forall x | 0 <= x < |s.search| :: s'.search[x] == s.search[x] || s'.search[x] == id)
    && (forall x: nat | Called(s, x) :: Called(s', x))
    && (forall x: nat | Called(s', x) && !Called(s, x) && x != f :: !Marked(s, x, id))
    && (forall x: nat | Marked(s', x, id) && !Marked(s, x, id) :: Called(s', x))
    && (forall g: nat | g in s.parent :: g in s'.parent && s'.parent[g] == s.parent[g])
    && (forall g: nat | g in s'.parent && g !in s.parent && s'.parent[g].0 != f :: !Marked(s, s'.parent[g].0, id))
  }

  /** The `j`-th dependency of `f` has been called, and not found in any other way if it was found in this search. */
  ghost predicate DepDone(t: Table, s: State, r: nat, id: nat, f: nat, j: nat) {
    exists g: nat :: Edge(t, f, j, g) && Called(s, g) && (Marked(s, g, id) ==> Only(s, r, f, j, g))
  }

  /** The first `k` dependencies of `f` have been dealt with. */
  ghost predicate Half(t: Table, s0: State, s: State, r: nat, id: nat, before: set<nat>, f: nat, k: nat) {
    && Searching(t, s, r, id, before) && Marked(s, f, id) && !Called(s, f) && Grown(s0, s, id, f)
    && (forall j: nat | j < k :: DepDone(t, s, r, id, f, j))
    && (forall g: nat | g in s.parent && s.parent[g].0 == f :: s.parent[g].1 < k)
  }

  // ---------------------------------------------------------------------
  // The steps
  // ---------------------------------------------------------------------

  function Mark(s: State, g: nat, id: nat, from: (nat, nat)): State
    requires g < |s.search|
  {
    s.(search := s.search[g := id], parent := s.parent[g := from])
  }

  /** What a search finds and has not been called before belongs to its group. */
  lemma FoundInGroup(t: Table, r: nat, before: set<nat>, f: nat, k: nat, g: nat)
    requires ReachedBefore(t, r, before) && Group(t, r, f) && Edge(t, f, k, g) && g !in before
    ensures Group(t, r, g)
  {
    ReachesOn(t, r, f, k, g);
  }

  /** A function found for the first time. */
  lemma MarkKeeps(t: Table, s: State, r: nat, id: nat, before: set<nat>, f: nat, k: nat, g: nat)
    requires Searching(t, s, r, id, before) && ReachedBefore(t, r, before)
    requires Marked(s, f, id) && Edge(t, f, k, g) && !Called(s, g) && !Marked(s, g, id)
    ensures Searching(t, Mark(s, g, id, (f, k)), r, id, before)
  {
    FoundInGroup(t, r, before, f, k, g);
    MarkKeepsMarks(t, s, r, id, before, g, (f, k));
    MarkKeepsTree(t, s, r, id, f, k, g);
  }

  lemma MarkKeepsMarks(t: Table, s: State, r: nat, id: nat, before: set<nat>, g: nat, from: (nat, nat))
    requires Marks(t, s, r, id, before) && Group(t, r, g) && g < |s.search| && !Called(s, g)
    ensures Marks(t, Mark(s, g, id, from), r, id, before)
  {
    var s' := Mark(s, g, id, from);
    assert forall x: nat :: Marked(s', x, id) <==> Marked(s, x, id) || x == g;
    assert forall x: nat :: Called(s', x) <==> Called(s, x);
  }

  lemma MarkKeepsTree(t: Table, s: State, r: nat, id: nat, f: nat, k: nat, g: nat)
    requires Valid(t, s) && Tree(t, s, r, id) && Marked(s, r, id)
    requires Marked(s, f, id) && Edge(t, f, k, g) && !Called(s, g) && !Marked(s, g, id)
    ensures Tree(t, Mark(s, g, id, (f, k)), r, id)
  {
    var s' := Mark(s, g, id, (f, k));
    assert forall x: nat :: Marked(s', x, id) <==> Marked(s, x, id) || x == g;
    assert forall x: nat :: Called(s', x) <==> Called(s, x);
    forall h: nat | h in s'.parent
      ensures FoundBy(t, s', h, id)
    {
      assert h != g ==> FoundBy(t, s, h, id);
    }
    forall f': nat, k': nat, h: nat | Marked(s', f', id) && Called(s', f') && Edge(t, f', k', h) && Marked(s', h, id)
      ensures Only(s', r, f', k', h)
    {
      CalledHasCalledDep(t, s, f', k', h);
      assert Only(s, r, f', k', h);
    }
  }

  lemma CalledHasCalledDep(t: Table, s: State, f: nat, k: nat, g: nat)
    requires Valid(t, s) && Called(s, f) && Edge(t, f, k, g)
    ensures Called(s, g)
  {
    LogHasDeps(t, s.log, f, k);
    var x: nat :| x in s.log && Edge(t, f, k, x);
    EdgeUnique(t, f, k, g, x);
  }

  /** The search may call a function that it finds, and go on. */
  lemma FoundAndCalled(t: Table, s0: State, s: State, s1: State, s2: State, r: nat, id: nat, before: set<nat>,
    f: nat, k: nat, g: nat)
    requires Half(t, s0, s, r, id, before, f, k) && Edge(t, f, k, g) && !Called(s, g) && !Marked(s, g, id)
    requires s1 == Mark(s, g, id, (f, k))
    requires Searching(t, s2, r, id, before) && Called(s2, g) && Grown(s1, s2, id, g)
    ensures Half(t, s0, s2, r, id, before, f, k + 1)
  {
    StillOpen(s, s1, s2, id, f, k, g);
    DepDoneNow(t, s1, s2, r, id, f, k, g);
    DepsKept(t, s, s1, s2, r, id, before, f, k, g);
    ParentsBelow(t, s, s1, s2, id, f, k, g);
    GrownTwice(s0, s, s1, s2, id, f, g, k);
  }

  lemma StillOpen(s: State, s1: State, s2: State, id: nat, f: nat, k: nat, g: nat)
    requires g < |s.search| && s1 == Mark(s, g, id, (f, k)) && Grown(s1, s2, id, g)
    requires Marked(s, f, id) && !Called(s, f) && !Marked(s, g, id)
    ensures f != g && Marked(s2, f, id) && !Called(s2, f) && g in s1.parent && s1.parent[g] == (f, k)
  {
    assert Marked(s1, f, id) && !Called(s1, f);
  }

  lemma DepsKept(t: Table, s: State, s1: State, s2: State, r: nat, id: nat, before: set<nat>, f: nat, k: nat, g: nat)
    requires Marks(t, s, r, id, before) && Marks(t, s2, r, id, before) && g < |s.search| && !Called(s, g)
    requires s1 == Mark(s, g, id, (f, k)) && Grown(s1, s2, id, g)
    requires forall j: nat | j < k :: DepDone(t, s, r, id, f, j)
    ensures forall j: nat | j < k :: DepDone(t, s2, r, id, f, j)
  {
    forall j: nat | j < k
      ensures DepDone(t, s2, r, id, f, j)
    {
      DepKept(t, s, s1, s2, r, id, before, f, k, g, j);
    }
  }

  lemma DepDoneNow(t: Table, s1: State, s2: State, r: nat, id: nat, f: nat, k: nat, g: nat)
    requires Edge(t, f, k, g) && Called(s2, g) && g != r && g in s1.parent && s1.parent[g] == (f, k)
      && Grown(s1, s2, id, g)
    ensures DepDone(t, s2, r, id, f, k)
  {
    assert Only(s2, r, f, k, g);
  }

  /** A dependency that has been dealt with stays so. */
  lemma DepKept(t: Table, s: State, s1: State, s2: State, r: nat, id: nat, before: set<nat>, f: nat, k: nat, g: nat,
    j: nat)
    requires Marks(t, s, r, id, before) && Marks(t, s2, r, id, before) && g < |s.search| && !Called(s, g)
    requires s1 == Mark(s, g, id, (f, k)) && DepDone(t, s, r, id, f, j) && Grown(s1, s2, id, g)
    ensures DepDone(t, s2, r, id, f, j)
  {
    var h: nat :| Edge(t, f, j, h) && Called(s, h) && (Marked(s, h, id) ==> Only(s, r, f, j, h));
    assert Called(s1, h) && h != g && Called(s2, h);
    if Marked(s2, h, id) {
      assert Only(s, r, f, j, h) && h in s1.parent;
      assert Only(s2, r, f, j, h);
    }
  }

  lemma ParentsBelow(t: Table, s: State, s1: State, s2: State, id: nat, f: nat, k: nat, g: nat)
    requires forall h: nat | h in s.parent && s.parent[h].0 == f :: s.parent[h].1 < k
    requires g < |s.search| && f != g && Marked(s, f, id) && s1 == Mark(s, g, id, (f, k)) && Grown(s1, s2, id, g)
    ensures forall h: nat | h in s2.parent && s2.parent[h].0 == f :: s2.parent[h].1 < k + 1
  {
    forall h: nat | h in s2.parent && s2.parent[h].0 == f
      ensures s2.parent[h].1 < k + 1
    {
      assert Marked(s1, f, id);
      assert h in s1.parent;
    }
  }

  lemma GrownTwice(s0: State, s: State, s1: State, s2: State, id: nat, f: nat, g: nat, k: nat)
    requires Grown(s0, s, id, f) && g < |s.search| && !Marked(s, g, id) && g !in s.parent
    requires s1 == Mark(s, g, id, (f, k)) && Grown(s1, s2, id, g) && Called(s2, g)
    requires |s.search| == |s.called|
    ensures Grown(s0, s2, id, f)
  {
    forall x: nat | Called(s2, x) && !Called(s0, x) && x != f
      ensures !Marked(s0, x, id)
    {
      assert Marked(s0, x, id) ==> Marked(s, x, id) && Marked(s1, x, id);
      assert Called(s, x) <==> Called(s1, x);
    }
    forall x: nat | Marked(s2, x, id) && !Marked(s0, x, id)
      ensures Called(s2, x)
    {
      assert Called(s, x) <==> Called(s1, x);
      assert Marked(s1, x, id) <==> Marked(s, x, id) || x == g;
    }
  }

  /** All dependencies have been dealt with, and `f` itself is called. */
  lemma FinishKeeps(t: Table, s0: State, s: State, r: nat, id: nat, before: set<nat>, f: nat, s': State)
    requires f < |t| && Half(t, s0, s, r, id, before, f, |t[f].deps|)
    requires s' == s.(called := s.called[f := true], log := s.log + [f])
    ensures Searching(t, s', r, id, before) && Called(s', f) && Grown(s0, s', id, f)
  {
    forall k: nat | k < |t[f].deps|
      ensures InLog(t, s.log, f, k)
    {
      assert DepDone(t, s, r, id, f, k);
    }
    OrderedMore(t, s.log, f);
    assert forall x: nat :: Called(s', x) <==> Called(s, x) || x == f;
    assert forall x: nat :: Marked(s', x, id) <==> Marked(s, x, id);
    FinishKeepsTree(t, s, r, id, f, s');
  }

  lemma FinishKeepsTree(t: Table, s: State, r: nat, id: nat, f: nat, s': State)
    requires Tree(t, s, r, id) && f < |t| && forall j: nat | j < |t[f].deps| :: DepDone(t, s, r, id, f, j)
    requires s'.search == s.search && s'.parent == s.parent && forall x: nat :: Called(s', x) <==>
      Called(s, x) || x == f
    ensures Tree(t, s', r, id)
  {
    assert forall x: nat :: Marked(s', x, id) <==> Marked(s, x, id);
    forall g: nat | g in s'.parent
      ensures FoundBy(t, s', g, id)
    {
      assert FoundBy(t, s, g, id);
    }
    forall f': nat, k': nat, h: nat | Marked(s', f', id) && Called(s', f') && Edge(t, f', k', h) && Marked(s', h, id)
      ensures Only(s', r, f', k', h)
    {
      if f' == f {
        assert DepDone(t, s, r, id, f, k');
        var x: nat :| Edge(t, f, k', x) && Called(s, x) && (Marked(s, x, id) ==> Only(s, r, f, k', x));
        EdgeUnique(t, f, k', h, x);
      } else {
        assert Only(s, r, f', k', h);
      }
    }
  }
}
