/** Calling the initialisation functions in dependency order. */
module Init {
  import opened Common
  import opened InitGraph
  import opened InitSearch

  class Initializer {
    const table: Table
    var search: seq<nat>
    var called: seq<bool>
    var count: nat
    /** The calls made so far. */
    var log: seq<nat>
    ghost var parent: map<nat, (nat, nat)>

    constructor (t: Table)
      ensures table == t && search == seq(|t|, _ => 0) && called == seq(|t|, _ => false) && count == 0 && log == []
    {
      table, search, called, count, log, parent := t, seq(|t|, _ => 0), seq(|t|, _ => false), 0, [], map[];
    }

    ghost function Now(): State
      reads this
    {
      State(search, called, log, parent)
    }

    /** Look a name up. */
    method Find(name: string) returns (r: Option<nat>)
      ensures r.Some? ==> Named(table, name, r.value)
      ensures r.None? ==> forall g | 0 <= g < |table| :: table[g].name != name
    {
      var i := 0;
      while i < |table|
        invariant 0 <= i <= |table| && forall g | 0 <= g < i :: table[g].name != name
      {
        if table[i].name == name {
          return Some(i);
        }
        i := i + 1;
      }
      r := None;
    }

    /** `_init_call`: call `f` after everything it depends on, or give up on a defect of the group. */
    method Call(f: nat, ghost r: nat, ghost id: nat, ghost before: set<nat>) returns (ok: bool)
      requires Half(table, Now(), Now(), r, id, before, f, 0) && ReachedBefore(table, r, before)
      modifies this`search, this`called, this`log, this`parent
      ensures ok ==> Searching(table, Now(), r, id, before) && Called(Now(), f) && Grown(old(Now()), Now(), id, f)
      ensures !ok ==> Defect(table, r)
      decreases Unmarked(search, id), 1
    {
      ghost var s0 := Now();
      var k := 0;
      while k < |table[f].deps|
        invariant 0 <= k <= |table[f].deps| && Half(table, s0, Now(), r, id, before, f, k)
        invariant Unmarked(search, id) <= old(Unmarked(search, id))
      {
        ok := Depend(f, k, r, id, before, s0);
        if !ok {
          return;
        }
        k := k + 1;
      }
      ghost var s := Now();
      called := called[f := true];
      log := log + [f];
      FinishKeeps(table, s0, s, r, id, before, f, Now());
      ok := true;
    }

    /** One dependency of `f`. */
    method Depend(f: nat, k: nat, ghost r: nat, ghost id: nat, ghost before: set<nat>, ghost s0: State)
      returns (ok: bool)
      requires Half(table, s0, Now(), r, id, before, f, k) && ReachedBefore(table, r, before) && k < |table[f].deps|
      modifies this`search, this`called, this`log, this`parent
      ensures ok ==>
        Half(table, s0, Now(), r, id, before, f, k + 1)
        && Unmarked(search, id) <= old(Unmarked(search, id))
      ensures !ok ==> Defect(table, r)
      decreases Unmarked(search, id), 0
    {
      ghost var s := Now();
      var d := Find(table[f].deps[k]);
      if d.None? {
        assert Missing(table, f, k);
        return false;
      }
      var g := d.value;
      assert Edge(table, f, k, g);
      if search[f] == search[g] {
        FoundAgain(table, s0, s, r, id, before, f, k, g);
        return false;
      }
      if !called[g] {
        search := search[g := search[f]];
        parent := parent[g := (f, k)];
        ghost var s1 := Now();
        FoundNew(table, s0, s, s1, r, id, before, f, k, g);
        ok := Call(g, r, id, before);
        if ok {
          NoMoreUnmarked(s1, Now(), id, g);
          FoundAndCalled(table, s0, s, s1, Now(), r, id, before, f, k, g);
        }
      } else {
        AlreadyCalled(table, s0, s, r, id, before, f, k, g);
        ok := true;
      }
    }

    /**
     * `init_call_all`: every function is called once, after its dependencies; the calls stop
     * early if a group has a defect.
     */
    method CallAll() returns (ok: bool)
      requires search == seq(|table|, _ => 0) && called == seq(|table|, _ => false) && count == 0 && log == []
      modifies this
      ensures ok <==> Tidy(table)
      ensures ok ==> Complete(table, log)
      ensures HasMissing(table) || HasCycle(table) ==> !ok
    {
      var i := 0;
      while i < |table|
        invariant 0 <= i <= |table| && Between(table, Now(), i, count)
      {
        if called[i] {
          SkipSearch(table, Now(), i, count);
        } else {
          ok := Search(i);
          if !ok {
            return;
          }
        }
        i := i + 1;
      }
      AllCalled(table, Now(), count);
      OrderMeansSound(table, log);
      ok := true;
    }

    /** One search, from a function not called so far. */
    method Search(i: nat) returns (ok: bool)
      requires i < |table| && Between(table, Now(), i, count) && !called[i]
      modifies this
      ensures ok ==> Between(table, Now(), i + 1, count)
      ensures !ok ==> Group(table, i, i) && Defect(table, i)
    {
      ghost var s, c := Now(), count;
      count := count + 1;
      search := search[i := count];
      parent := map[];
      ghost var s1 := Now();
      BeginSearch(table, s, s1, i, c, count);
      ok := Call(i, i, count, CalledSet(s));
      if ok {
        EndSearch(table, s, s1, Now(), i, c, count);
      }
    }
  }

  // ---------------------------------------------------------------------
  // From one search to the next
  // ---------------------------------------------------------------------

  ghost function CalledSet(s: State): set<nat> { set f | 0 <= f < |s.called| && s.called[f] }

  /**
   * Between searches: what has been called is what the functions so far reach, and none of their
   * groups has a defect.
   */
  ghost predicate Between(t: Table, s: State, i: nat, count: nat) {
    && Valid(t, s) && (forall f | 0 <= f < |s.search| :: s.search[f] <= count)
    && ReachedBefore(t, i, CalledSet(s)) && forall q: nat | q < i && Group(t, q, q) :: !Defect(t, q)
  }

  lemma AllCalled(t: Table, s: State, count: nat)
    requires Between(t, s, |t|, count)
    ensures Tidy(t) && Complete(t, s.log)
  {
    forall f | 0 <= f < |t|
      ensures f in s.log
    {
      ReachesItself(t, f);
    }
  }

  lemma CalledIsClosed(t: Table, s: State)
    requires Valid(t, s)
    ensures Closed(t, CalledSet(s))
  {
    OrderedIsClosed(t, s.log, CalledSet(s));
  }

  /** A function that an earlier search has called needs no search of its own. */
  lemma SkipSearch(t: Table, s: State, i: nat, count: nat)
    requires Between(t, s, i, count) && i < |t| && Called(s, i)
    ensures Between(t, s, i + 1, count)
  {
    CalledIsClosed(t, s);
    assert i in CalledSet(s);
    forall j: nat, x: nat | j < i + 1 && Reaches(t, j, x)
      ensures x in CalledSet(s)
    {
      if j == i {
        ReachesStaysIn(t, CalledSet(s), i, x);
      }
    }
    assert !Group(t, i, i);
  }

  /** A new search begins at a function that has not been called. */
  lemma BeginSearch(t: Table, s: State, s1: State, i: nat, count: nat, id: nat)
    requires Between(t, s, i, count) && i < |t| && !Called(s, i) && id == count + 1
    requires s1 == State(s.search[i := id], s.called, s.log, map[])
    ensures Half(t, s1, s1, i, id, CalledSet(s), i, 0)
  {
    ReachesItself(t, i);
    assert i !in CalledSet(s);
    assert forall x: nat :: Marked(s1, x, id) <==> x == i;
  }

  /** A search that went through has called the whole group, which then has no defect. */
  lemma EndSearch(t: Table, s: State, s1: State, s2: State, i: nat, count: nat, id: nat)
    requires Between(t, s, i, count) && i < |t| && !Called(s, i) && id == count + 1
    requires s1 == State(s.search[i := id], s.called, s.log, map[])
    requires Searching(t, s2, i, id, CalledSet(s)) && Called(s2, i) && Grown(s1, s2, id, i)
    ensures Between(t, s2, i + 1, id)
  {
    var before, now := CalledSet(s), CalledSet(s2);
    CalledIsClosed(t, s2);
    forall x: nat | Marked(s2, x, id)
      ensures x in now
    {
      assert Marked(s1, x, id) ==> x == i;
    }
    forall j: nat, x: nat | j < i + 1 && Reaches(t, j, x)
      ensures x in now
    {
      if j == i {
        ReachesStaysIn(t, now, i, x);
      } else {
        assert x in before;
      }
    }
    forall x: nat | x in now
      ensures exists j: nat :: j < i + 1 && Reaches(t, j, x)
    {
      if x in before {
        var j: nat :| j < i && Reaches(t, j, x);
        assert j < i + 1;
      } else {
        assert Marked(s2, x, id) && Group(t, i, x);
      }
    }
    NoDefect(t, s2, i, id, before);
  }

  lemma GroupIsMarked(t: Table, s2: State, i: nat, id: nat, before: set<nat>, f: nat)
    requires Searching(t, s2, i, id, before) && ReachedBefore(t, i, before) && Group(t, i, f) && i in CalledSet(s2)
    ensures Marked(s2, f, id) && Called(s2, f)
  {
    CalledIsClosed(t, s2);
    ReachesStaysIn(t, CalledSet(s2), i, f);
  }

  lemma NoDefect(t: Table, s2: State, i: nat, id: nat, before: set<nat>)
    requires Searching(t, s2, i, id, before) && ReachedBefore(t, i, before) && i in CalledSet(s2)
    ensures !Defect(t, i)
  {
    assert Group(t, i, i);
    forall f: nat, k: nat | Group(t, i, f)
      ensures !Missing(t, f, k)
    {
      GroupIsMarked(t, s2, i, id, before, f);
      if k < |t[f].deps| {
        LogHasDeps(t, s2.log, f, k);
      }
    }
    forall f: nat, k: nat, g: nat | Group(t, i, f) && Group(t, i, g) && Edge(t, f, k, g)
      ensures Only(s2, i, f, k, g)
    {
      GroupIsMarked(t, s2, i, id, before, f);
      GroupIsMarked(t, s2, i, id, before, g);
    }
  }

  lemma FoundAgain(t: Table, s0: State, s: State, r: nat, id: nat, before: set<nat>, f: nat, k: nat, g: nat)
    requires Half(t, s0, s, r, id, before, f, k) && Edge(t, f, k, g) && Marked(s, g, id)
    ensures Defect(t, r)
  {
    if g != r {
      var (f', k') := s.parent[g];
      assert FoundBy(t, s, g, id) && (f', k') != (f, k);
      assert Twice(t, r, f, k, f', k');
    }
  }

  /** A function found for the first time is ready to be called. */
  lemma FoundNew(t: Table, s0: State, s: State, s1: State, r: nat, id: nat, before: set<nat>, f: nat, k: nat, g: nat)
    requires Half(t, s0, s, r, id, before, f, k) && ReachedBefore(t, r, before)
    requires Edge(t, f, k, g) && !Called(s, g) && !Marked(s, g, id) && s1 == Mark(s, g, id, (f, k))
    ensures Half(t, s1, s1, r, id, before, g, 0) && Unmarked(s1.search, id) < Unmarked(s.search, id)
  {
    MarkKeeps(t, s, r, id, before, f, k, g);
    FewerUnmarked(s.search, g, id);
    forall h: nat | h in s1.parent
      ensures s1.parent[h].0 != g
    {
      assert h != g ==> FoundBy(t, s, h, id);
    }
  }

  lemma AlreadyCalled(t: Table, s0: State, s: State, r: nat, id: nat, before: set<nat>, f: nat, k: nat, g: nat)
    requires Half(t, s0, s, r, id, before, f, k) && Edge(t, f, k, g) && Called(s, g) && !Marked(s, g, id)
    ensures Half(t, s0, s, r, id, before, f, k + 1)
  {
    assert DepDone(t, s, r, id, f, k);
  }

  /** What a search has still to come by. */
  ghost function Unmarked(search: seq<nat>, id: nat): set<nat> { set f | 0 <= f < |search| && search[f] != id }

  lemma FewerUnmarked(search: seq<nat>, g: nat, id: nat)
    requires g < |search| && search[g] != id
    ensures Unmarked(search[g := id], id) < Unmarked(search, id)
  {
    assert g in Unmarked(search, id);
  }

  lemma NoMoreUnmarked(s: State, s': State, id: nat, f: nat)
    requires Grown(s, s', id, f)
    ensures Unmarked(s'.search, id) <= Unmarked(s.search, id)
  {
  }
}
