/** The daemon that collapses shadow chains. */
module Shadow {
  import opened Common
  import opened Lists
  import opened ShadowState
  import opened ShadowSteps

  /** Everything but the hash table, as a value. */
  datatype Memory = Memory(objs: Objs, frames: Frames, pages: Pages)

  ghost predicate Sound(m: Memory, depth: map<nat, nat>) {
    PagesOk(m.objs, m.frames, m.pages) && ListsOk(m.objs, m.frames) && ChainsOk(m.objs, depth)
  }

  /** Lookups from every object that is still there, except those named, find what they found before. */
  ghost predicate Unseen(m: Memory, m': Memory, depth: map<nat, nat>, except: set<nat>)
    requires Sound(m, depth) && Sound(m', depth)
  {
    && m'.objs.Keys <= m.objs.Keys
    && forall x, q | x in m'.objs && x !in except ::
         Lookup(m'.objs, m'.frames, m'.pages, depth, x, q) == Lookup(m.objs, m.frames, m.pages, depth, x, q)
  }

  /** How many objects and areas are right above an object. */
  function Over(tree: map<nat, Option<nat>>, vmas: seq<nat>, o: nat): nat {
    |set x | x in tree && tree[x] == Some(o)| + |Tops(vmas, o)|
  }

  lemma TreeCounts(tree: map<nat, Option<nat>>, objs: Objs, vmas: seq<nat>)
    requires objs.Keys == tree.Keys
    requires forall o | o in tree :: objs[o] == Obj(Over(tree, vmas, o), 0, [], tree[o])
    ensures CountsOk(objs, vmas, None)
  {
    forall o | o in objs
      ensures CountOk(objs, vmas, None, o)
    {
      assert Kids(objs, o) == set x | x in tree && tree[x] == Some(o);
    }
  }

  class Vm {
    var objs: Objs
    var frames: Frames
    var hash: seq<seq<nat>>
    /** The top object of each memory area. */
    const vmas: seq<nat>
    ghost var pages: Pages
    ghost const depth: map<nat, nat>

    ghost function Now(): Memory
      reads this
    {
      Memory(objs, frames, pages)
    }

    /** `temp` is the object that the daemon holds a reference to. */
    ghost predicate Valid(temp: Option<nat>)
      reads this
    {
      && Sound(Now(), depth) && HashOk(frames, hash) && CountsOk(objs, vmas, temp)
      && forall v | 0 <= v < |vmas| :: vmas[v] in objs
    }

    /** Any tree of objects that shadow each other under the given areas, none with a resident page. */
    constructor (tree: map<nat, Option<nat>>, vmas: seq<nat>, ghost depth: map<nat, nat>)
      requires tree.Keys <= depth.Keys && forall v | 0 <= v < |vmas| :: vmas[v] in tree
      requires forall o | o in tree && tree[o].Some? :: tree[o].value in tree && depth[tree[o].value] < depth[o]
      ensures Valid(None) && this.vmas == vmas && objs.Keys == tree.Keys && frames == map[]
      ensures forall o | o in tree :: objs[o].shadowed == tree[o]
    {
      objs := map o | o in tree :: Obj(Over(tree, vmas, o), 0, [], tree[o]);
      frames, hash, pages := map[], seq(BUCKETS, _ => []), map[];
      this.vmas, this.depth := vmas, depth;
      new;
      TreeCounts(tree, objs, vmas);
    }

    /** `pframe_get_resident` */
    method GetResident(o: nat, pagenum: nat) returns (r: Option<nat>)
      requires HashOk(frames, hash) && PagesOk(objs, frames, pages)
      ensures r == if (o, pagenum) in pages then Some(pages[(o, pagenum)]) else None
    {
      var chain := hash[Bucket(o, pagenum)];
      assert ChainOk(chain, Bucket(o, pagenum), frames);
      assert (o, pagenum) in pages ==> pages[(o, pagenum)] in chain;
      var i := 0;
      while i < |chain|
        invariant 0 <= i <= |chain| && forall j | 0 <= j < i :: Key(frames[chain[j]]) != (o, pagenum)
      {
        assert chain[i] in chain;
        var fr := frames[chain[i]];
        if fr.obj == o && fr.pagenum == pagenum {
          assert Key(fr) in pages;
          return Some(chain[i]);
        }
        i := i + 1;
      }
      r := None;
    }

    /** `pframe_free`, and the first half of a migration: take a frame out of all tables. */
    method Detach(f: nat)
      requires f in frames && PagesOk(objs, frames, pages) && ListsOk(objs, frames) && HashOk(frames, hash)
      modifies this`objs, this`frames, this`hash, this`pages
      ensures PagesOk(objs, frames, pages) && ListsOk(objs, frames) && HashOk(frames, hash)
      ensures frames == old(frames) - {f} && pages == old(pages) - {Key(old(frames)[f])}
      ensures var o := old(frames)[f].obj; o in old(objs) && objs == old(objs)[o := ObjWithout(old(objs)[o], f)]
    {
      var fr := frames[f];
      HashRemove(frames, hash, f);
      ListsRemove(objs, frames, f);
      PagesRemove(objs, frames, pages, f);
      hash := Unhash(hash, Bucket(fr.obj, fr.pagenum), f);
      objs := objs[fr.obj := ObjWithout(objs[fr.obj], f)];
      frames := frames - {f};
      pages := pages - {Key(fr)};
    }

    /** The second half of a migration: enter a frame for a page of an object. */
    method Attach(f: nat, fr: Frame)
      requires f !in frames && fr.obj in objs && Key(fr) !in pages
      requires PagesOk(objs, frames, pages) && ListsOk(objs, frames) && HashOk(frames, hash)
      modifies this`objs, this`frames, this`hash, this`pages
      ensures PagesOk(objs, frames, pages) && ListsOk(objs, frames) && HashOk(frames, hash)
      ensures frames == old(frames)[f := fr] && pages == old(pages)[Key(fr) := f]
      ensures objs == old(objs)[fr.obj := ObjWith(old(objs)[fr.obj], f)]
    {
      HashInsert(frames, hash, f, fr);
      ListsInsert(objs, frames, f, fr);
      PagesInsert(objs, frames, pages, f, fr);
      hash := Enhash(hash, Bucket(fr.obj, fr.pagenum), f);
      objs := objs[fr.obj := ObjWith(objs[fr.obj], f)];
      frames := frames[f := fr];
      pages := pages[Key(fr) := f];
    }

    /** `pframe_migrate`: move a page up to the object that shadows its own, unless that has a newer one. */
    method Migrate(f: nat, dest: nat, ghost temp: Option<nat>)
      requires Valid(temp) && f in frames && dest in objs && OnlyKid(objs, frames[f].obj, dest) && dest != frames[f].obj
      modifies this`objs, this`frames, this`hash, this`pages
      ensures Valid(temp) && SameShape(old(objs), objs) && Unseen(old(Now()), Now(), depth, {old(frames)[f].obj})
      ensures var src := old(frames)[f].obj; objs[src].respages == Without(old(objs)[src].respages, f)
    {
      var fr := frames[f];
      ghost var m := Now();
      assert Key(fr) in pages && fr.obj in objs;
      var r := GetResident(dest, fr.pagenum);
      Detach(f);
      if r.None? {
        Attach(f, Frame(dest, fr.pagenum, fr.addr));
        IsMove(m, Now(), f, dest);
      } else {
        IsDrop(m, Now(), f, dest);
      }
      Moved(m, Now(), depth, fr.obj, dest, fr.pagenum, vmas, temp);
    }

    /** Move all pages of `o` up. */
    method MigrateAll(o: nat, last: nat, ghost temp: Option<nat>)
      requires Valid(temp) && o in objs && last in objs && OnlyKid(objs, o, last) && last != o
      modifies this`objs, this`frames, this`hash, this`pages
      ensures Valid(temp) && SameShape(old(objs), objs) && objs[o].respages == []
      ensures Unseen(old(Now()), Now(), depth, {o})
    {
      var list := objs[o].respages;
      var i := 0;
      while i < |list|
        invariant 0 <= i <= |list| && Valid(temp) && SameShape(old(objs), objs) && objs[o].respages == list[i..]
        invariant Unseen(old(Now()), Now(), depth, {o})
      {
        assert ListOk(objs[o], o, frames) && list[i] in objs[o].respages;
        ghost var m1 := Now();
        SameKids(old(objs), objs, o);
        Migrate(list[i], last, temp);
        assert Without(list[i..], list[i]) == list[i + 1..];
        UnseenTwice(old(Now()), m1, Now(), depth, {o});
        i := i + 1;
      }
    }

    /**
     * Link `last` to the object below `o`; the last reference to `o` goes, and with `o` its own
     * reference to that object.
     */
    method Relink(o: nat, last: nat)
      requires o in objs && last in objs && o != last && objs[o].shadowed.Some?
      requires var sh := objs[o].shadowed.value; sh in objs && sh != o && sh != last
      requires objs[o].refcount == 1 && objs[o].nrespages == 0
      modifies this`objs
      ensures objs == Unlinked(old(objs), last, o)
    {
      var sh := objs[o].shadowed.value;
      objs := objs[last := objs[last].(shadowed := Some(sh))];
      objs := objs[sh := objs[sh].(refcount := objs[sh].refcount + 1)];
      objs := objs - {o};
      objs := objs[sh := objs[sh].(refcount := objs[sh].refcount - 1)];
    }

    /** Take an object without pages out of its chain. */
    method TakeOut(o: nat, last: nat)
      requires Valid(Some(last)) && CanUnlink(objs, last, o) && objs[o].respages == [] && RefsTo(objs, vmas, o) == 1
      modifies this`objs
      ensures Valid(Some(last)) && objs == Unlinked(old(objs), last, o) && Unseen(old(Now()), Now(), depth, {})
    {
      Unlinking(Now(), depth, vmas, last, o);
      OneReference(Now(), depth, vmas, last, o);
      Relink(o, last);
    }

    /** Merge an object with one reference into the object that shadows it. */
    method MergeUp(o: nat, last: nat)
      requires Valid(Some(last)) && last in objs && objs[last].shadowed == Some(o) && o in objs
        && objs[o].shadowed.Some?
      requires RefsTo(objs, vmas, o) == 1
      modifies this`objs, this`frames, this`hash, this`pages
      ensures Valid(Some(last)) && Unseen(old(Now()), Now(), depth, {})
      ensures Merged(old(objs), objs, vmas, depth, last, o)
    {
      ghost var m := Now();
      OnlyReference(objs, vmas, last, o);
      MigrateAll(o, last, Some(last));
      ghost var m1 := Now();
      ShapeKeeps(m.objs, objs, vmas, Some(last), depth);
      SameKids(m.objs, objs, o);
      TakeOut(o, last);
      UnseenAfterAll(m, m1, Now(), depth, o);
      IsMerge(m.objs, m1.objs, objs, vmas, depth, last, o);
    }

    /** Take or drop the daemon's own reference. */
    method Hold(o: nat)
      requires o in objs && Valid(None)
      modifies this`objs
      ensures Valid(Some(o)) && SameLinks(old(objs), objs) && Unseen(old(Now()), Now(), depth, {})
    {
      ghost var m := Now();
      objs := objs[o := objs[o].(refcount := objs[o].refcount + 1)];
      Counting(m, Now(), vmas, depth, None, Some(o));
    }

    method Release(o: nat)
      requires o in objs && Valid(Some(o))
      modifies this`objs
      ensures Valid(None) && SameLinks(old(objs), objs) && Unseen(old(Now()), Now(), depth, {})
    {
      ghost var m := Now();
      objs := objs[o := objs[o].(refcount := objs[o].refcount - 1)];
      Counting(m, Now(), vmas, depth, Some(o), None);
    }

    /** Pass the daemon's reference on. */
    method PassOn(last: nat, o: nat)
      requires o in objs && last in objs && o != last && Valid(Some(last))
      modifies this`objs
      ensures Valid(Some(o)) && SameLinks(old(objs), objs) && Unseen(old(Now()), Now(), depth, {})
    {
      Passing(Now(), vmas, depth, last, o);
      RefAndPut(last, o);
    }

    method RefAndPut(last: nat, o: nat)
      requires o in objs && last in objs && o != last
      modifies this`objs
      ensures objs == Passed(old(objs), last, o)
    {
      objs := objs[o := objs[o].(refcount := objs[o].refcount + 1)];
      objs := objs[last := objs[last].(refcount := objs[last].refcount - 1)];
    }

    /** One turn of the walk: merge `o` into `last`, or go on from `o`. */
    method Step(last: nat, o: nat, ghost m0: Memory, ghost top: nat, ghost kept: seq<nat>)
      returns (ok: bool, last': nat, ghost kept': seq<nat>)
      requires Valid(Some(last)) && Walking(m0, Now(), vmas, depth, kept, top, last)
      requires objs[last].shadowed == Some(o) && objs[o].shadowed.Some?
      modifies this`objs, this`frames, this`hash, this`pages
      ensures ok ==> Valid(Some(last')) && Walking(m0, Now(), vmas, depth, kept', top, last')
      ensures ok ==> objs[last'].shadowed == old(objs)[o].shadowed
      ensures !ok ==> o in objs && RefsTo(objs, vmas, o) > 2
    {
      ghost var m := Now();
      ok, last', kept' := true, last, kept;
      assert CountOk(objs, vmas, Some(last), o);
      if objs[o].refcount - objs[o].nrespages == 1 {
        MergeUp(o, last);
        WalkMerged(m0, m, Now(), vmas, depth, kept, top, last, o);
      } else {
        if objs[o].refcount - objs[o].nrespages != 2 {
          HasReference(objs, vmas, last, o);
          return false, last, kept;
        }
        PassOn(last, o);
        WalkPassed(m0, m, Now(), vmas, depth, kept, top, last, o);
        last', kept' := o, kept + [o];
      }
    }

    /** The walk down one chain. It gives up only on an object with more than two references. */
    method CollapseChain(top: nat) returns (ok: bool)
      requires Valid(None) && top in vmas
      modifies this`objs, this`frames, this`hash, this`pages
      ensures ok ==> Valid(None) && Unseen(old(Now()), Now(), depth, {})
      ensures ok ==> top in objs && Collapsed(objs, vmas, depth, top)
      ensures ok ==> StaysCollapsed(old(objs), objs, vmas, depth)
      ensures !ok ==> exists o :: o in objs && RefsTo(objs, vmas, o) > 2
    {
      ghost var m0, kept := Now(), [top];
      var last := top;
      Hold(last);
      WalkBegins(m0, Now(), vmas, depth, top);
      var o := objs[last].shadowed;
      while o.Some? && objs[o.value].shadowed.Some?
        invariant Valid(Some(last)) && Walking(m0, Now(), vmas, depth, kept, top, last) && objs[last].shadowed == o
        decreases if o.Some? then depth[o.value] + 1 else 0
      {
        var shadow := objs[o.value].shadowed;
        ok, last, kept := Step(last, o.value, m0, top, kept);
        if !ok {
          return;
        }
        o := shadow;
      }
      ghost var m := Now();
      Release(last);
      WalkEnds(m0, m, Now(), vmas, depth, kept, top, last);
      ok := true;
    }

    /** One round of the daemon over the given memory areas. */
    method CollapseAll(areas: seq<nat>) returns (ok: bool)
      requires Valid(None) && forall i | 0 <= i < |areas| :: areas[i] < |vmas|
      modifies this`objs, this`frames, this`hash, this`pages
      ensures ok ==> Valid(None) && Unseen(old(Now()), Now(), depth, {})
      ensures ok ==> AllCollapsed(objs, vmas, depth, areas, |areas|)
      ensures !ok ==> exists o :: o in objs && RefsTo(objs, vmas, o) > 2
    {
      ghost var m0 := Now();
      var n := 0;
      while n < |areas|
        invariant 0 <= n <= |areas| && Valid(None) && Unseen(m0, Now(), depth, {})
        invariant AllCollapsed(objs, vmas, depth, areas, n)
      {
        ghost var m := Now();
        ok := CollapseChain(vmas[areas[n]]);
        if !ok {
          return;
        }
        UnseenTwice(m0, m, Now(), depth, {});
        OneMoreCollapsed(m.objs, objs, vmas, depth, areas, n);
        n := n + 1;
      }
      ok := true;
    }
  }

  // ---------------------------------------------------------------------
  // The walk down a chain
  // ---------------------------------------------------------------------

  function Passed(objs: Objs, last: nat, o: nat): Objs
    requires o in objs && last in objs && o != last
  {
    objs[o := objs[o].(refcount := objs[o].refcount + 1)][last := objs[last].(refcount := objs[last].refcount - 1)]
  }

  lemma PassCounts(objs: Objs, vmas: seq<nat>, last: nat, o: nat)
    requires o in objs && last in objs && o != last && CountsOk(objs, vmas, Some(last))
    ensures CountsOk(Passed(objs, last, o), vmas, Some(o))
  {
    var objs' := Passed(objs, last, o);
    forall x | x in objs'
      ensures CountOk(objs', vmas, Some(o), x)
    {
      SameTreeRefs(objs, objs', vmas, x);
      assert CountOk(objs, vmas, Some(last), x);
    }
  }

  /** Another temporary reference, counted. */
  lemma Counting(m: Memory, m': Memory, vmas: seq<nat>, depth: map<nat, nat>, temp: Option<nat>, temp': Option<nat>)
    requires Sound(m, depth) && CountsOk(m.objs, vmas, temp) && SameLinks(m.objs, m'.objs)
    requires m'.frames == m.frames && m'.pages == m.pages
    requires forall x | x in m.objs :: m'.objs[x].refcount - m.objs[x].refcount == Held(temp', x) - Held(temp, x)
    ensures Sound(m', depth) && CountsOk(m'.objs, vmas, temp') && Unseen(m, m', depth, {})
  {
    LinksKeep(m, m', vmas, depth);
    forall x | x in m'.objs
      ensures CountOk(m'.objs, vmas, temp', x)
    {
      assert CountOk(m.objs, vmas, temp, x);
    }
  }

  lemma Passing(m: Memory, vmas: seq<nat>, depth: map<nat, nat>, last: nat, o: nat)
    requires Sound(m, depth) && o in m.objs && last in m.objs && o != last && CountsOk(m.objs, vmas, Some(last))
    ensures var m' := m.(objs := Passed(m.objs, last, o));
      Sound(m', depth) && CountsOk(m'.objs, vmas, Some(o)) && SameLinks(m.objs, m'.objs) && Unseen(m, m', depth, {})
  {
    LinksKeep(m, m.(objs := Passed(m.objs, last, o)), vmas, depth);
    PassCounts(m.objs, vmas, last, o);
  }

  /** The part of a chain that has been collapsed: `kept` leads from `top` to `last`, all below `top` shadowed twice. */
  ghost predicate Kept(objs: Objs, vmas: seq<nat>, depth: map<nat, nat>, kept: seq<nat>, top: nat, last: nat) {
    && kept != [] && kept[0] == top && kept[|kept| - 1] == last
      && (forall i | 0 <= i < |kept| :: kept[i] in objs && kept[i] in depth)
    && (forall i | 0 <= i < |kept| - 1 :: objs[kept[i]].shadowed == Some(kept[i + 1]) && depth[last] < depth[kept[i]])
    && forall i | 1 <= i < |kept| :: RefsTo(objs, vmas, kept[i]) == 2
  }

  ghost predicate StaysCollapsed(objs: Objs, objs': Objs, vmas: seq<nat>, depth: map<nat, nat>)
    requires ChainsOk(objs, depth) && ChainsOk(objs', depth)
  {
    objs'.Keys <= objs.Keys && forall x | x in objs' && Collapsed(objs, vmas, depth, x) ::
      Collapsed(objs', vmas, depth, x)
  }

  ghost predicate Walking(m0: Memory, m: Memory, vmas: seq<nat>, depth: map<nat, nat>, kept: seq<nat>, top: nat,
    last: nat) {
    && Sound(m0, depth) && Sound(m, depth) && Unseen(m0, m, depth, {}) && StaysCollapsed(m0.objs, m.objs, vmas, depth)
    && Kept(m.objs, vmas, depth, kept, top, last)
  }

  /** The first `n` of the given areas have collapsed chains. */
  ghost predicate AllCollapsed(objs: Objs, vmas: seq<nat>, depth: map<nat, nat>, areas: seq<nat>, n: nat)
    requires ChainsOk(objs, depth) && n <= |areas|
  {
    forall i | 0 <= i < n :: areas[i] < |vmas| && vmas[areas[i]] in objs && Collapsed(objs, vmas, depth, vmas[areas[i]])
  }

  lemma OneMoreCollapsed(objs: Objs, objs': Objs, vmas: seq<nat>, depth: map<nat, nat>, areas: seq<nat>, n: nat)
    requires ChainsOk(objs, depth) && ChainsOk(objs', depth) && n < |areas| && areas[n] < |vmas|
    requires AllCollapsed(objs, vmas, depth, areas, n) && StaysCollapsed(objs, objs', vmas, depth)
    requires (forall v | 0 <= v < |vmas| :: vmas[v] in objs') && Collapsed(objs', vmas, depth, vmas[areas[n]])
    ensures AllCollapsed(objs', vmas, depth, areas, n + 1)
  {
  }

  lemma LinksStayCollapsed(objs: Objs, objs': Objs, vmas: seq<nat>, depth: map<nat, nat>)
    requires ChainsOk(objs, depth) && ChainsOk(objs', depth) && SameLinks(objs, objs')
    ensures StaysCollapsed(objs, objs', vmas, depth)
  {
    forall x | x in objs' && Collapsed(objs, vmas, depth, x)
      ensures Collapsed(objs', vmas, depth, x)
    {
      if objs[x].shadowed.Some? {
        SharedSameTree(objs, objs', vmas, depth, objs[x].shadowed.value);
      }
    }
  }

  lemma WalkBegins(m0: Memory, m: Memory, vmas: seq<nat>, depth: map<nat, nat>, top: nat)
    requires Sound(m0, depth) && Sound(m, depth) && Unseen(m0, m, depth, {}) && SameLinks(m0.objs, m.objs)
      && top in m0.objs
    ensures Walking(m0, m, vmas, depth, [top], top, top)
  {
    LinksStayCollapsed(m0.objs, m.objs, vmas, depth);
  }

  lemma WalkMerged(m0: Memory, m: Memory, m': Memory, vmas: seq<nat>, depth: map<nat, nat>,
                   kept: seq<nat>, top: nat, last: nat, o: nat)
    requires Walking(m0, m, vmas, depth, kept, top, last) && Sound(m', depth) && Unseen(m, m', depth, {})
    requires o in m.objs && m.objs[last].shadowed == Some(o) && Merged(m.objs, m'.objs, vmas, depth, last, o)
    ensures Walking(m0, m', vmas, depth, kept, top, last)
  {
    UnseenTwice(m0, m, m', depth, {});
    forall i | 0 <= i < |kept|
      ensures kept[i] in m'.objs
    {
      assert depth[o] < depth[last] <= depth[kept[i]];
    }
  }

  lemma WalkPassed(m0: Memory, m: Memory, m': Memory, vmas: seq<nat>, depth: map<nat, nat>,
                   kept: seq<nat>, top: nat, last: nat, o: nat)
    requires Walking(m0, m, vmas, depth, kept, top, last) && Sound(m', depth) && Unseen(m, m', depth, {})
    requires SameLinks(m.objs, m'.objs) && m.objs[last].shadowed == Some(o) && RefsTo(m.objs, vmas, o) == 2
    ensures Walking(m0, m', vmas, depth, kept + [o], top, o)
  {
    UnseenTwice(m0, m, m', depth, {});
    LinksStayCollapsed(m.objs, m'.objs, vmas, depth);
    KeptMore(m.objs, m'.objs, vmas, depth, kept, top, last, o);
  }

  lemma KeptMore(objs: Objs, objs': Objs, vmas: seq<nat>, depth: map<nat, nat>, kept: seq<nat>, top: nat, last: nat,
    o: nat)
    requires Kept(objs, vmas, depth, kept, top, last) && ChainsOk(objs, depth) && SameLinks(objs, objs')
    requires objs[last].shadowed == Some(o) && RefsTo(objs, vmas, o) == 2
    ensures Kept(objs', vmas, depth, kept + [o], top, o)
  {
    var kept' := kept + [o];
    forall i | 1 <= i < |kept'|
      ensures RefsTo(objs', vmas, kept'[i]) == 2
    {
      SameTreeRefs(objs, objs', vmas, kept'[i]);
    }
  }

  /** The kept part of the chain is collapsed if what lies below it is. */
  lemma {:induction false} KeptIsShared(objs: Objs, vmas: seq<nat>, depth: map<nat, nat>, kept: seq<nat>, top: nat,
    last: nat, i: nat)
    requires Kept(objs, vmas, depth, kept, top, last) && ChainsOk(objs, depth) && 1 <= i < |kept|
      && Collapsed(objs, vmas, depth, last)
    ensures Shared(objs, vmas, depth, kept[i])
    decreases |kept| - i
  {
    if i < |kept| - 1 {
      KeptIsShared(objs, vmas, depth, kept, top, last, i + 1);
    }
  }

  lemma WalkEnds(m0: Memory, m: Memory, m': Memory, vmas: seq<nat>, depth: map<nat, nat>, kept: seq<nat>, top: nat,
    last: nat)
    requires Walking(m0, m, vmas, depth, kept, top, last) && Sound(m', depth) && Unseen(m, m', depth, {})
      && SameLinks(m.objs, m'.objs)
    requires var o := m.objs[last].shadowed; o.Some? ==> m.objs[o.value].shadowed.None?
    ensures Unseen(m0, m', depth, {}) && StaysCollapsed(m0.objs, m'.objs, vmas, depth)
    ensures top in m'.objs && Collapsed(m'.objs, vmas, depth, top)
  {
    UnseenTwice(m0, m, m', depth, {});
    LinksStayCollapsed(m.objs, m'.objs, vmas, depth);
    if |kept| > 1 {
      KeptIsShared(m.objs, vmas, depth, kept, top, last, 1);
      assert m.objs[kept[0]].shadowed == Some(kept[0 + 1]);
    }
  }

  lemma HasReference(objs: Objs, vmas: seq<nat>, last: nat, o: nat)
    requires last in objs && objs[last].shadowed == Some(o)
    ensures RefsTo(objs, vmas, o) > 0
  {
    assert last in Kids(objs, o);
  }

  lemma IsDrop(m: Memory, m': Memory, f: nat, dest: nat)
    requires PagesOk(m.objs, m.frames, m.pages) && f in m.frames && (dest, m.frames[f].pagenum) in m.pages
      && dest != m.frames[f].obj
    requires m.frames[f].obj in m.objs
    requires var src := m.frames[f].obj;
      m' == Memory(m.objs[src := ObjWithout(m.objs[src], f)], m.frames - {f}, m.pages - {Key(m.frames[f])})
    ensures SameShape(m.objs, m'.objs)
    ensures PageMoved(m.frames, m.pages, m'.frames, m'.pages, m.frames[f].obj, dest, m.frames[f].pagenum)
  {
    forall k | k != Key(m.frames[f])
      ensures Addr(m'.frames, m'.pages, k) == Addr(m.frames, m.pages, k)
    {
    }
  }

  lemma IsMove(m: Memory, m': Memory, f: nat, dest: nat)
    requires PagesOk(m.objs, m.frames, m.pages) && f in m.frames && (dest, m.frames[f].pagenum) !in m.pages
      && dest != m.frames[f].obj
    requires m.frames[f].obj in m.objs && dest in m.objs
    requires var src, fr := m.frames[f].obj, m.frames[f].(obj := dest);
      m' == Memory(m.objs[src := ObjWithout(m.objs[src], f)][dest := ObjWith(m.objs[dest], f)],
                   (m.frames - {f})[f := fr], (m.pages - {Key(m.frames[f])})[Key(fr) := f])
    ensures SameShape(m.objs, m'.objs)
    ensures PageMoved(m.frames, m.pages, m'.frames, m'.pages, m.frames[f].obj, dest, m.frames[f].pagenum)
  {
    forall k | k != Key(m.frames[f]) && k != (dest, m.frames[f].pagenum)
      ensures Addr(m'.frames, m'.pages, k) == Addr(m.frames, m.pages, k)
    {
    }
  }

  /** A page that has moved up is not noticed from above. */
  lemma Moved(m: Memory, m': Memory, depth: map<nat, nat>, src: nat, dest: nat, p: nat, vmas: seq<nat>,
    temp: Option<nat>)
    requires Sound(m, depth) && PagesOk(m'.objs, m'.frames, m'.pages) && ListsOk(m'.objs, m'.frames)
    requires CountsOk(m.objs, vmas, temp) && SameShape(m.objs, m'.objs)
    requires PageMoved(m.frames, m.pages, m'.frames, m'.pages, src, dest, p) && OnlyKid(m.objs, src, dest)
    ensures Sound(m', depth) && CountsOk(m'.objs, vmas, temp) && Unseen(m, m', depth, {src})
  {
    ShapeKeeps(m.objs, m'.objs, vmas, temp, depth);
    forall x, q | x in m'.objs && x !in {src}
      ensures Lookup(m'.objs, m'.frames, m'.pages, depth, x, q) == Lookup(m.objs, m.frames, m.pages, depth, x, q)
    {
      MoveIsUnseen(m.objs, m'.objs, m.frames, m.pages, m'.frames, m'.pages, depth, src, dest, p, x, q);
    }
  }

  lemma SameKids(objs: Objs, objs': Objs, o: nat)
    requires SameShape(objs, objs')
    ensures Kids(objs', o) == Kids(objs, o)
  {
  }

  lemma UnseenTwice(m: Memory, m1: Memory, m2: Memory, depth: map<nat, nat>, except: set<nat>)
    requires Sound(m, depth) && Sound(m1, depth) && Sound(m2, depth)
    requires Unseen(m, m1, depth, except) && Unseen(m1, m2, depth, except)
    ensures Unseen(m, m2, depth, except)
  {
    forall x, q | x in m2.objs && x !in except
      ensures Lookup(m2.objs, m2.frames, m2.pages, depth, x, q) == Lookup(m.objs, m.frames, m.pages, depth, x, q)
    {
      assert Lookup(m1.objs, m1.frames, m1.pages, depth, x, q) == Lookup(m.objs, m.frames, m.pages, depth, x, q);
    }
  }

  lemma OnlyReference(objs: Objs, vmas: seq<nat>, last: nat, o: nat)
    requires last in objs && objs[last].shadowed == Some(o) && RefsTo(objs, vmas, o) == 1
    ensures Kids(objs, o) == {last} && forall v | 0 <= v < |vmas| :: vmas[v] != o
  {
    var kids, tops := Kids(objs, o), Tops(vmas, o);
    assert last in kids && kids == {last} + (kids - {last});
    forall v: nat | v < |vmas|
      ensures vmas[v] != o
    {
      assert v !in tops;
    }
  }

  lemma Unlinking(m: Memory, depth: map<nat, nat>, vmas: seq<nat>, last: nat, o: nat)
    requires Sound(m, depth) && CanUnlink(m.objs, last, o) && m.objs[o].respages == []
      && CountsOk(m.objs, vmas, Some(last))
    requires RefsTo(m.objs, vmas, o) == 1
    ensures var m' := m.(objs := Unlinked(m.objs, last, o));
      Sound(m', depth) && CountsOk(m'.objs, vmas, Some(last)) && Unseen(m, m', depth, {})
    ensures forall v | 0 <= v < |vmas| :: vmas[v] != o
  {
    var m' := m.(objs := Unlinked(m.objs, last, o));
    OnlyReference(m.objs, vmas, last, o);
    UnlinkCounts(m.objs, vmas, Some(last), last, o);
    UnlinkRest(m.objs, m.frames, m.pages, depth, last, o);
    forall x, q | x in m'.objs
      ensures Lookup(m'.objs, m'.frames, m'.pages, depth, x, q) == Lookup(m.objs, m.frames, m.pages, depth, x, q)
    {
      UnlinkIsUnseen(m.objs, m.frames, m.pages, depth, last, o, x, q);
    }
  }

  lemma OneReference(m: Memory, depth: map<nat, nat>, vmas: seq<nat>, last: nat, o: nat)
    requires Sound(m, depth) && CanUnlink(m.objs, last, o) && m.objs[o].respages == []
      && CountsOk(m.objs, vmas, Some(last))
    requires RefsTo(m.objs, vmas, o) == 1
    ensures m.objs[o].refcount == 1 && m.objs[o].nrespages == 0
    ensures var sh := m.objs[o].shadowed.value; sh in m.objs && sh != last
  {
    assert CountOk(m.objs, vmas, Some(last), o) && ListOk(m.objs[o], o, m.frames);
  }

  lemma UnseenAfterAll(m: Memory, m1: Memory, m2: Memory, depth: map<nat, nat>, o: nat)
    requires Sound(m, depth) && Sound(m1, depth) && Sound(m2, depth) && o !in m2.objs
    requires Unseen(m, m1, depth, {o}) && Unseen(m1, m2, depth, {})
    ensures Unseen(m, m2, depth, {})
  {
    forall x, q | x in m2.objs
      ensures Lookup(m2.objs, m2.frames, m2.pages, depth, x, q) == Lookup(m.objs, m.frames, m.pages, depth, x, q)
    {
      assert x !in {o};
      assert Lookup(m1.objs, m1.frames, m1.pages, depth, x, q) == Lookup(m.objs, m.frames, m.pages, depth, x, q);
      assert x !in {};
    }
  }

  /** `o` has gone; references and links to and from the other objects are as before, except the link of `last`. */
  ghost predicate Merged(objs: Objs, objs': Objs, vmas: seq<nat>, depth: map<nat, nat>, last: nat, o: nat)
    requires ChainsOk(objs, depth) && ChainsOk(objs', depth) && o in objs
  {
    && objs'.Keys == objs.Keys - {o} && last in objs' && objs'[last].shadowed == objs[o].shadowed
    && (forall x | x in objs' :: RefsTo(objs', vmas, x) == RefsTo(objs, vmas, x))
    && (forall x | x in objs' && x != last :: objs'[x].shadowed == objs[x].shadowed)
    && (forall x | x in objs' :: Collapsed(objs, vmas, depth, x) ==> Collapsed(objs', vmas, depth, x))
  }

  lemma IsMerge(objs: Objs, objs1: Objs, objs2: Objs, vmas: seq<nat>, depth: map<nat, nat>, last: nat, o: nat)
    requires ChainsOk(objs, depth) && SameShape(objs, objs1) && ChainsOk(objs1, depth)
      && CountsOk(objs1, vmas, Some(last))
    requires CanUnlink(objs1, last, o) && RefsTo(objs1, vmas, o) == 1
    requires objs2 == Unlinked(objs1, last, o) && ChainsOk(objs2, depth)
    ensures Merged(objs, objs2, vmas, depth, last, o)
  {
    ShapeKeeps(objs, objs1, vmas, Some(last), depth);
    UnlinkCounts(objs1, vmas, Some(last), last, o);
    forall x | x in objs2 && Collapsed(objs, vmas, depth, x)
      ensures Collapsed(objs2, vmas, depth, x)
    {
      MergeKeepsCollapsed(objs, objs1, objs2, vmas, depth, last, o, x);
    }
  }

  lemma MergeKeepsCollapsed(objs: Objs, objs1: Objs, objs2: Objs, vmas: seq<nat>, depth: map<nat, nat>, last: nat,
    o: nat, x: nat)
    requires ChainsOk(objs, depth) && SameShape(objs, objs1) && ChainsOk(objs1, depth)
      && CountsOk(objs1, vmas, Some(last))
    requires CanUnlink(objs1, last, o) && RefsTo(objs1, vmas, o) == 1
    requires objs2 == Unlinked(objs1, last, o) && ChainsOk(objs2, depth)
    requires x in objs2 && Collapsed(objs, vmas, depth, x)
    ensures Collapsed(objs2, vmas, depth, x)
  {
    if objs[x].shadowed.Some? {
      var y := objs[x].shadowed.value;
      SharedSameTree(objs, objs1, vmas, depth, y);
      assert x in Kids(objs1, o) <==> x == last;
      assert y != o;
      SharedAfterUnlink(objs1, vmas, Some(last), depth, last, o, y);
    }
  }

  /** Objects that differ only in their counts. */
  ghost predicate SameLinks(objs: Objs, objs': Objs) {
    && objs'.Keys == objs.Keys
    && forall o | o in objs :: objs'[o].shadowed == objs[o].shadowed
         && objs'[o].nrespages == objs[o].nrespages && objs'[o].respages == objs[o].respages
  }

  lemma {:induction false} LinksSameLookup(m: Memory, m': Memory, depth: map<nat, nat>, x: nat, q: nat)
    requires Sound(m, depth) && Sound(m', depth) && SameLinks(m.objs, m'.objs) && m'.frames == m.frames
      && m'.pages == m.pages
    requires x in m.objs
    ensures Lookup(m'.objs, m'.frames, m'.pages, depth, x, q) == Lookup(m.objs, m.frames, m.pages, depth, x, q)
    decreases depth[x]
  {
    if (x, q) !in m.pages && m.objs[x].shadowed.Some? {
      LinksSameLookup(m, m', depth, m.objs[x].shadowed.value, q);
    }
  }

  lemma LinksKeep(m: Memory, m': Memory, vmas: seq<nat>, depth: map<nat, nat>)
    requires Sound(m, depth) && SameLinks(m.objs, m'.objs) && m'.frames == m.frames && m'.pages == m.pages
    ensures Sound(m', depth) && Unseen(m, m', depth, {})
    ensures forall o :: RefsTo(m'.objs, vmas, o) == RefsTo(m.objs, vmas, o)
  {
    forall o
      ensures Kids(m'.objs, o) == Kids(m.objs, o)
    {
    }
    forall o | o in m'.objs
      ensures ListOk(m'.objs[o], o, m'.frames)
    {
      assert ListOk(m.objs[o], o, m.frames);
    }
    forall x, q | x in m'.objs
      ensures Lookup(m'.objs, m'.frames, m'.pages, depth, x, q) == Lookup(m.objs, m.frames, m.pages, depth, x, q)
    {
      LinksSameLookup(m, m', depth, x, q);
    }
  }
}
