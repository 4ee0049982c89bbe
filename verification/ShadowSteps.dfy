/** The steps of collapsing a shadow chain, and what they keep. */
module ShadowSteps {
  import opened Common
  import opened Lists
  import opened ShadowState

  // ---------------------------------------------------------------------
  // A frame leaves the tables, or enters them
  // ---------------------------------------------------------------------

  function ObjWithout(ob: Obj, f: nat): Obj {
    ob.(refcount := ob.refcount - 1, nrespages := ob.nrespages - 1, respages := Without(ob.respages, f))
  }

  function ObjWith(ob: Obj, f: nat): Obj {
    ob.(refcount := ob.refcount + 1, nrespages := ob.nrespages + 1, respages := [f] + ob.respages)
  }

  function Unhash(hash: seq<seq<nat>>, b: nat, f: nat): seq<seq<nat>>
    requires b < |hash|
  {
    hash[b := Without(hash[b], f)]
  }

  function Enhash(hash: seq<seq<nat>>, b: nat, f: nat): seq<seq<nat>>
    requires b < |hash|
  {
    hash[b := [f] + hash[b]]
  }

  lemma HashRemove(frames: Frames, hash: seq<seq<nat>>, f: nat)
    requires HashOk(frames, hash) && f in frames
    ensures HashOk(frames - {f}, Unhash(hash, Bucket(frames[f].obj, frames[f].pagenum), f))
  {
    var b := Bucket(frames[f].obj, frames[f].pagenum);
    var hash' := Unhash(hash, b, f);
    forall c | 0 <= c < BUCKETS
      ensures ChainOk(hash'[c], c, frames - {f})
    {
      assert ChainOk(hash[c], c, frames);
      if c == b {
        WithoutIs(hash[b], f);
      }
    }
  }

  lemma HashInsert(frames: Frames, hash: seq<seq<nat>>, f: nat, fr: Frame)
    requires HashOk(frames, hash) && f !in frames
    ensures HashOk(frames[f := fr], Enhash(hash, Bucket(fr.obj, fr.pagenum), f))
  {
    var b := Bucket(fr.obj, fr.pagenum);
    var hash' := Enhash(hash, b, f);
    forall c | 0 <= c < BUCKETS
      ensures ChainOk(hash'[c], c, frames[f := fr])
    {
      assert ChainOk(hash[c], c, frames);
      if c == b {
        InsertIs(hash[b], f);
      }
    }
  }

  lemma ListsRemove(objs: Objs, frames: Frames, f: nat)
    requires ListsOk(objs, frames) && f in frames && frames[f].obj in objs
    ensures var o := frames[f].obj; ListsOk(objs[o := ObjWithout(objs[o], f)], frames - {f})
  {
    var o := frames[f].obj;
    var objs' := objs[o := ObjWithout(objs[o], f)];
    forall x | x in objs'
      ensures ListOk(objs'[x], x, frames - {f})
    {
      assert ListOk(objs[x], x, frames);
      if x == o {
        WithoutIs(objs[o].respages, f);
      }
    }
  }

  lemma ListsInsert(objs: Objs, frames: Frames, f: nat, fr: Frame)
    requires ListsOk(objs, frames) && f !in frames && fr.obj in objs
    ensures ListsOk(objs[fr.obj := ObjWith(objs[fr.obj], f)], frames[f := fr])
  {
    var objs' := objs[fr.obj := ObjWith(objs[fr.obj], f)];
    forall x | x in objs'
      ensures ListOk(objs'[x], x, frames[f := fr])
    {
      assert ListOk(objs[x], x, frames);
      if x == fr.obj {
        InsertIs(objs[x].respages, f);
      }
    }
  }

  lemma PagesRemove(objs: Objs, frames: Frames, pages: Pages, f: nat)
    requires PagesOk(objs, frames, pages) && f in frames
    ensures PagesOk(objs, frames - {f}, pages - {Key(frames[f])})
  {
  }

  lemma PagesInsert(objs: Objs, frames: Frames, pages: Pages, f: nat, fr: Frame)
    requires PagesOk(objs, frames, pages) && f !in frames && Key(fr) !in pages && fr.obj in objs
    ensures PagesOk(objs, frames[f := fr], pages[Key(fr) := f])
  {
  }

  /** Objects that differ only in their pages. */
  ghost predicate SameShape(objs: Objs, objs': Objs) {
    && objs'.Keys == objs.Keys
    && forall o | o in objs ::
         objs'[o].shadowed == objs[o].shadowed && objs'[o].refcount - objs'[o].nrespages ==
           objs[o].refcount - objs[o].nrespages
  }

  lemma ShapeKeeps(objs: Objs, objs': Objs, vmas: seq<nat>, temp: Option<nat>, depth: map<nat, nat>)
    requires SameShape(objs, objs')
    ensures CountsOk(objs, vmas, temp) ==> CountsOk(objs', vmas, temp)
    ensures ChainsOk(objs, depth) ==> ChainsOk(objs', depth)
    ensures forall o :: RefsTo(objs', vmas, o) == RefsTo(objs, vmas, o)
  {
    forall o
      ensures Kids(objs', o) == Kids(objs, o)
    {
    }
    if CountsOk(objs, vmas, temp) {
      forall o | o in objs'
        ensures CountOk(objs', vmas, temp, o)
      {
        assert CountOk(objs, vmas, temp, o);
      }
    }
  }

  // ---------------------------------------------------------------------
  // Lookups
  // ---------------------------------------------------------------------

  ghost function Addr(frames: Frames, pages: Pages, k: (nat, nat)): Option<nat> {
    if k in pages && pages[k] in frames then Some(frames[pages[k]].addr) else None
  }

  /** Page `p` of `src` has gone to `dest`, unless `dest` had one of its own. */
  ghost predicate PageMoved(frames: Frames, pages: Pages, frames': Frames, pages': Pages, src: nat, dest: nat, p: nat) {
    && Addr(frames, pages, (src, p)).Some? && Addr(frames', pages', (src, p)).None?
    && Addr(frames', pages', (dest, p)) == (if (dest, p) in pages then Addr(frames, pages, (dest, p))
      else Addr(frames, pages, (src, p)))
    && forall k | k != (src, p) && k != (dest, p) :: Addr(frames', pages', k) == Addr(frames, pages, k)
  }

  /** Nothing but `dest` shadows `src`. */
  ghost predicate OnlyKid(objs: Objs, src: nat, dest: nat) { Kids(objs, src) == {dest} }

  /** No lookup that starts above `src` notices that a page has moved up. */
  lemma {:induction false} MoveIsUnseen(objs: Objs, objs': Objs, frames: Frames, pages: Pages, frames': Frames,
    pages': Pages,
                                        depth: map<nat, nat>, src: nat, dest: nat, p: nat, x: nat, q: nat)
    requires PagesOk(objs, frames, pages) && PagesOk(objs', frames', pages') && SameShape(objs, objs')
    requires ChainsOk(objs, depth) && ChainsOk(objs', depth)
    requires PageMoved(frames, pages, frames', pages', src, dest, p) && OnlyKid(objs, src, dest)
    requires x in objs && x != src
    ensures Lookup(objs', frames', pages', depth, x, q) == Lookup(objs, frames, pages, depth, x, q)
    decreases depth[x]
  {
    assert Addr(frames, pages, (x, q)).Some? <==> (x, q) in pages;
    assert Addr(frames', pages', (x, q)).Some? <==> (x, q) in pages';
    assert x in Kids(objs, src) <==> x == dest;
    if x != dest || (x, q) !in pages' {
      if (x, q) !in pages && objs[x].shadowed.Some? {
        var y := objs[x].shadowed.value;
        if y != src {
          MoveIsUnseen(objs, objs', frames, pages, frames', pages', depth, src, dest, p, y, q);
        } else {
          assert Addr(frames, pages, (y, q)) == Addr(frames', pages', (y, q));
          if (y, q) !in pages && objs[y].shadowed.Some? {
            MoveIsUnseen(objs, objs', frames, pages, frames', pages', depth, src, dest, p, objs[y].shadowed.value, q);
          }
        }
      }
    }
  }

  // ---------------------------------------------------------------------
  // An object without pages is taken out of the chain
  // ---------------------------------------------------------------------

  /** `o`, which only `last` shadows, is taken out. */
  function Unlinked(objs: Objs, last: nat, o: nat): Objs
    requires last in objs && o in objs
  {
    (objs - {o})[last := objs[last].(shadowed := objs[o].shadowed)]
  }

  ghost predicate CanUnlink(objs: Objs, last: nat, o: nat) {
    && last in objs && o in objs && last != o && objs[last].shadowed == Some(o) && Kids(objs, o) == {last}
    && objs[o].shadowed.Some? && objs[o].shadowed.value != o
  }

  /** The reference of `o` to the object below passes to `last`; all other references stay. */
  lemma UnlinkKids(objs: Objs, last: nat, o: nat, y: nat)
    requires CanUnlink(objs, last, o) && y != o
    ensures |Kids(Unlinked(objs, last, o), y)| == |Kids(objs, y)|
  {
    var sh := objs[o].shadowed.value;
    var kids, kids' := Kids(objs, y), Kids(Unlinked(objs, last, o), y);
    if y == sh {
      assert kids' == kids - {o} + {last};
    } else {
      assert kids' == kids;
    }
  }

  lemma UnlinkCounts(objs: Objs, vmas: seq<nat>, temp: Option<nat>, last: nat, o: nat)
    requires CanUnlink(objs, last, o) && CountsOk(objs, vmas, temp)
    ensures CountsOk(Unlinked(objs, last, o), vmas, temp)
    ensures forall y | y != o :: RefsTo(Unlinked(objs, last, o), vmas, y) == RefsTo(objs, vmas, y)
  {
    var objs' := Unlinked(objs, last, o);
    forall y: nat | y != o
      ensures RefsTo(objs', vmas, y) == RefsTo(objs, vmas, y)
    {
      UnlinkKids(objs, last, o, y);
    }
    forall y | y in objs'
      ensures CountOk(objs', vmas, temp, y)
    {
      assert CountOk(objs, vmas, temp, y);
    }
  }

  lemma UnlinkRest(objs: Objs, frames: Frames, pages: Pages, depth: map<nat, nat>, last: nat, o: nat)
    requires CanUnlink(objs, last, o) && objs[o].respages == []
    requires PagesOk(objs, frames, pages) && ListsOk(objs, frames) && ChainsOk(objs, depth)
    ensures var objs' := Unlinked(objs, last, o);
      PagesOk(objs', frames, pages) && ListsOk(objs', frames) && ChainsOk(objs', depth)
  {
    var objs' := Unlinked(objs, last, o);
    assert ListOk(objs[o], o, frames);
    forall f | f in frames
      ensures frames[f].obj in objs'
    {
      assert frames[f].obj != o;
    }
    forall x | x in objs'
      ensures ListOk(objs'[x], x, frames)
    {
      assert ListOk(objs[x], x, frames);
    }
    forall x | x in objs' && objs'[x].shadowed.Some?
      ensures objs'[x].shadowed.value in objs' && depth[objs'[x].shadowed.value] < depth[x]
    {
      assert x in Kids(objs, o) <==> x == last;
    }
  }

  /** No lookup notices that an object without pages has gone. */
  lemma {:induction false} UnlinkIsUnseen(objs: Objs, frames: Frames, pages: Pages, depth: map<nat, nat>,
                                          last: nat, o: nat, x: nat, q: nat)
    requires CanUnlink(objs, last, o) && PagesOk(objs, frames, pages) && ChainsOk(objs, depth)
    requires var objs' := Unlinked(objs, last, o); PagesOk(objs', frames, pages) && ChainsOk(objs', depth)
    requires x in objs && x != o
    ensures Lookup(Unlinked(objs, last, o), frames, pages, depth, x, q) == Lookup(objs, frames, pages, depth, x, q)
    decreases depth[x]
  {
    assert (o, q) !in pages;
    assert x in Kids(objs, o) <==> x == last;
    if (x, q) !in pages && objs[x].shadowed.Some? {
      var y := if x == last then objs[o].shadowed.value else objs[x].shadowed.value;
      UnlinkIsUnseen(objs, frames, pages, depth, last, o, y, q);
    }
  }

  // ---------------------------------------------------------------------
  // Collapsed chains
  // ---------------------------------------------------------------------

  /** From `o` down to the bottom object, every object is shadowed twice. */
  ghost predicate Shared(objs: Objs, vmas: seq<nat>, depth: map<nat, nat>, o: nat)
    requires ChainsOk(objs, depth) && o in objs
    decreases depth[o]
  {
    objs[o].shadowed.None? || (RefsTo(objs, vmas, o) == 2 && Shared(objs, vmas, depth, objs[o].shadowed.value))
  }

  /** There is nothing left to take out below the top object of a chain. */
  ghost predicate Collapsed(objs: Objs, vmas: seq<nat>, depth: map<nat, nat>, top: nat)
    requires ChainsOk(objs, depth) && top in objs
  {
    objs[top].shadowed.None? || Shared(objs, vmas, depth, objs[top].shadowed.value)
  }

  /** Objects with the same links between them. */
  ghost predicate SameTree(objs: Objs, objs': Objs) {
    objs'.Keys == objs.Keys && forall o | o in objs :: objs'[o].shadowed == objs[o].shadowed
  }

  lemma SameTreeRefs(objs: Objs, objs': Objs, vmas: seq<nat>, o: nat)
    requires SameTree(objs, objs')
    ensures Kids(objs', o) == Kids(objs, o) && RefsTo(objs', vmas, o) == RefsTo(objs, vmas, o)
  {
    assert Kids(objs', o) == Kids(objs, o);
  }

  lemma {:induction false} SharedSameTree(objs: Objs, objs': Objs, vmas: seq<nat>, depth: map<nat, nat>, x: nat)
    requires SameTree(objs, objs') && ChainsOk(objs, depth) && ChainsOk(objs', depth) && x in objs
      && Shared(objs, vmas, depth, x)
    ensures Shared(objs', vmas, depth, x)
    decreases depth[x]
  {
    if objs[x].shadowed.Some? {
      SameTreeRefs(objs, objs', vmas, x);
      SharedSameTree(objs, objs', vmas, depth, objs[x].shadowed.value);
    }
  }

  lemma {:induction false} SharedAfterUnlink(objs: Objs, vmas: seq<nat>, temp: Option<nat>, depth: map<nat, nat>,
    last: nat, o: nat, x: nat)
    requires CanUnlink(objs, last, o) && CountsOk(objs, vmas, temp) && RefsTo(objs, vmas, o) == 1
    requires ChainsOk(objs, depth) && ChainsOk(Unlinked(objs, last, o), depth)
    requires x in objs && x != o && Shared(objs, vmas, depth, x)
    ensures Shared(Unlinked(objs, last, o), vmas, depth, x)
    decreases depth[x]
  {
    if objs[x].shadowed.Some? {
      UnlinkCounts(objs, vmas, temp, last, o);
      SharedAfterUnlink(objs, vmas, temp, depth, last, o, objs[x].shadowed.value);
    }
  }
}
