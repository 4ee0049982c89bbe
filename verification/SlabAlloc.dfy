/** The slab allocator: free chains through the control words of the objects. */
module SlabAlloc {
  import opened Arith
  import opened Common
  import opened Lists
  import opened SlabGeometry

  /**
   * The control word of an object: the next free object (zero for none), or the slab of an
   * object in use. The flag `sb_free` tells which of the two it is.
   */
  datatype Ctl = Next(obj: nat) | InSlab(slab: nat)

  datatype Slab = Slab(inuse: int, free: nat)

  ghost function Objs(a: nat, d: nat, n: nat): set<nat> { set i | 0 <= i < n :: ObjAt(a, d, i) }

  /** The chain of free objects that starts at `first`. */
  ghost predicate Chain(ctl: map<nat, Ctl>, first: nat, chain: seq<nat>)
    decreases |chain|
  {
    if chain == [] then first == 0
    else first == chain[0] != 0 && first in ctl && ctl[first].Next? && Chain(ctl, ctl[first].obj, chain[1..])
  }

  /** The chain of a slab holds its free objects, each once; the others know their slab; and the count is right. */
  ghost predicate SlabOk(a: nat, d: nat, n: nat, s: Slab, ctl: map<nat, Ctl>, chain: seq<nat>) {
    && Chain(ctl, s.free, chain) && Distinct(chain) && (forall o | o in chain :: o in Objs(a, d, n))
    && s.inuse + |chain| == n
    && forall o | o in Objs(a, d, n) && o !in chain :: o in ctl && ctl[o] == InSlab(a)
  }

  /** A chain does not depend on control words of other objects. */
  lemma {:induction false} ChainFrame(ctl: map<nat, Ctl>, ctl': map<nat, Ctl>, first: nat, chain: seq<nat>)
    requires Chain(ctl, first, chain) && forall o | o in chain :: o in ctl && o in ctl' && ctl'[o] == ctl[o]
    ensures Chain(ctl', first, chain)
    decreases |chain|
  {
    if chain != [] {
      ChainFrame(ctl, ctl', ctl[first].obj, chain[1..]);
    }
  }

  lemma {:induction false} ChainInCtl(ctl: map<nat, Ctl>, first: nat, chain: seq<nat>)
    requires Chain(ctl, first, chain)
    ensures forall o | o in chain :: o in ctl
    decreases |chain|
  {
    if chain != [] {
      ChainInCtl(ctl, ctl[first].obj, chain[1..]);
    }
  }

  /** Control words of other slabs may change. */
  lemma SlabFrame(a: nat, d: nat, n: nat, s: Slab, ctl: map<nat, Ctl>, ctl': map<nat, Ctl>, chain: seq<nat>)
    requires SlabOk(a, d, n, s, ctl, chain) && forall o | o in Objs(a, d, n) && o in ctl ::
      o in ctl' && ctl'[o] == ctl[o]
    ensures SlabOk(a, d, n, s, ctl', chain)
  {
    ChainInCtl(ctl, s.free, chain);
    ChainFrame(ctl, ctl', s.free, chain);
  }

  // ---------------------------------------------------------------------
  // One slab
  // ---------------------------------------------------------------------

  /** Taking the first free object. */
  lemma Take(a: nat, d: nat, n: nat, s: Slab, ctl: map<nat, Ctl>, chain: seq<nat>)
    requires SlabOk(a, d, n, s, ctl, chain) && s.inuse < n
    ensures chain != [] && s.free == chain[0] && s.free in ctl && ctl[s.free].Next?
    ensures SlabOk(a, d, n, Slab(s.inuse + 1, ctl[s.free].obj), ctl[s.free := InSlab(a)], chain[1..])
  {
    assert chain == [chain[0]] + chain[1..];
    ChainInCtl(ctl, s.free, chain);
    assert Distinct(chain[1..]) && chain[0] !in chain[1..];
    ChainFrame(ctl, ctl[s.free := InSlab(a)], ctl[s.free].obj, chain[1..]);
  }

  /** Giving an object back. */
  lemma Give(a: nat, d: nat, n: nat, s: Slab, ctl: map<nat, Ctl>, chain: seq<nat>, o: nat)
    requires SlabOk(a, d, n, s, ctl, chain) && o in Objs(a, d, n) && o !in chain && o != 0
    ensures SlabOk(a, d, n, Slab(s.inuse - 1, o), ctl[o := Next(s.free)], [o] + chain)
  {
    ChainInCtl(ctl, s.free, chain);
    var all := [o] + chain;
    assert all[1..] == chain;
    ChainFrame(ctl, ctl[o := Next(s.free)], s.free, chain);
  }

  /** Objects of slabs in separate blocks are different. */
  lemma SlabsApart(a: nat, b: nat, objsize: nat, order: nat, o: nat)
    requires a + BlockSize(order) <= b || b + BlockSize(order) <= a
    ensures var d, n := objsize + CTL, Capacity(objsize, order); !(o in Objs(a, d, n) && o in Objs(b, d, n))
  {
    var d, n := objsize + CTL, Capacity(objsize, order);
    if o in Objs(a, d, n) && o in Objs(b, d, n) {
      var i :| 0 <= i < n && o == ObjAt(a, d, i);
      var j :| 0 <= j < n && o == ObjAt(b, d, j);
      ObjectsFit(objsize, order, a, i);
      ObjectsFit(objsize, order, b, j);
      assert false;
    }
  }

  // ---------------------------------------------------------------------
  // The allocator
  // ---------------------------------------------------------------------

  ghost predicate Apart(a: nat, b: nat, order: nat) { a + BlockSize(order) <= b || b + BlockSize(order) <= a }

  /**
   * The slabs of an allocator, by the address of their first object, the newest first; and the
   * free objects of each.
   */
  datatype Slabs = Slabs(list: seq<nat>, recs: map<nat, Slab>, ctl: map<nat, Ctl>, chains: map<nat, seq<nat>>)

  ghost predicate AllOk(s: Slabs, objsize: nat, order: nat) {
    && Capacity(objsize, order) >= 1 && Distinct(s.list) && 0 !in s.list
    && (forall a | a in s.list :: a in s.recs && a in s.chains)
    && (forall a {:trigger OneOk(s, objsize, order, a)} | a in s.list :: OneOk(s, objsize, order, a))
    && forall a, b {:trigger Apart(a, b, order)} | a in s.list && b in s.list && a != b :: Apart(a, b, order)
  }

  ghost predicate OneOk(s: Slabs, objsize: nat, order: nat, a: nat) {
    a in s.recs && a in s.chains && SlabOk(a, objsize + CTL, Capacity(objsize, order), s.recs[a], s.ctl, s.chains[a])
  }

  /** Object `o` of slab `a` is in use. */
  ghost predicate LiveIn(s: Slabs, objsize: nat, order: nat, a: nat, o: nat) {
    a in s.list && a in s.chains && o in Objs(a, objsize + CTL, Capacity(objsize, order)) && o !in s.chains[a]
  }

  ghost predicate Live(s: Slabs, objsize: nat, order: nat, o: nat) { exists a :: LiveIn(s, objsize, order, a, o) }

  /** Does `p` point past the front red zone of an object in use? */
  ghost predicate InUse(s: Slabs, objsize: nat, order: nat, p: nat) { p >= RED && Live(s, objsize, order, p - RED) }

  ghost function ObjectsOf(s: Slabs, objsize: nat, order: nat): iset<nat> { iset p: nat | InUse(s, objsize, order, p) }

  ghost predicate SameLive(s: Slabs, s': Slabs, objsize: nat, order: nat) {
    forall a, o :: LiveIn(s', objsize, order, a, o) <==> LiveIn(s, objsize, order, a, o)
  }

  /** A new slab, all of whose objects are free. */
  lemma GrowKeeps(s: Slabs, s': Slabs, objsize: nat, order: nat, a: nat)
    requires AllOk(s, objsize, order) && a > 0 && forall b | b in s.list :: Apart(a, b, order)
    requires var d, n := objsize + CTL, Capacity(objsize, order);
      && s'.list == [a] + s.list && s'.recs == s.recs[a := Slab(0, a)]
        && s'.chains == s.chains[a := AllObjs(a, d, 0, n)]
      && SlabOk(a, d, n, Slab(0, a), s'.ctl, AllObjs(a, d, 0, n))
      && forall o | o !in Objs(a, d, n) && o in s.ctl :: o in s'.ctl && s'.ctl[o] == s.ctl[o]
    ensures AllOk(s', objsize, order) && SameLive(s, s', objsize, order)
  {
    assert forall b :: b in s'.list <==> b == a || b in s.list;
    assert a !in s.list;
    forall b | b in s'.list
      ensures OneOk(s', objsize, order, b)
    {
      if b != a {
        assert Apart(a, b, order) && OneOk(s, objsize, order, b);
        OtherSlab(a, b, objsize, order, s.recs[b], s.ctl, s'.ctl, s.chains[b]);
      }
    }
    GrowLive(s, s', objsize, order, a);
  }

  lemma GrowLive(s: Slabs, s': Slabs, objsize: nat, order: nat, a: nat)
    requires s'.list == [a] + s.list && a !in s.list
    requires s'.chains == s.chains[a := AllObjs(a, objsize + CTL, 0, Capacity(objsize, order))]
    ensures SameLive(s, s', objsize, order)
  {
    NoneLive(a, objsize + CTL, Capacity(objsize, order));
    forall b, o
      ensures LiveIn(s', objsize, order, b, o) <==> LiveIn(s, objsize, order, b, o)
    {
    }
  }

  /** A change within one slab. */
  lemma ChangeKeeps(s: Slabs, s': Slabs, objsize: nat, order: nat, a: nat, r: Slab, chain: seq<nat>)
    requires AllOk(s, objsize, order) && a in s.list
    requires s'.list == s.list && s'.recs == s.recs[a := r] && s'.chains == s.chains[a := chain]
    requires var d, n := objsize + CTL, Capacity(objsize, order);
      && SlabOk(a, d, n, r, s'.ctl, chain)
      && forall o | o !in Objs(a, d, n) && o in s.ctl :: o in s'.ctl && s'.ctl[o] == s.ctl[o]
    ensures AllOk(s', objsize, order)
  {
    forall b | b in s'.list
      ensures OneOk(s', objsize, order, b)
    {
      assert OneOk(s, objsize, order, b);
      if b != a {
        assert Apart(a, b, order);
        OtherSlab(a, b, objsize, order, s.recs[b], s.ctl, s'.ctl, s.chains[b]);
      }
    }
  }

  class Allocator {
    const objsize: nat
    const order: nat
    const nobjs: nat
    var slabs: seq<nat>
    var recs: map<nat, Slab>
    var ctl: map<nat, Ctl>
    ghost var chains: map<nat, seq<nat>>

    ghost function Now(): Slabs
      reads this
    {
      Slabs(slabs, recs, ctl, chains)
    }

    ghost predicate Valid()
      reads this
    {
      nobjs == Capacity(objsize, order) && AllOk(Now(), objsize, order)
    }

    /** The order and the capacity are those that `_calc_slab_size` has settled on. */
    constructor (objsize: nat, order: nat)
      requires Capacity(objsize, order) >= 1
      ensures Valid() && this.objsize == objsize && this.order == order && slabs == []
      ensures Objects() == iset{}
    {
      this.objsize, this.order, nobjs := objsize, order, Capacity(objsize, order);
      slabs, recs, ctl, chains := [], map[], map[], map[];
      new;
      assert forall p :: !InUse(Now(), objsize, order, p);
    }

    /** The objects in use. */
    ghost function Objects(): iset<nat>
      reads this
    {
      ObjectsOf(Now(), objsize, order)
    }

    /** Does `p` point past the front red zone of an object of some slab? */
    ghost predicate IsObject(p: nat)
      reads this
    {
      p >= RED && exists a | a in slabs :: p - RED in Objs(a, objsize + CTL, nobjs)
    }

    /** An object in use lies, red zones included, in the block of some slab. */
    lemma Within(p: nat) returns (a: nat)
      requires Valid() && p in Objects()
      ensures a in slabs && a + RED <= p && p - RED + objsize <= a + BlockSize(order)
      ensures p - RED in Objs(a, objsize + CTL, nobjs)
    {
      var o := p - RED;
      a :| LiveIn(Now(), objsize, order, a, o);
      LiveApart(Now(), objsize, order, a, o, a, o);
    }

    /** Objects in use do not overlap, red zones included. */
    lemma Spaced(p: nat, q: nat)
      requires Valid() && p in Objects() && q in Objects()
      ensures p == q || p + objsize <= q || q + objsize <= p
    {
      var o, x := p - RED, q - RED;
      var a :| LiveIn(Now(), objsize, order, a, o);
      var b :| LiveIn(Now(), objsize, order, b, x);
      LiveApart(Now(), objsize, order, a, o, b, x);
    }

    /** Lay out a new slab: every object is free and points to the next one. */
    method InitChain(a: nat)
      requires nobjs >= 1 && a > 0
      modifies this`ctl
      ensures SlabOk(a, objsize + CTL, nobjs, Slab(0, a), ctl, AllObjs(a, objsize + CTL, 0, nobjs))
      ensures forall o | o !in Objs(a, objsize + CTL, nobjs) && o in old(ctl) :: o in ctl && ctl[o] == old(ctl)[o]
    {
      ghost var d := objsize + CTL;
      var obj, i := a, 0;
      while i < nobjs - 1
        invariant 0 <= i <= nobjs - 1 && obj == ObjAt(a, d, i)
        invariant forall j: nat | j < i :: Linked(a, d, nobjs, j, ctl)
        invariant forall o | o !in Objs(a, d, nobjs) && o in old(ctl) :: o in ctl && ctl[o] == old(ctl)[o]
      {
        StrideOn(a, d, i);
        var next := obj + objsize + CTL;
        LinkOne(a, d, nobjs, i, ctl, obj, next, ctl[obj := Next(next)]);
        ctl := ctl[obj := Next(next)];
        obj := next;
        i := i + 1;
      }
      LinkOne(a, d, nobjs, i, ctl, obj, 0, ctl[obj := Next(0)]);
      ctl := ctl[obj := Next(0)];
      FreshChain(a, d, nobjs, ctl);
    }

    /** `_slab_allocator_grow`, given a block of pages. */
    method Grow(a: nat)
      requires Valid() && a > 0 && forall b | b in slabs :: Apart(a, b, order)
      modifies this
      ensures Valid() && slabs == [a] + old(slabs) && a in recs && recs[a].inuse == 0
      ensures SameLive(old(Now()), Now(), objsize, order)
    {
      ghost var s := Now();
      InitChain(a);
      recs := recs[a := Slab(0, a)];
      chains := chains[a := AllObjs(a, objsize + CTL, 0, nobjs)];
      slabs := [a] + slabs;
      GrowKeeps(s, Now(), objsize, order, a);
    }

    /** Every slab has all its objects in use. */
    ghost predicate Full()
      reads this
    {
      forall a | a in slabs :: a in recs && recs[a].inuse == nobjs
    }

    /** The first slab in the list that is not full. */
    method FindSlab() returns (r: Option<nat>)
      requires Valid()
      ensures r.Some? ==> r.value in slabs && recs[r.value].inuse < nobjs
      ensures r.None? <==> Full()
    {
      var i := 0;
      while i < |slabs|
        invariant 0 <= i <= |slabs| && forall j | 0 <= j < i :: slabs[j] in recs && recs[slabs[j]].inuse == nobjs
      {
        assert OneOk(Now(), objsize, order, slabs[i]);
        if recs[slabs[i]].inuse != nobjs {
          return Some(slabs[i]);
        }
        i := i + 1;
      }
      r := None;
    }

    /** Take the first free object of a slab. */
    method TakeFrom(a: nat) returns (o: nat)
      requires Valid() && a in slabs && recs[a].inuse < nobjs
      modifies this`recs, this`ctl, this`chains
      ensures Valid() && !Live(old(Now()), objsize, order, o) && LiveIn(Now(), objsize, order, a, o)
      ensures forall b, x :: LiveIn(Now(), objsize, order, b, x) <==>
        LiveIn(old(Now()), objsize, order, b, x) || (b == a && x == o)
      ensures recs == old(recs)[a := Slab(old(recs)[a].inuse + 1, recs[a].free)]
    {
      ghost var s := Now();
      assert OneOk(s, objsize, order, a);
      Take(a, objsize + CTL, nobjs, recs[a], ctl, chains[a]);
      o := recs[a].free;
      ghost var chain := chains[a];
      recs := recs[a := Slab(recs[a].inuse + 1, ctl[o].obj)];
      ctl := ctl[o := InSlab(a)];
      chains := chains[a := chain[1..]];
      ChangeKeeps(s, Now(), objsize, order, a, recs[a], chain[1..]);
      Taken(s, Now(), objsize, order, a, chain, o);
    }

    /**
     * `slab_obj_alloc`; `page` is a block of pages to grow by, if the page allocator has one.
     * An object that was free is handed out, from a slab at hand or else from a new one.
     */
    method Alloc(page: Option<nat>) returns (r: Option<nat>)
      requires Valid() && (page.Some? ==> page.value > 0 && forall b | b in slabs :: Apart(page.value, b, order))
      modifies this
      ensures Valid() && slabs == if old(Full()) && page.Some? then [page.value] + old(slabs) else old(slabs)
      ensures r.None? <==> page.None? && old(Full())
      ensures r.None? ==> Now() == old(Now())
      ensures r.Some? ==> r.value !in old(Objects()) && Objects() == old(Objects()) + iset{r.value}
    {
      ghost var s := Now();
      var at := FindSlab();
      if at.None? {
        if page.None? {
          return None;
        }
        Grow(page.value);
        at := page;
      }
      ghost var s1 := Now();
      var o := TakeFrom(at.value);
      LiveAfterTake(s, s1, Now(), objsize, order, at.value, o);
      r := Some(o + RED);
    }

    /**
     * `slab_obj_free`: an object in use goes back to its own slab. Freeing one that is free
     * already is noticed, and then nothing changes.
     */
    method Free(p: nat) returns (ok: bool)
      requires Valid() && IsObject(p)
      modifies this`recs, this`ctl, this`chains
      ensures Valid() && slabs == old(slabs) && (ok <==> p in old(Objects()))
      ensures Objects() == old(Objects()) - iset{p}
    {
      var o := p - RED;
      ghost var a :| a in slabs && o in Objs(a, objsize + CTL, nobjs);
      FlagTells(Now(), objsize, order, a, o);
      if ctl[o].Next? {
        NotThere(Objects(), p);
        return false;
      }
      GiveTo(o, a);
      return true;
    }

    /** Put an object in use back at the head of the free chain of its slab. */
    method GiveTo(o: nat, ghost a: nat)
      requires Valid() && LiveIn(Now(), objsize, order, a, o)
      modifies this`recs, this`ctl, this`chains
      ensures Valid() && recs == old(recs)[a := Slab(old(recs)[a].inuse - 1, o)]
      ensures chains == old(chains)[a := [o] + old(chains)[a]]
      ensures Objects() == old(Objects()) - iset{o + RED}
    {
      ghost var s := Now();
      FlagTells(s, objsize, order, a, o);
      var slab := ctl[o].slab;
      ctl := ctl[o := Next(recs[slab].free)];
      recs := recs[slab := Slab(recs[slab].inuse - 1, o)];
      chains := chains[a := [o] + chains[a]];
      GiveKeeps(s, Now(), objsize, order, a, o);
    }

    /**
     * The part of `slab_allocators_reclaim` for one allocator: give up slabs without objects in
     * use, from the head of the list on, until `target` pages have been freed (a target that is
     * not positive is never met). The slabs in `done` have been looked at, those in `rest` not.
     */
    method DropUnused(pool: PagePool, target: int, before: int)
      returns (freed: int, ghost done: seq<nat>, ghost rest: seq<nat>)
      requires (forall a | a in slabs :: a in recs) && (target > 0 ==> before < target)
      modifies this`slabs, pool
      ensures old(slabs) == done + rest && slabs == Used(recs, done) + rest
      ensures pool.given == GivenUp(old(pool.given), recs, done, order)
      ensures PagesIn(pool.given) == PagesIn(old(pool.given)) + freed - before
      ensures rest == [] || (target > 0 && freed >= target)
    {
      var kept, left := [], slabs;
      ghost var given, pages := pool.given, PagesIn(pool.given);
      freed, done := before, [];
      while left != []
        invariant (forall a | a in left :: a in recs) && (target > 0 ==> freed < target)
        invariant old(slabs) == done + left && kept == Used(recs, done) && slabs == kept + left
        invariant pool.given == GivenUp(given, recs, done, order) && PagesIn(pool.given) == pages + freed - before
        decreases |left|
      {
        var s, next := left[0], left[1..];
        WalkStep(recs, done, s, left, next, kept);
        GivenStep(given, recs, done, s, order, pool.given);
        if recs[s].inuse == 0 {
          slabs := kept + next;
          pool.given := pool.given + [PageBlock(s, order)];
          freed := freed + Pages(order);
        } else {
          kept := kept + [s];
        }
        done, left := done + [s], next;
        if target > 0 && freed >= target {
          return freed, done, left;
        }
      }
      return freed, done, left;
    }

    /** No object in use is lost with the slabs given up. */
    method Reclaim(pool: PagePool, target: int, before: int)
      returns (freed: int, ghost done: seq<nat>, ghost rest: seq<nat>)
      requires Valid() && (target > 0 ==> before < target)
      modifies this`slabs, pool
      ensures Valid() && Objects() == old(Objects())
      ensures old(slabs) == done + rest && slabs == Used(recs, done) + rest
      ensures pool.given == GivenUp(old(pool.given), recs, done, order)
      ensures PagesIn(pool.given) == PagesIn(old(pool.given)) + freed - before
      ensures rest == [] || (target > 0 && freed >= target)
    {
      ghost var s := Now();
      forall a | a in slabs
        ensures a in recs
      {
        assert OneOk(s, objsize, order, a);
      }
      freed, done, rest := DropUnused(pool, target, before);
      Reclaimed(s, Now(), objsize, order, done, rest);
      SameObjects(s, Now(), objsize, order);
    }

    /** No object in use has been lost. */
    twostate predicate Thinned()
      reads this
    {
      Valid() && Objects() == old(Objects())
    }

    /** All slabs without objects in use have been given up. */
    twostate predicate Cleared()
      reads this
    {
      slabs == Used(recs, old(slabs))
    }

    /** All slabs without objects in use have gone, unless the target has been met; the pages are counted. */
    method ReclaimTo(pool: PagePool, target: int, before: int) returns (freed: int)
      requires Valid() && (target > 0 ==> before < target)
      modifies this`slabs, pool
      ensures Thinned() && (Cleared() || (target > 0 && freed >= target))
      ensures PagesIn(pool.given) == PagesIn(old(pool.given)) + freed - before
    {
      ghost var done, rest;
      freed, done, rest := Reclaim(pool, target, before);
      assert rest == [] ==> done + rest == done && slabs == Used(recs, done);
    }
  }

  datatype PageBlock = PageBlock(addr: nat, order: nat)

  /** The blocks that have been given to the page allocator. */
  class PagePool {
    var given: seq<PageBlock>

    constructor ()
      ensures given == []
    {
      given := [];
    }
  }

  /** Linking one more object leaves the links before it. */
  lemma LinkOne(a: nat, d: nat, n: nat, i: nat, ctl: map<nat, Ctl>, obj: nat, next: nat, ctl': map<nat, Ctl>)
    requires d > 0 && i < n && obj == ObjAt(a, d, i) && forall j: nat | j < i :: Linked(a, d, n, j, ctl)
    requires next == (if i + 1 < n then ObjAt(a, d, i + 1) else 0) && ctl' == ctl[obj := Next(next)]
    ensures obj in Objs(a, d, n) && forall j: nat | j < i + 1 :: Linked(a, d, n, j, ctl')
  {
    forall j: nat | j <= i
      ensures Linked(a, d, n, j, ctl')
    {
      if j < i {
        assert Linked(a, d, n, j, ctl);
        ObjectsApart(a, d, j, i);
      }
    }
  }

  /** A change of control words of the slab at `a` does not touch the slab at `b`. */
  lemma OtherSlab(a: nat, b: nat, objsize: nat, order: nat, s: Slab, ctl: map<nat, Ctl>, ctl': map<nat, Ctl>,
    chain: seq<nat>)
    requires Apart(a, b, order) && SlabOk(b, objsize + CTL, Capacity(objsize, order), s, ctl, chain)
    requires forall o | o !in Objs(a, objsize + CTL, Capacity(objsize, order)) && o in ctl ::
      o in ctl' && ctl'[o] == ctl[o]
    ensures SlabOk(b, objsize + CTL, Capacity(objsize, order), s, ctl', chain)
  {
    var d, n := objsize + CTL, Capacity(objsize, order);
    forall o | o in Objs(b, d, n)
      ensures o !in Objs(a, d, n)
    {
      SlabsApart(a, b, objsize, order, o);
    }
    SlabFrame(b, d, n, s, ctl, ctl', chain);
  }

  /** All objects of a slab from the `i`-th on. */
  ghost function AllObjs(a: nat, d: nat, i: nat, n: nat): seq<nat>
    requires i <= n
    decreases n - i
  {
    if i == n then [] else [ObjAt(a, d, i)] + AllObjs(a, d, i + 1, n)
  }

  lemma StrideOn(a: nat, d: nat, i: nat)
    ensures ObjAt(a, d, i + 1) == ObjAt(a, d, i) + d
  {
    Distribute(i, 1, d);
  }

  lemma {:induction false} AllObjsAre(a: nat, d: nat, i: nat, n: nat)
    requires i <= n && d > 0
    ensures |AllObjs(a, d, i, n)| == n - i && Distinct(AllObjs(a, d, i, n))
    ensures forall o :: o in AllObjs(a, d, i, n) <==> exists j: nat :: i <= j < n && o == ObjAt(a, d, j)
    decreases n - i
  {
    if i < n {
      AllObjsAre(a, d, i + 1, n);
      forall j: nat | i < j
        ensures ObjAt(a, d, j) != ObjAt(a, d, i)
      {
        ObjectsApart(a, d, i, j);
      }
      var rest := AllObjs(a, d, i + 1, n);
      assert ObjAt(a, d, i) !in rest && AllObjs(a, d, i, n) == [ObjAt(a, d, i)] + rest;
    }
  }

  /** The `j`-th object of a new slab points to the next one. */
  ghost predicate Linked(a: nat, d: nat, n: nat, j: nat, ctl: map<nat, Ctl>) {
    ObjAt(a, d, j) in ctl && ctl[ObjAt(a, d, j)] == Next(if j + 1 < n then ObjAt(a, d, j + 1) else 0)
  }

  lemma {:induction false} FreshLinks(a: nat, d: nat, i: nat, n: nat, ctl: map<nat, Ctl>)
    requires a > 0 && i < n && forall j: nat | j < n :: Linked(a, d, n, j, ctl)
    ensures Chain(ctl, ObjAt(a, d, i), AllObjs(a, d, i, n))
    decreases n - i
  {
    var all := AllObjs(a, d, i, n);
    MulLe(0, i, d);
    assert Linked(a, d, n, i, ctl) && all[0] == ObjAt(a, d, i) && all[1..] == AllObjs(a, d, i + 1, n);
    if i + 1 < n {
      FreshLinks(a, d, i + 1, n, ctl);
    }
  }

  lemma FreshChain(a: nat, d: nat, n: nat, ctl: map<nat, Ctl>)
    requires a > 0 && d > 0 && n >= 1 && forall j: nat | j < n :: Linked(a, d, n, j, ctl)
    ensures SlabOk(a, d, n, Slab(0, a), ctl, AllObjs(a, d, 0, n))
  {
    AllObjsAre(a, d, 0, n);
    FreshLinks(a, d, 0, n, ctl);
  }

  lemma NoneLive(a: nat, d: nat, n: nat)
    requires d > 0
    ensures forall o | o in Objs(a, d, n) :: o in AllObjs(a, d, 0, n)
  {
    AllObjsAre(a, d, 0, n);
  }

  lemma Taken(s: Slabs, s': Slabs, objsize: nat, order: nat, a: nat, chain: seq<nat>, o: nat)
    requires AllOk(s, objsize, order) && a in s.list && s'.list == s.list && chain != [] && o == chain[0]
    requires s.chains[a] == chain && s'.chains == s.chains[a := chain[1..]]
    ensures !Live(s, objsize, order, o) && LiveIn(s', objsize, order, a, o)
    ensures forall b, x :: LiveIn(s', objsize, order, b, x) <==> LiveIn(s, objsize, order, b, x) || (b == a && x == o)
  {
    assert OneOk(s, objsize, order, a) && chain == [o] + chain[1..] && o in chain;
    assert Distinct(chain) && o !in chain[1..];
    forall b | b in s.list && b != a
      ensures o !in Objs(b, objsize + CTL, Capacity(objsize, order))
    {
      assert Apart(a, b, order);
      SlabsApart(a, b, objsize, order, o);
    }
  }

  lemma Given(s: Slabs, s': Slabs, objsize: nat, order: nat, a: nat, chain: seq<nat>, o: nat)
    requires a in s.list && a in s.chains && s'.list == s.list && s.chains[a] == chain
      && s'.chains == s.chains[a := [o] + chain]
    ensures forall b, x :: LiveIn(s', objsize, order, b, x) <==> LiveIn(s, objsize, order, b, x) && !(b == a && x == o)
  {
  }

  lemma LiveAfterTake(s: Slabs, s1: Slabs, s2: Slabs, objsize: nat, order: nat, a: nat, o: nat)
    requires SameLive(s, s1, objsize, order) && LiveIn(s2, objsize, order, a, o) && !Live(s1, objsize, order, o)
    requires forall b, x :: LiveIn(s2, objsize, order, b, x) <==> LiveIn(s1, objsize, order, b, x) || (b == a && x == o)
    ensures o + RED !in ObjectsOf(s, objsize, order)
    ensures ObjectsOf(s2, objsize, order) == ObjectsOf(s, objsize, order) + iset{o + RED}
  {
    forall x
      ensures Live(s2, objsize, order, x) <==> Live(s, objsize, order, x) || x == o
    {
      if Live(s, objsize, order, x) {
        var b :| LiveIn(s, objsize, order, b, x);
        assert LiveIn(s2, objsize, order, b, x);
      }
      if Live(s2, objsize, order, x) {
        var b :| LiveIn(s2, objsize, order, b, x);
        assert x == o || LiveIn(s, objsize, order, b, x);
      }
    }
    SameObjects(s, s1, objsize, order);
  }

  /** The objects of a free chain have their flag set. */
  lemma {:induction false} ChainIsFree(ctl: map<nat, Ctl>, first: nat, chain: seq<nat>)
    requires Chain(ctl, first, chain)
    ensures forall o | o in chain :: o in ctl && ctl[o].Next?
    decreases |chain|
  {
    if chain != [] {
      ChainIsFree(ctl, ctl[first].obj, chain[1..]);
    }
  }

  lemma NotThere(s: iset<nat>, p: nat)
    requires p !in s
    ensures s - iset{p} == s
  {
  }

  /** The flag of an object is clear exactly when the object is in use. */
  lemma FlagTells(s: Slabs, objsize: nat, order: nat, a: nat, o: nat)
    requires AllOk(s, objsize, order) && a in s.list && o in Objs(a, objsize + CTL, Capacity(objsize, order))
    ensures o in s.ctl && (s.ctl[o].InSlab? <==> LiveIn(s, objsize, order, a, o))
      && (s.ctl[o].InSlab? ==> s.ctl[o].slab == a)
    ensures o + RED in ObjectsOf(s, objsize, order) <==> LiveIn(s, objsize, order, a, o)
  {
    assert OneOk(s, objsize, order, a);
    ChainIsFree(s.ctl, s.recs[a].free, s.chains[a]);
    if Live(s, objsize, order, o) {
      var b :| LiveIn(s, objsize, order, b, o);
      OneSlab(s, objsize, order, a, b, o);
    }
  }

  /** An object lies in one slab only. */
  lemma OneSlab(s: Slabs, objsize: nat, order: nat, a: nat, b: nat, o: nat)
    requires AllOk(s, objsize, order) && a in s.list && b in s.list
    ensures var d, n := objsize + CTL, Capacity(objsize, order); o in Objs(a, d, n) && o in Objs(b, d, n) ==> a == b
  {
    if a != b {
      assert Apart(a, b, order);
      SlabsApart(a, b, objsize, order, o);
    }
  }

  /** An object back at the head of the free chain of its slab. */
  lemma GiveKeeps(s: Slabs, s': Slabs, objsize: nat, order: nat, a: nat, o: nat)
    requires AllOk(s, objsize, order) && LiveIn(s, objsize, order, a, o) && s'.list == s.list
    requires s'.recs == s.recs[a := Slab(s.recs[a].inuse - 1, o)] && s'.ctl == s.ctl[o := Next(s.recs[a].free)]
    requires s'.chains == s.chains[a := [o] + s.chains[a]]
    ensures AllOk(s', objsize, order) && ObjectsOf(s', objsize, order) == ObjectsOf(s, objsize, order) - iset{o + RED}
  {
    assert OneOk(s, objsize, order, a);
    ObjNotZero(a, objsize + CTL, Capacity(objsize, order), o);
    Give(a, objsize + CTL, Capacity(objsize, order), s.recs[a], s.ctl, s.chains[a], o);
    ChangeKeeps(s, s', objsize, order, a, s'.recs[a], s'.chains[a]);
    LiveAfterGive(s, s', objsize, order, a, o);
  }

  lemma LiveAfterGive(s: Slabs, s': Slabs, objsize: nat, order: nat, a: nat, o: nat)
    requires AllOk(s, objsize, order) && LiveIn(s, objsize, order, a, o)
    requires s'.list == s.list && s'.chains == s.chains[a := [o] + s.chains[a]]
    ensures ObjectsOf(s', objsize, order) == ObjectsOf(s, objsize, order) - iset{o + RED}
  {
    Given(s, s', objsize, order, a, s.chains[a], o);
    forall x
      ensures Live(s', objsize, order, x) <==> Live(s, objsize, order, x) && x != o
    {
      if Live(s', objsize, order, x) {
        var b :| LiveIn(s', objsize, order, b, x);
        assert LiveIn(s, objsize, order, b, x);
        OneSlab(s, objsize, order, a, b, o);
      }
      if Live(s, objsize, order, x) && x != o {
        var b :| LiveIn(s, objsize, order, b, x);
        assert LiveIn(s', objsize, order, b, x);
      }
    }
  }

  lemma ObjNotZero(a: nat, d: nat, n: nat, o: nat)
    requires o in Objs(a, d, n) && a > 0
    ensures o > 0
  {
    var i :| 0 <= i < n && o == ObjAt(a, d, i);
    MulLe(0, i, d);
  }

  // ---------------------------------------------------------------------
  // Giving up slabs
  // ---------------------------------------------------------------------

  /** `1 << order` */
  function Pages(order: nat): nat { if order == 0 then 1 else 2 * Pages(order - 1) }

  /** The slabs of a list with objects in use. */
  ghost function Used(recs: map<nat, Slab>, list: seq<nat>): (u: seq<nat>)
    ensures |u| <= |list|
    decreases |list|
  {
    if list == [] then []
    else
      var n := |list| - 1;
      Used(recs, list[..n]) + if Unused(recs, list[n]) then [] else [list[n]]
  }

  ghost predicate Unused(recs: map<nat, Slab>, a: nat) { a in recs && recs[a].inuse == 0 }

  ghost function PagesIn(blocks: seq<PageBlock>): int {
    if blocks == [] then 0 else PagesIn(blocks[..|blocks| - 1]) + Pages(blocks[|blocks| - 1].order)
  }

  /** What has been given up when the slabs of a list have been looked at: those without objects in use, in order. */
  ghost function GivenUp(before: seq<PageBlock>, recs: map<nat, Slab>, list: seq<nat>, order: nat): seq<PageBlock>
    decreases |list|
  {
    if list == [] then before
    else
      var n := |list| - 1;
      GivenUp(before, recs, list[..n], order) + if Unused(recs, list[n]) then [PageBlock(list[n], order)] else []
  }

  lemma GivenStep(before: seq<PageBlock>, recs: map<nat, Slab>, done: seq<nat>, a: nat, order: nat, now: seq<PageBlock>)
    requires now == GivenUp(before, recs, done, order) && a in recs
    ensures recs[a].inuse == 0 ==> now + [PageBlock(a, order)] == GivenUp(before, recs, done + [a], order)
    ensures recs[a].inuse != 0 ==> now == GivenUp(before, recs, done + [a], order)
    ensures PagesIn(now + [PageBlock(a, order)]) == PagesIn(now) + Pages(order)
  {
    assert (done + [a])[..|done|] == done && (now + [PageBlock(a, order)])[..|now|] == now;
  }

  lemma WalkStep(recs: map<nat, Slab>, done: seq<nat>, a: nat, rest: seq<nat>, next: seq<nat>, kept: seq<nat>)
    requires rest != [] && rest[0] == a && next == rest[1..] && kept == Used(recs, done) && a in recs
    ensures Used(recs, done + [a]) == if recs[a].inuse == 0 then kept else kept + [a]
    ensures done + rest == done + [a] + next && kept + rest == kept + [a] + next
  {
    UsedSnoc(recs, done, a);
    MoveOver(done, a, rest);
    MoveOver(kept, a, rest);
  }

  lemma UsedSnoc(recs: map<nat, Slab>, done: seq<nat>, a: nat)
    ensures Used(recs, done + [a]) == Used(recs, done) + if Unused(recs, a) then [] else [a]
  {
    assert (done + [a])[..|done|] == done;
  }

  lemma MoveOver(s: seq<nat>, a: nat, rest: seq<nat>)
    requires rest != [] && rest[0] == a
    ensures s + rest == s + [a] + rest[1..]
  {
    assert rest == [a] + rest[1..];
  }

  lemma {:induction false} UsedIs(recs: map<nat, Slab>, list: seq<nat>)
    requires Distinct(list)
    ensures Distinct(Used(recs, list))
    ensures forall a :: a in Used(recs, list) <==> a in list && !Unused(recs, a)
    decreases |list|
  {
    if list != [] {
      var n := |list| - 1;
      assert list == list[..n] + [list[n]];
      UsedIs(recs, list[..n]);
    }
  }

  lemma DistinctConcat(x: seq<nat>, y: seq<nat>)
    requires Distinct(x) && Distinct(y) && forall a | a in x :: a !in y
    ensures Distinct(x + y)
  {
    var z := x + y;
    forall i, j | 0 <= i < j < |z|
      ensures z[i] != z[j]
    {
      if i < |x| <= j {
        assert z[i] in x && z[j] in y;
      }
    }
  }

  lemma {:induction false} FewObjs(a: nat, d: nat, n: nat)
    ensures |Objs(a, d, n)| <= n
  {
    if n > 0 {
      FewObjs(a, d, n - 1);
      assert Objs(a, d, n) == Objs(a, d, n - 1) + {ObjAt(a, d, n - 1)};
    }
  }

  /** As many distinct members as the set has are all its members. */
  lemma {:induction false} Pigeon(s: seq<nat>, b: set<nat>, o: nat)
    requires Distinct(s) && (forall x | x in s :: x in b) && |b| <= |s| && o in b
    ensures o in s
    decreases |s|
  {
    if s != [] {
      var n := |s| - 1;
      if o != s[n] {
        assert s[n] in s && s == s[..n] + [s[n]];
        Pigeon(s[..n], b - {s[n]}, o);
      }
    }
  }

  /** A slab whose count is zero has no object in use. */
  lemma EmptyMeansNoneLive(a: nat, d: nat, n: nat, s: Slab, ctl: map<nat, Ctl>, chain: seq<nat>, o: nat)
    requires SlabOk(a, d, n, s, ctl, chain) && s.inuse == 0 && o in Objs(a, d, n)
    ensures o in chain
  {
    FewObjs(a, d, n);
    Pigeon(chain, Objs(a, d, n), o);
  }

  /** Only slabs without objects in use have gone. */
  lemma Reclaimed(s: Slabs, s': Slabs, objsize: nat, order: nat, done: seq<nat>, rest: seq<nat>)
    requires AllOk(s, objsize, order) && s.list == done + rest && s' == s.(list := Used(s.recs, done) + rest)
    ensures AllOk(s', objsize, order) && SameLive(s, s', objsize, order)
  {
    DistinctParts(done, rest);
    UsedIs(s.recs, done);
    DistinctConcat(Used(s.recs, done), rest);
    FewerSlabs(s, s', objsize, order);
  }

  lemma DistinctParts(x: seq<nat>, y: seq<nat>)
    requires Distinct(x + y)
    ensures Distinct(x) && Distinct(y) && forall a | a in x :: a !in y
  {
    var z := x + y;
    assert forall i | 0 <= i < |x| :: z[i] == x[i];
    assert forall i | 0 <= i < |y| :: z[|x| + i] == y[i];
  }

  lemma FewerSlabs(s: Slabs, s': Slabs, objsize: nat, order: nat)
    requires AllOk(s, objsize, order) && s' == s.(list := s'.list) && Distinct(s'.list)
    requires (forall a | a in s'.list :: a in s.list) && forall a | a in s.list :: a in s'.list || Unused(s.recs, a)
    ensures AllOk(s', objsize, order) && SameLive(s, s', objsize, order)
  {
    forall a | a in s'.list
      ensures OneOk(s', objsize, order, a)
    {
      assert OneOk(s, objsize, order, a);
    }
    forall a, o
      ensures LiveIn(s', objsize, order, a, o) <==> LiveIn(s, objsize, order, a, o)
    {
      if LiveIn(s, objsize, order, a, o) && a !in s'.list {
        assert OneOk(s, objsize, order, a);
        EmptyMeansNoneLive(a, objsize + CTL, Capacity(objsize, order), s.recs[a], s.ctl, s.chains[a], o);
      }
    }
  }

  lemma SameObjects(s: Slabs, s': Slabs, objsize: nat, order: nat)
    requires SameLive(s, s', objsize, order)
    ensures ObjectsOf(s', objsize, order) == ObjectsOf(s, objsize, order)
  {
    forall o
      ensures Live(s', objsize, order, o) <==> Live(s, objsize, order, o)
    {
      if Live(s, objsize, order, o) {
        var a :| LiveIn(s, objsize, order, a, o);
        assert LiveIn(s', objsize, order, a, o);
      }
    }
  }

  /** Objects in use lie inside the block of their slab and do not overlap. */
  lemma LiveApart(s: Slabs, objsize: nat, order: nat, a: nat, o: nat, b: nat, p: nat)
    requires AllOk(s, objsize, order) && LiveIn(s, objsize, order, a, o) && LiveIn(s, objsize, order, b, p)
    ensures a <= o && o + objsize + CTL <= a + BlockSize(order) - RECORD
    ensures o == p || o + objsize + CTL <= p || p + objsize + CTL <= o
  {
    var d, n := objsize + CTL, Capacity(objsize, order);
    var i :| 0 <= i < n && o == ObjAt(a, d, i);
    var j :| 0 <= j < n && p == ObjAt(b, d, j);
    ObjectsFit(objsize, order, a, i);
    ObjectsFit(objsize, order, b, j);
    if a != b {
      assert Apart(a, b, order);
    } else if i < j {
      ObjectsApart(a, d, i, j);
    } else if j < i {
      ObjectsApart(a, d, j, i);
    }
  }

  /** A new allocator; or the panic, the division by zero, or an allocator whose slabs hold no whole object. */
  datatype Made = TooLarge | Faulted | Useless | Ready(allocator: Allocator)

  /**
   * `_allocator_init`: an allocator for objects of `size` bytes between red zones. It is in
   * order, with nothing in use and blocks of the order with the least waste, exactly when some
   * block of pages holds an object; otherwise the panic comes only if the size is sane.
   */
  method Create(size: u32) returns (r: Made)
    ensures var objsize := (size + 2 * RED) % WORD;
      && (r.Ready? <==> exists k: nat :: k < ORDERS && Fits(objsize, k))
      && (r.TooLarge? <==> Sane(objsize) && !r.Ready?) && (r.Faulted? <==> objsize == WORD - CTL)
      && (r.Ready? ==> r.allocator.objsize == objsize && Best(objsize, r.allocator.order))
    ensures r.Ready? ==> fresh(r.allocator) && r.allocator.Valid() && r.allocator.slabs == []
    ensures r.Ready? ==> r.allocator.Objects() == iset{}
  {
    var objsize := (size + 2 * RED) % WORD;
    var best := ChooseOrder(objsize);
    WhenSane(objsize);
    if best.NoOrder? {
      return TooLarge;
    }
    if best.DivideFault? {
      return Faulted;
    }
    if !Sane(objsize) {
      return Useless;
    }
    assert Fits(objsize, best.order);
    var a := new Allocator(objsize, best.order);
    r := Ready(a);
  }

  lemma WhenSane(objsize: nat)
    ensures (exists k: nat :: k < ORDERS && Fits(objsize, k)) ==> Sane(objsize)
  {
    LargestBlock();
  }

  /**
   * `slab_allocators_reclaim`: allocators in turn, until the target is met or all have been
   * looked through. The result is the number of pages given to the page allocator.
   */
  method ReclaimAll(pool: PagePool, allocs: seq<Allocator>, target: int) returns (freed: int)
    requires forall i | 0 <= i < |allocs| :: allocs[i].Valid()
    requires forall i, j | 0 <= i < j < |allocs| :: allocs[i] != allocs[j]
    modifies allocs, pool
    ensures forall i | 0 <= i < |allocs| :: allocs[i].Thinned()
    ensures (target > 0 && freed >= target) || forall i | 0 <= i < |allocs| :: allocs[i].Cleared()
    ensures PagesIn(pool.given) == PagesIn(old(pool.given)) + freed
  {
    freed := 0;
    var k := 0;
    while k < |allocs|
      invariant 0 <= k <= |allocs| && (target > 0 ==> freed < target)
      invariant PagesIn(pool.given) == PagesIn(old(pool.given)) + freed
      invariant forall i | 0 <= i < k :: allocs[i].Thinned() && allocs[i].Cleared()
      invariant forall i | k <= i < |allocs| :: unchanged(allocs[i])
    {
      freed := allocs[k].ReclaimTo(pool, target, freed);
      if target > 0 && freed >= target {
        return;
      }
      k := k + 1;
    }
  }
}
