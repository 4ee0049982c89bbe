/** `kmalloc` and `kfree`: a slab allocator for each power of two, and a header word in each block. */
module Kmalloc {
  import opened Common
  import opened Digits
  import opened SlabGeometry
  import opened SlabAlloc

  const MIN_ORDER := 6
  const MAX_BUCKET := 18
  const BUCKETS := MAX_BUCKET - MIN_ORDER + 1

  /** Bytes of the word in front of a block that names its allocator. */
  const HEADER := 4

  datatype Outcome = Panic | NoMemory | Block(addr: nat)

  /** Bytes that bucket `k` hands out, header included. */
  function BucketSize(k: nat): nat { Pow2(MIN_ORDER + k) }

  /** The size asked for with its header; the sum is of 32 bits. */
  function Wanted(size: u32): u32 { (size + HEADER) % WORD }

  /** Blocks of pages of these two orders do not overlap. */
  ghost predicate Separate(a: nat, order: nat, b: nat, order': nat) {
    a + BlockSize(order) <= b || b + BlockSize(order') <= a
  }

  /** The first bucket from `k` on with room for `want` bytes; `BUCKETS` if there is none. */
  function FirstBucket(want: nat, k: nat): (b: nat)
    requires k <= BUCKETS
    ensures k <= b <= BUCKETS
    decreases BUCKETS - k
  {
    if k == BUCKETS || want <= BucketSize(k) then k else FirstBucket(want, k + 1)
  }

  lemma {:induction false} FirstBucketIs(want: nat, k: nat)
    requires k <= BUCKETS
    ensures var b := FirstBucket(want, k);
      (b < BUCKETS ==> want <= BucketSize(b)) && forall j | k <= j < b :: BucketSize(j) < want
    decreases BUCKETS - k
  {
    if k < BUCKETS && want > BucketSize(k) {
      FirstBucketIs(want, k + 1);
    }
  }

  /** The bucket for a request. */
  function BucketFor(size: u32): nat { FirstBucket(Wanted(size), 0) }

  lemma {:induction false} BucketsGrow(j: nat, k: nat)
    requires j <= k
    ensures BucketSize(j) <= BucketSize(k)
  {
    if j < k {
      BucketsGrow(j, k - 1);
    }
  }

  /** The smallest bucket hands out 64 bytes and the largest 2^18. */
  lemma BucketEnds()
    ensures BucketSize(0) == 64 && BucketSize(BUCKETS - 1) == 262144
  {
    assert Pow2(8) == 256;
    assert Pow2(13) == 32 * Pow2(8);
    assert Pow2(18) == 32 * Pow2(13);
  }

  /** A bucket is found exactly for requests of at most 2^18 bytes with the header, counted modulo 2^32. */
  lemma WhenFound(size: u32)
    ensures BucketFor(size) == BUCKETS <==> Wanted(size) > 262144
  {
    BucketEnds();
    FirstBucketIs(Wanted(size), 0);
    var b := BucketFor(size);
    if b < BUCKETS {
      BucketsGrow(b, BUCKETS - 1);
    }
  }

  /**
   * The bucket chosen holds the bytes asked for exactly when the size with its header does not
   * wrap around: the four largest sizes are given a block of 60 bytes.
   */
  lemma HoldsSize(size: u32)
    requires BucketFor(size) < BUCKETS
    ensures size <= BucketSize(BucketFor(size)) - HEADER <==> size < WORD - HEADER
    ensures size >= WORD - HEADER ==> BucketFor(size) == 0
  {
    BucketEnds();
    FirstBucketIs(Wanted(size), 0);
  }

  /** Every bucket has an order of pages that holds one of its objects. */
  lemma BucketFits(k: nat)
    requires k < BUCKETS
    ensures BucketSize(k) + 2 * RED < WORD && Fits(BucketSize(k) + 2 * RED, 7)
  {
    BucketsGrow(k, BUCKETS - 1);
    BucketEnds();
    LargestBlock();
  }

  /** New allocators, one for each bucket. */
  method NewBuckets() returns (bs: seq<Allocator>)
    ensures |bs| == BUCKETS && fresh(bs) && forall i, j | 0 <= i < j < BUCKETS :: bs[i] != bs[j]
    ensures forall i | 0 <= i < BUCKETS :: bs[i].objsize == BucketSize(i) + 2 * RED
    ensures forall i | 0 <= i < BUCKETS :: bs[i].Valid() && bs[i].slabs == [] && bs[i].Objects() == iset{}
  {
    bs := [];
    while |bs| < BUCKETS
      invariant |bs| <= BUCKETS && fresh(bs) && forall i, j | 0 <= i < j < |bs| :: bs[i] != bs[j]
      invariant forall i | 0 <= i < |bs| :: bs[i].objsize == BucketSize(i) + 2 * RED
      invariant forall i | 0 <= i < |bs| :: bs[i].Valid() && bs[i].slabs == [] && bs[i].Objects() == iset{}
    {
      BucketFits(|bs|);
      var a := Create(BucketSize(|bs|));
      bs := bs + [a.allocator];
    }
  }

  ghost predicate NoSharedPages(x: Allocator, y: Allocator)
    reads x, y
  {
    forall a, b | a in x.slabs && b in y.slabs :: Separate(a, x.order, b, y.order)
  }

  ghost predicate Names(heads: map<nat, Allocator>, x: Allocator)
    reads x
  {
    forall p: nat | p in x.Objects() :: p in heads && heads[p] == x
  }

  /** Objects of allocators that share no pages do not overlap. */
  lemma ObjectsSeparate(x: Allocator, y: Allocator, p: nat, q: nat)
    requires x.Valid() && y.Valid() && NoSharedPages(x, y) && p in x.Objects() && q in y.Objects()
    ensures p + x.objsize <= q || q + y.objsize <= p
  {
    var a := x.Within(p);
    var b := y.Within(q);
    assert Separate(a, x.order, b, y.order);
  }

  ghost function ObjectsIn(bs: seq<Allocator>): (s: seq<iset<nat>>)
    reads bs
    ensures |s| == |bs| && forall j | 0 <= j < |bs| :: s[j] == bs[j].Objects()
  {
    if bs == [] then [] else ObjectsIn(bs[..|bs| - 1]) + [bs[|bs| - 1].Objects()]
  }

  /** Object `p`, which was in use in no bucket, is in use in bucket `k`, and nothing else has changed. */
  ghost predicate Took(was: seq<iset<nat>>, now: seq<iset<nat>>, k: nat, p: nat) {
    k < |was| && (forall j | 0 <= j < |was| :: p !in was[j]) && now == was[k := was[k] + iset{p}]
  }

  class Heap {
    const buckets: seq<Allocator>
    /** The header words, by the address of the header. */
    var heads: map<nat, Allocator>

    ghost predicate Shape() {
      && |buckets| == BUCKETS
      && (forall i, j | 0 <= i < j < BUCKETS :: buckets[i] != buckets[j])
      && forall i | 0 <= i < BUCKETS :: buckets[i].objsize == BucketSize(i) + 2 * RED
    }

    /** Slabs of different buckets lie in different pages. */
    ghost predicate Apart()
      requires Shape()
      reads buckets
    {
      forall i, j {:trigger NoSharedPages(buckets[i], buckets[j])} | 0 <= i < BUCKETS && 0 <= j < BUCKETS && i != j ::
        NoSharedPages(buckets[i], buckets[j])
    }

    /** The header of a block in use names the bucket that it came from. */
    ghost predicate Named()
      requires Shape()
      reads this, buckets
    {
      forall i {:trigger Names(heads, buckets[i])} | 0 <= i < BUCKETS :: Names(heads, buckets[i])
    }

    ghost predicate Valid()
      reads this, buckets
    {
      Shape() && (forall i | 0 <= i < BUCKETS :: buckets[i].Valid()) && Apart() && Named()
    }

    /** Is the block at `addr` in use, and from bucket `k`? */
    ghost predicate From(k: nat, addr: nat)
      requires Shape() && k < BUCKETS
      reads buckets
    {
      addr >= HEADER && addr - HEADER in buckets[k].Objects()
    }

    /** `slab_init`: a bucket for each power of two, all without slabs. */
    constructor ()
      ensures Valid() && fresh(buckets) && forall k | 0 <= k < BUCKETS :: buckets[k].Objects() == iset{}
    {
      var bs := NewBuckets();
      buckets, heads := bs, map[];
    }

    /** A block of pages for bucket `k` that overlaps no slab. */
    ghost predicate Room(k: nat, page: nat)
      requires Shape() && k < BUCKETS
      reads buckets
    {
      page > 0 && forall j, b | 0 <= j < BUCKETS && b in buckets[j].slabs ::
        Separate(page, buckets[k].order, b, buckets[j].order)
    }

    /** Slabs stay apart when bucket `k` grows by pages that were free. */
    twostate lemma StillApart(k: nat)
      requires old(Valid()) && k < BUCKETS
      requires forall j | 0 <= j < BUCKETS && j != k :: unchanged(buckets[j])
      requires forall a | a in buckets[k].slabs :: a in old(buckets[k].slabs) || old(Room(k, a))
      ensures Apart()
    {
      forall i, j | 0 <= i < BUCKETS && 0 <= j < BUCKETS && i != j
        ensures NoSharedPages(buckets[i], buckets[j])
      {
        assert old(NoSharedPages(buckets[i], buckets[j]));
        assert i != k ==> buckets[i].slabs == old(buckets[i].slabs);
        assert j != k ==> buckets[j].slabs == old(buckets[j].slabs);
      }
    }

    /** Headers stay right when those in bucket `k` are. */
    twostate lemma StillNamed(k: nat)
      requires old(Valid()) && k < BUCKETS && Apart() && buckets[k].Valid() && Names(heads, buckets[k])
      requires forall j | 0 <= j < BUCKETS && j != k :: unchanged(buckets[j])
      requires forall p: nat | p in old(heads) && !(p in heads && heads[p] == old(heads)[p]) ::
        p in buckets[k].Objects() || p in old(buckets[k].Objects())
      ensures Named()
    {
      forall j | 0 <= j < BUCKETS && j != k
        ensures Names(heads, buckets[j])
      {
        assert NoSharedPages(buckets[k], buckets[j]) && old(NoSharedPages(buckets[k], buckets[j]));
        assert old(buckets[j].Valid()) && old(buckets[k].Valid()) && old(Names(heads, buckets[j]));
        forall p: nat | p in buckets[j].Objects()
          ensures p in heads && heads[p] == buckets[j]
        {
          if p in buckets[k].Objects() {
            ObjectsSeparate(buckets[k], buckets[j], p, p);
            assert false;
          }
          assert p in old(buckets[j].Objects()) && old(Names(heads, buckets[k]));
        }
      }
    }

    twostate lemma StillValid(k: nat)
      requires old(Valid()) && k < BUCKETS && buckets[k].Valid()
      requires forall j | 0 <= j < BUCKETS && j != k :: unchanged(buckets[j])
      requires forall a | a in buckets[k].slabs :: a in old(buckets[k].slabs) || old(Room(k, a))
      requires Names(heads, buckets[k])
      requires forall p: nat | p in old(heads) && !(p in heads && heads[p] == old(heads)[p]) ::
        p in buckets[k].Objects() || p in old(buckets[k].Objects())
      ensures Valid()
    {
      StillApart(k);
      StillNamed(k);
      forall j | 0 <= j < BUCKETS && j != k
        ensures buckets[j].Valid()
      {
        assert old(buckets[j].Valid());
      }
    }

    /** The objects in use, bucket by bucket. */
    ghost function Handed(): (s: seq<iset<nat>>)
      requires Shape()
      reads this, buckets
      ensures |s| == BUCKETS && forall j | 0 <= j < BUCKETS :: s[j] == buckets[j].Objects()
    {
      ObjectsIn(buckets)
    }

    /** `slab_obj_alloc` from bucket `k`, and the header. */
    method AllocFrom(k: nat, page: Option<nat>) returns (o: Option<nat>)
      requires Valid() && k < BUCKETS && (page.Some? ==> Room(k, page.value))
      modifies this, buckets[k]
      ensures Valid()
      ensures o.None? <==> page.None? && old(buckets[k].Full())
      ensures o.None? ==> buckets[k].Objects() == old(buckets[k].Objects())
      ensures o.Some? ==>
        && o.value !in old(buckets[k].Objects()) && buckets[k].Objects() == old(buckets[k].Objects()) + iset{o.value}
        && forall j | 0 <= j < BUCKETS && j != k :: o.value !in buckets[j].Objects()
    {
      assert Names(heads, buckets[k]);
      o := buckets[k].Alloc(page);
      if o.None? {
        StillValid(k);
        return;
      }
      heads := heads[o.value := buckets[k]];
      StillValid(k);
      NotElsewhere(k, o.value);
    }

    /** The same, told of all buckets. */
    method AllocOf(k: nat, page: Option<nat>) returns (o: Option<nat>)
      requires Valid() && k < BUCKETS && (page.Some? ==> Room(k, page.value))
      modifies this, buckets[k]
      ensures Valid()
      ensures o.None? <==> page.None? && old(buckets[k].Full())
      ensures o.None? ==> Handed() == old(Handed())
      ensures o.Some? ==> Took(old(Handed()), Handed(), k, o.value)
    {
      ghost var was := Handed();
      o := AllocFrom(k, page);
      ghost var now := Handed();
      assert forall j | 0 <= j < BUCKETS && j != k :: now[j] == was[j];
    }

    /** An object of bucket `k` is in no other. */
    lemma NotElsewhere(k: nat, p: nat)
      requires Valid() && k < BUCKETS && p in buckets[k].Objects()
      ensures forall j | 0 <= j < BUCKETS && j != k :: p !in buckets[j].Objects()
    {
      assert Names(heads, buckets[k]);
      forall j | 0 <= j < BUCKETS && j != k
        ensures p !in buckets[j].Objects()
      {
        assert Names(heads, buckets[j]);
      }
    }

    /** What follows the search for a bucket. */
    method AllocIn(k: nat, page: Option<nat>) returns (r: Outcome)
      requires Valid() && k <= BUCKETS && (page.Some? && k < BUCKETS ==> Room(k, page.value))
      modifies this, buckets
      ensures Valid() && (r.Panic? <==> k == BUCKETS)
      ensures r.NoMemory? <==> k < BUCKETS && page.None? && old(buckets[k].Full())
      ensures !r.Block? ==> Handed() == old(Handed())
      ensures r.Block? ==> r.addr >= HEADER && Took(old(Handed()), Handed(), k, r.addr - HEADER)
    {
      if k == BUCKETS {
        return Panic;
      }
      var o := AllocOf(k, page);
      r := if o.Some? then Block(o.value + HEADER) else NoMemory;
    }

    /**
     * `kmalloc`; `page` is a block of pages to grow by, if the page allocator has one. A block
     * that was not in use is handed out, from the first bucket with room for the size.
     */
    method Alloc(size: u32, page: Option<nat>) returns (r: Outcome, k: nat)
      requires Valid() && (page.Some? && BucketFor(size) < BUCKETS ==> Room(BucketFor(size), page.value))
      modifies this, buckets
      ensures Valid() && k == BucketFor(size) && (r.Panic? <==> k == BUCKETS)
      ensures r.NoMemory? <==> k < BUCKETS && page.None? && old(buckets[k].Full())
      ensures !r.Block? ==> Handed() == old(Handed())
      ensures r.Block? ==> r.addr >= HEADER && Took(old(Handed()), Handed(), k, r.addr - HEADER)
    {
      var want := Wanted(size);
      k := 0;
      while k < BUCKETS && BucketSize(k) < want
        invariant 0 <= k <= BUCKETS && BucketFor(size) == FirstBucket(want, k)
      {
        k := k + 1;
      }
      assert k == BucketFor(size);
      r := AllocIn(k, page);
    }

    /**
     * `kfree`: a block in use goes back to the allocator that its header names, which is the
     * one that it came from. The header is wiped with the block.
     */
    method Free(addr: nat, ghost k: nat)
      requires Valid() && k < BUCKETS && From(k, addr)
      modifies this, buckets[k]
      ensures Valid() && buckets[k].Objects() == old(buckets[k].Objects()) - iset{addr - HEADER}
    {
      var p := addr - HEADER;
      assert Names(heads, buckets[k]);
      var a := heads[p];
      heads := map q | q in heads && q != p :: heads[q];
      ghost var slab := buckets[k].Within(p);
      var ok := a.Free(p);
      StillValid(k);
    }

    /** Blocks in use do not overlap, headers included. */
    lemma BlocksApart(i: nat, x: nat, j: nat, y: nat)
      requires Valid() && i < BUCKETS && j < BUCKETS && From(i, x) && From(j, y)
      ensures (i == j && x == y) || x + BucketSize(i) <= y || y + BucketSize(j) <= x
    {
      if i == j {
        buckets[i].Spaced(x - HEADER, y - HEADER);
      } else {
        assert NoSharedPages(buckets[i], buckets[j]);
        ObjectsSeparate(buckets[i], buckets[j], x - HEADER, y - HEADER);
      }
    }
  }
}
