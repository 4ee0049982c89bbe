/** The page allocator: groups of pages with buddy lists, and the calls that allocate and free. */
module PageAlloc {
  import opened Common
  import opened Lists
  import opened Buddy
  import opened BuddyLists
  import opened BuddySteps
  import opened BuddyInit
  import opened PageMaps

  lemma ClearMapsFit(n: nat, m: nat)
    requires m <= n
    ensures m % Size(TOP) == 0 ==> Covers(ClearMaps(n), m)
  {
    ClearMapsCover(n, m);
    if m % Size(TOP) == 0 {
      forall k: nat | 0 < k <= TOP
        ensures Covered(n, m, k)
      {
        WholeBlocksCovered(n, m, k);
      }
    }
  }

  /** `struct pagegroup`; addresses are page numbers relative to the start of the group. */
  class PageGroup {
    const base: nat
    const npages: nat
    var free: seq<seq<nat>>
    var bits: seq<seq<bool>>
    ghost var own: seq<Block>

    /**
     * `_pagegroup_create`: every page left of the range is free. The invariant holds from the
     * start exactly when the pages left are a multiple of the largest block.
     */
    constructor (base: nat, range: nat, npages: nat)
      requires npages <= range
      ensures this.base == base && this.npages == npages && bits == ClearMaps(range)
      ensures own == InitOwn(npages) && Partition(own) && ListsMatch(free, FreeSet(own))
      ensures Valid() <==> npages % Size(TOP) == 0
      ensures forall x :: 0 <= x < npages ==> own[x].free
    {
      var lists := CreateLists(npages);
      this.base, this.npages := base, npages;
      own := InitOwn(npages);
      free := lists;
      bits := ClearMaps(range);
      InitPartition(npages);
      InitNoBuddies(npages);
      new;
      InitBits(bits, npages);
      ClearMapsFit(range, npages);
    }

    /** Does the group manage this page number? */
    predicate Contains(addr: nat) { base <= addr < base + npages }

    /** Is there a block in use of this order at this page number? */
    ghost predicate InUse(addr: nat, order: nat)
      reads this
    {
      base <= addr < base + |own| && own[addr - base] == Block(order, addr - base, false)
    }

    /** The invariant, with at most one pair of free buddies still to be dealt with. */
    ghost predicate Good(n: nat, k0: nat, p0: nat)
      reads this
    {
      |own| == n == npages && Inv(free, bits, own, k0, p0)
    }

    ghost predicate Valid()
      reads this
    {
      Good(|own|, TOP, 0)
    }

    /** `__page_split`: the first free block of order `k` is replaced by its halves. */
    method SplitHead(k: nat, ghost k0: nat, ghost p0: nat)
      requires 0 < k <= TOP && Good(|own|, k0, p0) && free[k] != [] && Pending(k0, p0, k, free[k][0])
      modifies this
      ensures Good(|old(own)|, k - 1, old(free[k][0]))
      ensures free[k - 1] != [] && Pending(k - 1, old(free[k][0]), k - 1, free[k - 1][0])
      ensures free[k - 1][0] == old(free[k][0]) + Size(k - 1)
      ensures FreePages(own) == FreePages(old(own)) && InUseKept(old(own), own)
    {
      SplitAll(free, bits, own, k, k0, p0, free[k][0]);
      Replace(k, free[k][0]);
    }

    /** The block at `target` leaves its list, and its halves go on theirs. */
    method Replace(k: nat, target: nat)
      requires 0 < k <= TOP && k < |free| && free[k] != [] && target == free[k][0]
      requires HasBit(bits, k, target) && !bits[k][target / Size(k)] && (k < TOP ==> HasBit(bits, k + 1, target))
      modifies this
      ensures free == SplitLists(old(free), k) && bits == Toggle(old(bits), k, target)
      ensures own == Halve(old(own), k, target)
    {
      free := RemoveHead(free, k);
      if k < TOP {
        bits := FlipBit(bits, k + 1, target);
      }
      var buddy := target + Size(k - 1);
      free := InsertHead(free, k - 1, target);
      free := InsertHead(free, k - 1, buddy);
      own := Halve(own, k, target);
    }

    /** `_page_split`'s inner loop: split a block of order `norder` down to `order`. */
    method SplitDown(norder: nat, order: nat) returns (ghost k0: nat, ghost p0: nat)
      requires order <= norder <= TOP && Valid() && free[norder] != []
      modifies this
      ensures Good(|old(own)|, k0, p0) && free[order] != [] && Pending(k0, p0, order, free[order][0])
      ensures free[order][0] + Size(order) == old(free[norder][0]) + Size(norder)
      ensures FreePages(own) == FreePages(old(own)) && InUseKept(old(own), own)
    {
      var n: nat := norder;
      k0, p0 := TOP, 0;
      while n > order
        invariant order <= n <= norder && |free| == TOP + 1 && free[n] != []
        invariant Good(|old(own)|, k0, p0) && Pending(k0, p0, n, free[n][0])
        invariant free[n][0] + Size(n) == old(free[norder][0]) + Size(norder)
        invariant FreePages(own) == FreePages(old(own)) && InUseKept(old(own), own)
      {
        ghost var t := free[n][0];
        SplitHead(n, k0, p0);
        n := n - 1;
        k0, p0 := n, t;
      }
    }

    /** The end of `_page_alloc_order`: hand out the first free block of the order. */
    method TakeHead(order: nat, ghost k0: nat, ghost p0: nat) returns (addr: nat)
      requires order <= TOP && Good(|own|, k0, p0) && free[order] != [] && Pending(k0, p0, order, free[order][0])
      modifies this
      ensures addr == old(free[order][0])
      ensures Valid() && |own| == |old(own)| && addr + Size(order) <= |own| && Aligned(addr, order)
      ensures own[addr] == Block(order, addr, false)
      ensures Run(addr, order) <= FreePages(old(own)) && FreePages(own) == FreePages(old(own)) - Run(addr, order)
      ensures InUseKept(old(own), own)
    {
      TakeStep(free, bits, own, order, k0, p0);
      addr := free[order][0];
      assert Fits(own[addr], |own|);
      free := RemoveHead(free, order);
      if order < TOP {
        bits := FlipBit(bits, order + 1, addr);
      }
      own := Paint(own, Block(order, addr, false));
    }

    /** Split a block of order `norder` as far as needed and hand out a block of order `order`. */
    method Take(norder: nat, order: nat) returns (addr: nat)
      requires order <= norder <= TOP && Valid() && free[norder] != []
      modifies this
      ensures Valid() && |own| == |old(own)| && TookRun(old(own), own, order, addr)
      ensures EndOf(old(own), order, addr, norder)
      ensures !NoRun(old(own), order) && |FreePages(own)| == |FreePages(old(own))| - Size(order)
    {
      HeadCovers(free, own, norder, order);
      ghost var k0, p0 := SplitDown(norder, order);
      ghost var split := own;
      addr := TakeHead(order, k0, p0);
      TookRunAfterSplit(old(own), split, own, order, addr);
      TookRunWasFree(old(own), own, order, addr);
    }

    /** `__page_join`: merge with the buddy as long as its bit says that it is free. */
    method Join(order: nat, addr: nat)
      requires order <= TOP && Good(|own|, order, Parent(addr, order)) && (order, addr) in FreeSet(own)
      modifies this
      ensures Valid() && FreePages(own) == FreePages(old(own)) && InUseKept(old(own), own)
    {
      var k: nat, t: nat := order, addr;
      if k < TOP {
        ClearBitMeansBuddy(bits, own, k, t);
      }
      while k < TOP && !bits[k + 1][t / Size(k + 1)]
        invariant k <= TOP && Good(|old(own)|, k, Parent(t, k)) && (k, t) in FreeSet(own)
        invariant k < TOP ==> HasBit(bits, k + 1, t)
        invariant FreePages(own) == FreePages(old(own)) && InUseKept(old(own), own)
        decreases TOP - k
      {
        t := JoinOnce(k, t);
        k := k + 1;
      }
      if k < TOP {
        ClearBitMeansBuddy(bits, own, k, t);
      }
      JoinStop(free, bits, own, k, t);
    }

    /** The body of that loop: both buddies leave their list and the larger block joins the next one. */
    method JoinOnce(k: nat, t: nat) returns (q: nat)
      requires k < TOP && Good(|own|, k, Parent(t, k)) && (k, t) in FreeSet(own)
      requires HasBit(bits, k + 1, t) && !bits[k + 1][t / Size(k + 1)]
      modifies this
      ensures Good(|old(own)|, k + 1, Parent(q, k + 1)) && (k + 1, q) in FreeSet(own)
      ensures k + 1 < TOP ==> HasBit(bits, k + 2, q)
      ensures FreePages(own) == FreePages(old(own)) && InUseKept(old(own), own)
    {
      ClearBitMeansBuddy(bits, own, k, t);
      JoinStep(free, bits, own, k, t, BuddyOf(t, k), Parent(t, k));
      JoinFacts(own, k, t);
      var buddy := BuddyOf(t, k);
      free := free[k := Without(free[k], t)];
      free := free[k := Without(free[k], buddy)];
      q := if t < buddy then t else buddy;
      free := InsertHead(free, k + 1, q);
      if k + 1 < TOP {
        bits := FlipBit(bits, k + 2, q);
      }
      own := Paint(own, Block(k + 1, q, true));
    }

    /** A block in use goes on its free list; its pair may be complete now. */
    method PutHead(addr: nat, order: nat)
      requires Valid() && addr < |own| && own[addr] == Block(order, addr, false)
      modifies this
      ensures order <= TOP && Good(|old(own)|, order, Parent(addr, order)) && (order, addr) in FreeSet(own)
      ensures GaveRun(old(own), own, order, addr)
    {
      GiveStep(free, bits, own, order, addr);
      free := InsertHead(free, order, addr);
      if order < TOP {
        bits := FlipBit(bits, order + 1, addr);
      }
      own := Paint(own, Block(order, addr, true));
    }

    /** `_page_free_order` within one group. */
    method GiveBack(addr: nat, order: nat)
      requires Valid() && addr < |own| && own[addr] == Block(order, addr, false)
      modifies this
      ensures Valid() && GaveRun(old(own), own, order, addr)
      ensures |FreePages(own)| == |FreePages(old(own))| + Size(order)
    {
      PutHead(addr, order);
      ghost var put := own;
      Join(order, addr);
      GaveRunAfterJoin(old(own), put, own, order, addr);
    }
  }

  // ---------------------------------------------------------------------
  // Counting pages
  // ---------------------------------------------------------------------

  ghost function Span(p: nat, n: nat): set<nat> { if n == 0 then {} else Span(p, n - 1) + {p + n - 1} }

  lemma {:induction false} SpanSize(p: nat, n: nat)
    ensures |Span(p, n)| == n
    ensures forall x: nat :: x in Span(p, n) <==> p <= x < p + n
  {
    if n > 0 {
      SpanSize(p, n - 1);
    }
  }

  lemma RunSize(p: nat, k: nat)
    ensures |Run(p, k)| == Size(k)
  {
    SpanSize(p, Size(k));
    assert Run(p, k) == Span(p, Size(k));
  }

  ghost function Sum(s: seq<nat>): nat { if s == [] then 0 else Sum(s[..|s| - 1]) + s[|s| - 1] }

  lemma SumAppend(s: seq<nat>, v: nat)
    ensures Sum(s + [v]) == Sum(s) + v
  {
    assert (s + [v])[..|s|] == s;
  }

  lemma NoneLeft(s: nat)
    requires s > 0
    ensures 0 % s == 0
  {
  }

  lemma AllPagesFree(own: seq<Block>)
    requires forall x :: 0 <= x < |own| ==> own[x].free
    ensures |FreePages(own)| == |own|
  {
    assert FreePages(own) == Upto(|own|);
  }

  ghost function Upto(n: nat): (s: set<nat>)
    ensures |s| == n && forall x :: x in s <==> 0 <= x < n
  {
    if n == 0 then {} else Upto(n - 1) + {n - 1}
  }

  lemma {:induction false} SumUpdate(s: seq<nat>, i: nat, v: nat)
    requires i < |s|
    ensures Sum(s[i := v]) == Sum(s) - s[i] + v
  {
    var t := s[i := v];
    if i == |s| - 1 {
      assert t[..|t| - 1] == s[..|s| - 1];
    } else {
      assert t[..|t| - 1] == s[..|s| - 1][i := v];
      SumUpdate(s[..|s| - 1], i, v);
    }
  }

  lemma {:induction false} SumAtLeast(s: seq<nat>, i: nat)
    requires i < |s|
    ensures s[i] <= Sum(s)
  {
    if i < |s| - 1 {
      SumAtLeast(s[..|s| - 1], i);
    }
  }

  /** Empty lists from `order` up mean that no run of that size is free anywhere in the group. */
  lemma NoBlockNoRun(free: seq<seq<nat>>, bits: seq<seq<bool>>, own: seq<Block>, order: nat, p: nat)
    requires Steady(free, bits, own) && order <= TOP && forall k :: order <= k <= TOP ==> free[k] == []
    requires Aligned(p, order)
    ensures !AllFree(own, order, p)
  {
    if AllFree(own, order, p) {
      FreeRunInBlock(own, order, p);
      ListedBlock(free, own, p);
    }
  }

  /** A page of a free block has that block on its list. */
  lemma ListedBlock(free: seq<seq<nat>>, own: seq<Block>, p: nat)
    requires Partition(own) && ListsMatch(free, FreeSet(own)) && p < |own| && own[p].free
    ensures own[p].order <= TOP && free[own[p].order] != []
  {
    var b := own[p];
    assert Inside(p, b) && own[b.page] == b;
    FreeSetByPage(own);
    assert ListMatches(free[b.order], FreeSet(own), b.order);
    assert b.page in free[b.order];
  }

  /** No aligned run of 2^k pages is free. */
  ghost predicate NoRun(own: seq<Block>, k: nat) {
    forall p: nat :: Aligned(p, k) ==> !AllFree(own, k, p)
  }

  /** A run of free pages became one block in use; no block in use changed and no other page. */
  ghost predicate TookRun(own: seq<Block>, own': seq<Block>, k: nat, p: nat) {
    && |own'| == |own| && p + Size(k) <= |own| && Aligned(p, k)
    && own'[p] == Block(k, p, false)
    && Run(p, k) <= FreePages(own) && FreePages(own') == FreePages(own) - Run(p, k)
    && InUseKept(own, own')
  }

  /** One block in use became free pages; no other block in use changed and no other page. */
  ghost predicate GaveRun(own: seq<Block>, own': seq<Block>, k: nat, p: nat) {
    && |own'| == |own|
    && FreePages(own) !! Run(p, k) && FreePages(own') == FreePages(own) + Run(p, k)
    && forall x :: 0 <= x < |own| && !own[x].free && x !in Run(p, k) ==> own'[x] == own[x]
  }

  /** Freeing what was just allocated brings back the very same free blocks, however it was split and joined. */
  lemma AllocFreeRestores(own: seq<Block>, own': seq<Block>, own'': seq<Block>, k: nat, p: nat)
    requires Partition(own) && NoBuddies(FreeSet(own), TOP, 0)
    requires Partition(own'') && NoBuddies(FreeSet(own''), TOP, 0)
    requires TookRun(own, own', k, p) && GaveRun(own', own'', k, p)
    ensures FreeSet(own'') == FreeSet(own) && FreePages(own'') == FreePages(own)
  {
    FreePagesDetermineBlocks(own, own'');
  }

  /** The run of order `k` at `p` is the end of a free block of order `m`. */
  ghost predicate EndOf(own: seq<Block>, k: nat, p: nat, m: nat) {
    p < |own| && own[p].free && own[p].order == m && p + Size(k) == own[p].page + Size(m)
  }

  /** One run of free pages became a block in use; it was the end of a free block of order `m`. */
  ghost function Taking(own: seq<Block>, k: nat, p: nat, m: nat): iset<seq<Block>> {
    iset own': seq<Block> | TookRun(own, own', k, p) && !NoRun(own, k) && EndOf(own, k, p, m)
  }

  /** The last part of the first block on a list. */
  lemma HeadCovers(free: seq<seq<nat>>, own: seq<Block>, norder: nat, order: nat)
    requires Partition(own) && ListsMatch(free, FreeSet(own)) && order <= norder <= TOP && free[norder] != []
    ensures var p := free[norder][0] + Size(norder) - Size(order);
      0 <= p && EndOf(own, order, p, norder)
  {
    var t := free[norder][0];
    HeadIsFree(free, FreeSet(own), norder);
    FreeBlockFits(own, norder, t);
    SizeMultiple(order, norder);
    assert Inside(t + Size(norder) - Size(order), own[t]);
  }

  lemma HeadIsBlock(free: seq<seq<nat>>, own: seq<Block>, k: nat)
    requires Partition(own) && ListsMatch(free, FreeSet(own)) && k <= TOP && free[k] != []
    ensures var t := free[k][0]; t < |own| && own[t] == Block(k, t, true)
  {
    HeadIsFree(free, FreeSet(own), k);
    FreeBlockFits(own, k, free[k][0]);
  }

  /** The order of a free block has a list that is not empty. */
  lemma BlockIsListed(free: seq<seq<nat>>, own: seq<Block>, x: nat)
    requires Partition(own) && ListsMatch(free, FreeSet(own)) && x < |own| && own[x].free
    ensures own[x].order <= TOP && free[own[x].order] != []
  {
    var b := own[x];
    assert Fits(b, |own|) && Inside(x, b) && own[b.page] == b;
    assert (b.order, b.page) in FreeSet(own) && ListMatches(free[b.order], FreeSet(own), b.order);
    assert b.page in free[b.order];
  }

  /** A run that was taken from the free pages shows that there was one. */
  lemma TookRunWasFree(own: seq<Block>, own': seq<Block>, k: nat, p: nat)
    requires TookRun(own, own', k, p)
    ensures !NoRun(own, k) && |FreePages(own')| == |FreePages(own)| - Size(k)
  {
    RunSize(p, k);
    forall x | p <= x < p + Size(k)
      ensures own[x].free
    {
      assert x in Run(p, k);
    }
    assert AllFree(own, k, p);
  }

  // ---------------------------------------------------------------------
  // The whole allocator
  // ---------------------------------------------------------------------

  class PageSystem {
    var groups: seq<PageGroup>
    var freeCount: nat
    ghost var counts: seq<nat>

    /** Groups are distinct and do not overlap. */
    ghost predicate Apart()
      reads this
    {
      forall i, j :: 0 <= i < j < |groups| ==>
        groups[i] != groups[j]
        && (groups[i].base + groups[i].npages <= groups[j].base || groups[j].base + groups[j].npages <= groups[i].base)
    }

    /** The page count is the number of free pages. */
    ghost predicate Counted()
      reads this, groups
    {
      && |counts| == |groups| && freeCount == Sum(counts)
      && forall i :: 0 <= i < |groups| ==> counts[i] == |FreePages(groups[i].own)|
    }

    ghost predicate Valid()
      reads this, groups
    {
      Apart() && Counted() && forall i :: 0 <= i < |groups| ==> groups[i].Valid()
    }

    /** `page_init`: no groups and no pages. */
    constructor ()
      ensures Valid() && groups == [] && freeCount == 0
    {
      groups, freeCount, counts := [], 0, [];
    }

    /**
     * `page_add_range`: what the group's own record leaves of the range becomes a group at the
     * end of the list, all of it free, unless nothing is left. The invariant goes on to hold
     * exactly when the pages left are whole largest blocks.
     */
    method AddRange(start: nat, end: nat) returns (m: nat)
      requires Valid() && start < end
      requires forall i :: 0 <= i < |groups| ==> groups[i].base + groups[i].npages <= start || end <= groups[i].base
      modifies this
      ensures start + m < end && freeCount == old(freeCount) + m
      ensures m in Leaves(end - start)
      ensures m == 0 ==> groups == old(groups)
      ensures m > 0 ==> |groups| == |old(groups)| + 1 && old(groups) < groups
      ensures m > 0 ==> var g := groups[|groups| - 1];
        fresh(g) && g.base == start && g.npages == |g.own| == m && forall x :: 0 <= x < m ==> g.own[x].free
      ensures Valid() <==> m % Size(TOP) == 0
    {
      m := PagesLeft(end - start);
      if m > 0 {
        AddGroup(start, end - start, m);
      } else {
        NoneLeft(Size(TOP));
      }
    }

    /** A new group at the end of the list. */
    method AddGroup(start: nat, range: nat, m: nat)
      requires Valid() && m <= range
      requires forall i :: 0 <= i < |groups| ==>
        groups[i].base + groups[i].npages <= start || start + m <= groups[i].base
      modifies this
      ensures freeCount == old(freeCount) + m && |groups| == |old(groups)| + 1 && old(groups) < groups
      ensures var g := groups[|groups| - 1];
        fresh(g) && g.base == start && g.npages == |g.own| == m && forall x :: 0 <= x < m ==> g.own[x].free
      ensures Valid() <==> m % Size(TOP) == 0
    {
      var g := new PageGroup(start, range, m);
      AllPagesFree(g.own);
      SumAppend(counts, m);
      groups, counts, freeCount := groups + [g], counts + [m], freeCount + m;
      OneMore(g);
    }

    /** With a group more at the end, the whole is in order exactly when that group is. */
    twostate lemma OneMore(new g: PageGroup)
      requires old(Valid()) && groups == old(groups) + [g] && counts == old(counts) + [|FreePages(g.own)|]
      requires freeCount == Sum(counts) && g !in old(groups)
      requires forall i :: 0 <= i < |old(groups)| ==> unchanged(groups[i])
      requires forall i :: 0 <= i < |old(groups)| ==>
        groups[i].base + groups[i].npages <= g.base || g.base + g.npages <= groups[i].base
      ensures Valid() <==> g.Valid()
    {
      forall i | 0 <= i < |old(groups)|
        ensures groups[i].Valid() && counts[i] == |FreePages(groups[i].own)| && groups[i] == old(groups)[i]
      {
        assert old(groups[i].Valid());
      }
      assert groups[|old(groups)|] == g;
      assert Apart() && Counted();
    }

    /** Every group has a list for every order. */
    ghost predicate HasLists()
      reads this, groups
    {
      forall j :: 0 <= j < |groups| ==> |groups[j].free| == TOP + 1
    }

    /** The first group whose list of order `k` is not empty. */
    method FindGroup(k: nat) returns (i: nat)
      requires HasLists() && k <= TOP
      ensures i <= |groups| && (i < |groups| ==> groups[i].free[k] != [])
      ensures i == |groups| ==> forall j :: 0 <= j < |groups| ==> groups[j].free[k] == []
    {
      i := 0;
      while i < |groups| && groups[i].free[k] == []
        invariant 0 <= i <= |groups| && forall j :: 0 <= j < i ==> groups[j].free[k] == []
      {
        i := i + 1;
      }
    }

    /** The smallest order from `order` up with a free block, and the first group that has one. */
    method FindBlock(order: nat, ghost m: nat) returns (norder: nat, i: nat)
      requires HasLists() && order <= TOP && m in Listed(order)
      ensures norder == m && norder >= order && (norder <= TOP ==> i < |groups| && groups[i].free[norder] != [])
    {
      norder, i := order, 0;
      while norder <= TOP
        invariant order <= norder <= m
      {
        i := FindGroup(norder);
        if i < |groups| {
          return;
        }
        norder := norder + 1;
      }
    }

    /** No free block of order `order` or above is of an order below `m`, and one is of order `m`, if there is such. */
    ghost predicate Suffices(order: nat, m: nat)
      reads this, groups
    {
      && order <= m <= TOP + 1
      && (forall j, x :: 0 <= j < |groups| && 0 <= x < |groups[j].own| && groups[j].own[x].free ==>
            groups[j].own[x].order < order || m <= groups[j].own[x].order)
      && (m <= TOP ==> exists j, x ::
            0 <= j < |groups| && 0 <= x < |groups[j].own| && groups[j].own[x].free && groups[j].own[x].order == m)
    }

    ghost function Sufficing(order: nat): iset<nat>
      reads this, groups
    {
      iset m: nat | Suffices(order, m)
    }

    lemma Smallest(order: nat, k: nat) returns (m: nat)
      requires Valid() && order <= k <= TOP + 1
      requires forall j, x :: 0 <= j < |groups| && 0 <= x < |groups[j].own| && groups[j].own[x].free ==>
        groups[j].own[x].order < order || k <= groups[j].own[x].order
      ensures m in Sufficing(order)
      decreases TOP + 1 - k
    {
      if k > TOP || exists j, x ::
          0 <= j < |groups| && 0 <= x < |groups[j].own| && groups[j].own[x].free && groups[j].own[x].order == k {
        m := k;
        assert Suffices(order, m);
      } else {
        m := Smallest(order, k + 1);
      }
    }

    /** The same of the lists: those from `order` up to `m` are empty in all groups, and that of `m` is not. */
    ghost predicate OnLists(order: nat, m: nat)
      requires HasLists()
      reads this, groups
    {
      && order <= m <= TOP + 1
      && (forall j, k :: 0 <= j < |groups| && order <= k < m ==> groups[j].free[k] == [])
      && (m <= TOP ==> exists j :: 0 <= j < |groups| && groups[j].free[m] != [])
    }

    ghost function Listed(order: nat): iset<nat>
      requires HasLists()
      reads this, groups
    {
      iset m: nat | OnLists(order, m)
    }

    lemma Least(order: nat) returns (m: nat)
      requires Valid() && order <= TOP
      ensures HasLists() && m in Sufficing(order) && m in Listed(order)
      ensures m > TOP ==> forall j :: 0 <= j < |groups| ==> NoRun(groups[j].own, order)
    {
      m := Smallest(order, order);
      ListsTell(order, m);
      if m > TOP {
        NothingFound(order, m);
      }
    }

    lemma ListsTell(order: nat, m: nat)
      requires Valid() && m in Sufficing(order)
      ensures HasLists() && m in Listed(order)
    {
      forall j, k | 0 <= j < |groups| && order <= k < m
        ensures groups[j].free[k] == []
      {
        if groups[j].free[k] != [] {
          HeadIsBlock(groups[j].free, groups[j].own, k);
        }
      }
      if m <= TOP {
        var j, x :|
          0 <= j < |groups| && 0 <= x < |groups[j].own| && groups[j].own[x].free && groups[j].own[x].order == m;
        BlockIsListed(groups[j].free, groups[j].own, x);
      }
    }

    /**
     * `_page_alloc_order`: it fails exactly when no group has an aligned run of free pages of
     * the size asked for; otherwise it takes one such run, from the end of a free block that is
     * as small as any that is large enough, and touches nothing else.
     */
    method AllocOrder(order: nat) returns (r: Option<nat>, ghost i: nat, ghost p: nat, ghost m: nat)
      requires Valid() && order <= TOP
      modifies this, groups
      ensures Valid() && groups == old(groups) && m in old(Sufficing(order))
      ensures r.None? ==> freeCount == old(freeCount) && forall j :: 0 <= j < |groups| ==>
        NoRun(groups[j].own, order) && groups[j].own == old(groups[j].own)
      ensures r.Some? ==> i < |groups| && r.value == groups[i].base + p && freeCount == old(freeCount) - Size(order)
      ensures r.Some? ==> groups[i].own in Taking(old(groups[i].own), order, p, m)
      ensures r.Some? ==> forall j :: 0 <= j < |groups| && j != i ==> groups[j].own == old(groups[j].own)
    {
      var norder, g := Search(order);
      m := norder;
      if norder > TOP {
        return None, 0, 0, m;
      }
      var addr := TakeFrom(g, norder, order);
      return Some(groups[g].base + addr), g, addr, m;
    }

    /** The smallest order that will do and a group with a block of it, or the news that no run is left. */
    method Search(order: nat) returns (norder: nat, g: nat)
      requires Valid() && order <= TOP
      ensures order <= norder && norder in old(Sufficing(order))
      ensures norder <= TOP ==> g < |groups| && HasLists() && groups[g].free[norder] != []
      ensures norder > TOP ==> forall j :: 0 <= j < |groups| ==> NoRun(groups[j].own, order)
    {
      ghost var m := Least(order);
      norder, g := FindBlock(order, m);
    }

    /** A block from group `g`; the other groups keep theirs. */
    method TakeFrom(g: nat, norder: nat, order: nat) returns (addr: nat)
      requires Valid() && g < |groups| && order <= norder <= TOP && groups[g].free[norder] != []
      modifies this, groups
      ensures Valid() && groups == old(groups) && freeCount == old(freeCount) - Size(order)
      ensures groups[g].own in Taking(old(groups[g].own), order, addr, norder)
      ensures forall j :: 0 <= j < |groups| && j != g ==> groups[j].own == old(groups[j].own)
    {
      addr := SplitAndTake(g, norder, order);
    }

    /** Without a free block of the order or above there is no run of the size. */
    lemma NothingFound(order: nat, m: nat)
      requires Valid() && order <= TOP < m && m in Listed(order)
      ensures forall j :: 0 <= j < |groups| ==> NoRun(groups[j].own, order)
    {
      forall j, q: nat | 0 <= j < |groups| && Aligned(q, order)
        ensures !AllFree(groups[j].own, order, q)
      {
        NoBlockNoRun(groups[j].free, groups[j].bits, groups[j].own, order, q);
      }
    }

    /** Split if need be, take the first block of the order from group `g` and keep the count. */
    method SplitAndTake(g: nat, norder: nat, order: nat) returns (addr: nat)
      requires Valid() && g < |groups| && order <= norder <= TOP && groups[g].free[norder] != []
      modifies this, groups[g]
      ensures Valid() && groups == old(groups) && freeCount == old(freeCount) - Size(order)
      ensures groups[g].own in Taking(old(groups[g].own), order, addr, norder)
    {
      addr := groups[g].Take(norder, order);
      Recount(g, |FreePages(groups[g].own)|);
      freeCount := freeCount - Size(order);
      StillValid(g);
    }

    /** A change to one group, with the counts brought up to date, keeps the whole in order. */
    twostate lemma StillValid(g: nat)
      requires old(Valid()) && g < |groups| && groups == old(groups)
      requires forall i :: 0 <= i < |groups| && i != g ==> unchanged(groups[i])
      requires groups[g].Valid() && counts == old(counts)[g := |FreePages(groups[g].own)|] && freeCount == Sum(counts)
      ensures Valid()
    {
      forall i | 0 <= i < |groups| && i != g
        ensures groups[i].Valid() && counts[i] == |FreePages(groups[i].own)|
      {
        assert old(groups[i].Valid());
      }
    }

    /** Bring the ghost page count of one group up to date. */
    ghost method Recount(g: nat, count: nat)
      requires g < |groups| && |counts| == |groups|
      modifies this`counts
      ensures counts == old(counts)[g := count] && Sum(counts) == Sum(old(counts)) - old(counts)[g] + count
      ensures old(counts)[g] <= Sum(old(counts))
    {
      SumUpdate(counts, g, count);
      SumAtLeast(counts, g);
      counts := counts[g := count];
    }

    /** `_pagegroup_from_address`: the group that contains a page number, if any. */
    method GroupOf(addr: nat) returns (i: nat)
      requires Valid()
      ensures i <= |groups| && (i < |groups| ==> groups[i].Contains(addr))
      ensures i == |groups| ==> forall j :: 0 <= j < |groups| ==> !groups[j].Contains(addr)
    {
      i := 0;
      while i < |groups| && !groups[i].Contains(addr)
        invariant 0 <= i <= |groups| && forall j :: 0 <= j < i ==> !groups[j].Contains(addr)
      {
        i := i + 1;
      }
    }

    /** `_page_free_order`: a block goes back to its group; an address outside all groups is ignored. */
    method FreeOrder(addr: nat, order: nat) returns (g: nat, p: nat)
      requires Valid() && forall i :: 0 <= i < |groups| && groups[i].Contains(addr) ==> groups[i].InUse(addr, order)
      modifies this, groups
      ensures Valid() && groups == old(groups) && g <= |groups|
      ensures g < |groups| ==>
        addr == groups[g].base + p && freeCount == old(freeCount) + Size(order)
        && GaveRun(old(groups[g].own), groups[g].own, order, p)
      ensures g == |groups| ==> freeCount == old(freeCount) && forall i :: 0 <= i < |groups| ==>
        !groups[i].Contains(addr)
      ensures forall i :: 0 <= i < |groups| && i != g ==> unchanged(groups[i])
    {
      g := GroupOf(addr);
      p := 0;
      if g < |groups| {
        p := addr - groups[g].base;
        GiveTo(g, p, order);
      }
    }

    /** Give the block back to group `g` and keep the count. */
    method GiveTo(g: nat, p: nat, order: nat)
      requires Valid() && g < |groups| && p < groups[g].npages && groups[g].own[p] == Block(order, p, false)
      modifies this, groups[g]
      ensures Valid() && groups == old(groups) && freeCount == old(freeCount) + Size(order)
      ensures GaveRun(old(groups[g].own), groups[g].own, order, p)
    {
      groups[g].GiveBack(p, order);
      Recount(g, |FreePages(groups[g].own)|);
      freeCount := freeCount + Size(order);
      StillValid(g);
    }
  }

  lemma GaveRunAfterJoin(own: seq<Block>, put: seq<Block>, own': seq<Block>, k: nat, p: nat)
    requires GaveRun(own, put, k, p) && FreePages(own') == FreePages(put) && InUseKept(put, own')
    ensures GaveRun(own, own', k, p) && |FreePages(own')| == |FreePages(own)| + Size(k)
  {
    RunSize(p, k);
    forall x | 0 <= x < |own| && !own[x].free && x !in Run(p, k)
      ensures own'[x] == own[x]
    {
      assert x !in FreePages(put);
    }
  }

  // ---------------------------------------------------------------------
  // Sizes in pages
  // ---------------------------------------------------------------------

  /** The order that `page_alloc_n` and `page_free_n` choose for a page count; `None` is the panic. */
  method OrderFor(npages: u32) returns (r: Option<nat>)
    ensures r.None? <==> Size(TOP) < AsInt(npages)
    ensures r.Some? ==> r.value <= TOP && AsInt(npages) <= Size(r.value)
    ensures r.Some? ==> r.value == 0 || Size(r.value - 1) < AsInt(npages)
  {
    var order := 0;
    while order <= TOP && Size(order) < AsInt(npages)
      invariant 0 <= order <= TOP + 1
      invariant order > 0 ==> Size(order - 1) < AsInt(npages)
    {
      order := order + 1;
    }
    if order > TOP {
      return None;
    }
    SizeMultiple(order, TOP);
    return Some(order);
  }

  /**
   * The block chosen is large enough exactly for counts below 2^31: larger ones turn negative
   * in the comparison and get a single page.
   */
  lemma OrderIsEnough(npages: u32, k: nat)
    requires k <= TOP && AsInt(npages) <= Size(k) && (k == 0 || Size(k - 1) < AsInt(npages))
    ensures npages <= Size(k) <==> npages < 0x8000_0000
    ensures npages >= 0x8000_0000 ==> k == 0
  {
    SizeMultiple(k, TOP);
    assert Size(TOP) == 128;
    if npages >= 0x8000_0000 && k > 0 {
      assert false;
    }
  }

  lemma TookRunAfterSplit(own: seq<Block>, split: seq<Block>, own': seq<Block>, k: nat, p: nat)
    requires FreePages(split) == FreePages(own) && InUseKept(own, split) && TookRun(split, own', k, p)
    ensures TookRun(own, own', k, p)
  {
  }
}
