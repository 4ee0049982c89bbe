/** A fresh group of pages: `_pagegroup_create`, for every page count. */
module BuddyInit {
  import opened Arith
  import opened Lists
  import opened Buddy
  import opened BuddyLists
  import opened BuddySteps

  /** `n` rounded down to a multiple of the block size of order `k`. */
  function Down(n: nat, k: nat): (d: nat)
    ensures d <= n
  {
    ModRange(n, Size(k));
    n - n % Size(k)
  }

  lemma DownAligned(n: nat, k: nat)
    ensures Aligned(Down(n, k), k) && n < Down(n, k) + Size(k) && Down(n, k) / Size(k) == n / Size(k)
  {
    ModRange(n, Size(k));
    DivUnique(Down(n, k), Size(k), n / Size(k), 0);
  }

  /** One order up, at most one block of the lower order is left over. */
  lemma DownStep(n: nat, k: nat)
    ensures Down(n, k + 1) == Parent(Down(n, k), k) <= Down(n, k)
    ensures Down(n, k) == if n / Size(k) % 2 == 1 then Down(n, k + 1) + Size(k) else Down(n, k + 1)
  {
    var d := Down(n, k);
    DownAligned(n, k);
    Halves(d, k);
    var q := Parent(d, k);
    ModRange(q, Size(k + 1));
    assert q <= n < q + Size(k + 1);
    DivUnique(n, Size(k + 1), q / Size(k + 1), n - q);
  }

  lemma {:induction false} DownMonotone(n: nat, j: nat, k: nat)
    requires j <= k
    ensures Down(n, k) <= Down(n, j)
  {
    if j < k {
      DownMonotone(n, j, k - 1);
      DownStep(n, k - 1);
    }
  }

  /** The order of the block that page `x` starts out in, found by looking at the left-over blocks in turn. */
  ghost function OrderAt(n: nat, x: nat, k: nat): (j: nat)
    requires k <= TOP && x < Down(n, k)
    ensures k <= j <= TOP && x < Down(n, j) && (j < TOP ==> Down(n, j + 1) <= x)
    decreases TOP - k
  {
    if k == TOP || x >= Down(n, k + 1) then k else OrderAt(n, x, k + 1)
  }

  lemma {:induction false} OrderAtUnique(n: nat, x: nat, k: nat, j: nat)
    requires k <= j <= TOP && x < Down(n, j) && (j < TOP ==> Down(n, j + 1) <= x)
    ensures x < Down(n, k) && OrderAt(n, x, k) == j
    decreases TOP - k
  {
    DownMonotone(n, k, j);
    if k < j {
      DownMonotone(n, k + 1, j);
      OrderAtUnique(n, x, k + 1, j);
    }
  }

  ghost function FirstBlock(n: nat, x: nat): Block
    requires x < n
  {
    DownZero(n);
    var j := OrderAt(n, x, 0);
    if j < TOP then Block(j, Down(n, j + 1), true) else Block(TOP, Down(x, TOP), true)
  }

  lemma DownZero(n: nat)
    ensures Down(n, 0) == n
  {
  }

  ghost function InitOwn(n: nat): (own: seq<Block>)
    ensures |own| == n
  {
    seq(n, x requires 0 <= x < n => FirstBlock(n, x))
  }

  lemma FirstBlockFits(n: nat, x: nat)
    requires x < n
    ensures Fits(FirstBlock(n, x), n) && Inside(x, FirstBlock(n, x))
  {
    DownZero(n);
    var j := OrderAt(n, x, 0);
    if j < TOP {
      LeftOverFits(n, j, x);
    } else {
      DownAligned(x, TOP);
      DownAligned(n, TOP);
      TopRunFits(Down(x, TOP), Down(n, TOP));
    }
  }

  lemma LeftOverFits(n: nat, j: nat, x: nat)
    requires Down(n, j + 1) <= x < Down(n, j)
    ensures Aligned(Down(n, j + 1), j) && Down(n, j + 1) + Size(j) == Down(n, j) <= n
  {
    DownStep(n, j);
    DownAligned(n, j);
    Halves(Down(n, j), j);
  }

  lemma FirstBlockShared(n: nat, x: nat, y: nat)
    requires x < n && y < n && Inside(y, FirstBlock(n, x))
    ensures FirstBlock(n, y) == FirstBlock(n, x)
  {
    FirstBlockFits(n, x);
    DownZero(n);
    var j := OrderAt(n, x, 0);
    if j < TOP {
      DownStep(n, j);
      OrderAtUnique(n, y, 0, j);
    } else {
      DownAligned(x, TOP);
      DownAligned(n, TOP);
      TopRunFits(Down(x, TOP), Down(n, TOP));
      OrderAtUnique(n, y, 0, TOP);
      ModRange(Down(x, TOP), Size(TOP));
      DivUnique(y, Size(TOP), Down(x, TOP) / Size(TOP), y - Down(x, TOP));
    }
  }

  lemma InitPartition(n: nat)
    ensures Partition(InitOwn(n))
  {
    forall x | 0 <= x < n
      ensures Fits(InitOwn(n)[x], n) && Inside(x, InitOwn(n)[x])
    {
      FirstBlockFits(n, x);
    }
    forall x, y | 0 <= x < n && 0 <= y < n && Inside(y, InitOwn(n)[x])
      ensures InitOwn(n)[y] == InitOwn(n)[x]
    {
      FirstBlockShared(n, x, y);
    }
  }

  /** The free blocks of a fresh group: one left-over block for each low bit of the count, and whole largest blocks. */
  lemma InitFree(n: nat, k: nat, p: nat)
    ensures k < TOP ==> ((k, p) in FreeSet(InitOwn(n)) <==> p == Down(n, k + 1) && n / Size(k) % 2 == 1)
    ensures (TOP, p) in FreeSet(InitOwn(n)) <==> p < Down(n, TOP) && Aligned(p, TOP)
    ensures k > TOP ==> (k, p) !in FreeSet(InitOwn(n))
  {
    FreeSetByPage(InitOwn(n));
    DownZero(n);
    DownMonotone(n, 0, TOP);
    if k < TOP {
      DownStep(n, k);
      DownMonotone(n, 0, k);
      if p == Down(n, k + 1) && p < Down(n, k) {
        OrderAtUnique(n, p, 0, k);
      }
    }
    if p < Down(n, TOP) {
      OrderAtUnique(n, p, 0, TOP);
      DownAligned(p, TOP);
    } else if p < n {
      FirstBlockFits(n, p);
    }
  }

  lemma InitNoBuddies(n: nat)
    ensures NoBuddies(FreeSet(InitOwn(n)), TOP, 0)
  {
    forall k: nat, p: nat | k < TOP
      ensures !BothFree(FreeSet(InitOwn(n)), k, p)
    {
      InitFree(n, k, p);
      InitFree(n, k, p + Size(k));
    }
  }

  ghost predicate AllClear(bits: seq<seq<bool>>) {
    |bits| == TOP + 1 && forall k, i :: 0 < k <= TOP && 0 <= i < |bits[k]| ==> !bits[k][i]
  }

  /**
   * Cleared bit maps describe a fresh group exactly when they have a bit for every page and the
   * page count is a multiple of the largest block: a left-over block has no buddy, so its bit
   * would have to be set.
   */
  lemma InitBits(bits: seq<seq<bool>>, n: nat)
    requires AllClear(bits)
    ensures BitsMatch(bits, n, FreeSet(InitOwn(n))) <==> Covers(bits, n) && n % Size(TOP) == 0
  {
    if Covers(bits, n) {
      if n % Size(TOP) == 0 {
        WholeBlocksMatch(bits, n);
      } else {
        var k := LeftOver(n, 0);
        var p := Down(n, k + 1);
        InitFree(n, k, p);
        InitFree(n, k, p + Size(k));
        DownStep(n, k);
        DownAligned(n, k + 1);
        assert HasBit(bits, k + 1, p);
        assert PairBit(FreeSet(InitOwn(n)), k, p);
        assert !bits[k + 1][p / Size(k + 1)];
      }
    }
  }

  /**
   * Every left-over block that has a bit at all can be taken and given back, and then its bit is
   * clear as at first, though its buddy would reach behind the end of the group: `__page_join`
   * would go on to remove from a list a buddy that is on none.
   */
  lemma JoinsWithNothing(bits: seq<seq<bool>>, n: nat, k: nat, p: nat)
    requires AllClear(bits) && k < TOP && (k, p) in FreeSet(InitOwn(n)) && HasBit(bits, k + 1, p)
    ensures Aligned(p, k) && BuddyOf(p, k) <= n < BuddyOf(p, k) + Size(k)
    ensures (k, BuddyOf(p, k)) !in FreeSet(InitOwn(n))
    ensures var taken := FlipBit(bits, k + 1, p);
      HasBit(taken, k + 1, p) && !FlipBit(taken, k + 1, p)[k + 1][p / Size(k + 1)]
  {
    InitFree(n, k, p);
    DownStep(n, k);
    DownAligned(n, k);
    DownAligned(n, k + 1);
    SecondHalf(p, Size(k));
    InitFree(n, k, p + Size(k));
  }

  /** Unless the pages are whole largest blocks there is a left-over block. */
  lemma SomeLeftOver(n: nat) returns (k: nat, p: nat)
    requires n % Size(TOP) != 0
    ensures k < TOP && (k, p) in FreeSet(InitOwn(n)) && p + Size(k) == n
  {
    k := LeftOver(n, 0);
    p := Down(n, k + 1);
    InitFree(n, k, p);
    DownStep(n, k);
  }

  lemma WholeBlocksMatch(bits: seq<seq<bool>>, n: nat)
    requires AllClear(bits) && Covers(bits, n) && n % Size(TOP) == 0
    ensures BitsMatch(bits, n, FreeSet(InitOwn(n)))
  {
    forall k: nat, p: nat | k < TOP
      ensures (k, p) !in FreeSet(InitOwn(n))
    {
      InitFree(n, k, p);
      DownMonotone(n, k + 1, TOP);
      DownStep(n, k);
    }
    assert forall k: nat, p: nat :: k < TOP ==> !PairBit(FreeSet(InitOwn(n)), k, p);
  }

  /** The lowest order with a left-over block. */
  lemma LeftOver(n: nat, k: nat) returns (j: nat)
    requires k <= TOP && Down(n, k) == n && n % Size(TOP) != 0
    ensures k <= j < TOP && Down(n, j) == n && Down(n, j + 1) < n
    decreases TOP - k
  {
    if Down(n, k + 1) < n {
      j := k;
    } else {
      j := LeftOver(n, k + 1);
    }
  }

  /** `_pagegroup_create`: the free lists of a fresh group of `n` pages. */
  method CreateLists(n: nat) returns (free: seq<seq<nat>>)
    ensures ListsMatch(free, FreeSet(InitOwn(n)))
  {
    free := [];
    var end := n;
    var order: nat := 0;
    DownZero(n);
    while order < TOP
      invariant 0 <= order <= TOP && |free| == order && end == Down(n, order)
      invariant forall k: nat :: k < order ==> ListMatches(free[k], FreeSet(InitOwn(n)), k)
    {
      DownStep(n, order);
      forall p: nat ensures (order, p) in FreeSet(InitOwn(n)) <==> p == Down(n, order + 1) && n / Size(order) % 2 == 1 {
        InitFree(n, order, p);
      }
      if n / Size(order) % 2 == 1 {
        end := end - Size(order);
        free := free + [[end]];
      } else {
        free := free + [[]];
      }
      order := order + 1;
    }
    var list := LargestBlocks(n, end);
    free := free + [list];
    forall b | b in FreeSet(InitOwn(n)) ensures b.0 <= TOP { InitFree(n, b.0, b.1); }
  }

  /** The remaining pages go into the largest bucket. */
  method LargestBlocks(n: nat, end: nat) returns (list: seq<nat>)
    requires end == Down(n, TOP)
    ensures ListMatches(list, FreeSet(InitOwn(n)), TOP)
  {
    list := [];
    var current := 0;
    DownAligned(n, TOP);
    while current < end
      invariant 0 <= current <= end && Aligned(current, TOP)
      invariant Distinct(list) && forall p: nat :: p in list <==> p < current && Aligned(p, TOP)
      decreases end - current
    {
      TopRunFits(current, end);
      NextAligned(current);
      assert forall p :: p in [current] + list <==> p == current || p in list;
      list := [current] + list;
      current := current + Size(TOP);
    }
    forall p: nat ensures (TOP, p) in FreeSet(InitOwn(n)) <==> p in list {
      InitFree(n, TOP, p);
    }
  }

  lemma NextAligned(c: nat)
    requires Aligned(c, TOP)
    ensures Aligned(c + Size(TOP), TOP)
    ensures forall p: nat :: Aligned(p, TOP) && p < c + Size(TOP) ==> p <= c
  {
    SubMultiple(c, Size(TOP), 1);
    forall p: nat | Aligned(p, TOP) && c < p
      ensures p >= c + Size(TOP)
    {
      TopRunFits(c, p);
    }
  }
}
