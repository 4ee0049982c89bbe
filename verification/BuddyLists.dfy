/** Free lists and buddy bit maps against the set of free blocks they stand for. */
module BuddyLists {
  import opened Arith
  import opened Lists
  import opened Buddy

  type Blocks = set<(nat, nat)>

  /** A list holds exactly the free blocks of order `k`, once each. */
  ghost predicate ListMatches(list: seq<nat>, blocks: Blocks, k: nat) {
    Distinct(list) && forall p: nat :: p in list <==> (k, p) in blocks
  }

  ghost predicate ListsMatch(free: seq<seq<nat>>, blocks: Blocks) {
    && |free| == TOP + 1
    && (forall k: nat :: k <= TOP ==> ListMatches(free[k], blocks, k))
    && (forall b :: b in blocks ==> b.0 <= TOP)
  }

  /** The exclusive or that one bit records: is exactly one of the two buddies at `p` free? */
  ghost predicate PairBit(blocks: Blocks, k: nat, p: nat) {
    ((k, p) in blocks) != ((k, p + Size(k)) in blocks)
  }

  /** Map `k` has a bit for the pair of buddies that page `p` lies in. */
  ghost predicate HasBit(bits: seq<seq<bool>>, k: nat, p: nat) { k < |bits| && 0 <= p / Size(k) < |bits[k]| }

  /** The maps have a bit for every page of a group of `n` pages. */
  ghost predicate Covers(bits: seq<seq<bool>>, n: nat) {
    forall k: nat, p: nat {:trigger HasBit(bits, k, p)} :: 0 < k <= TOP && p < n ==> HasBit(bits, k, p)
  }

  /** Map `k` has a bit for every pair of buddies of order `k - 1` in a group of `n` pages. */
  ghost predicate BitsMatch(bits: seq<seq<bool>>, n: nat, blocks: Blocks) {
    && |bits| == TOP + 1 && Covers(bits, n)
    && (forall k: nat, p: nat :: 0 < k <= TOP && p < n && Aligned(p, k) && 0 <= p / Size(k) < |bits[k]| ==>
          bits[k][p / Size(k)] == PairBit(blocks, k - 1, p))
  }

  /** No two buddies below the top order are both free, except possibly the pair at `(k0, p0)`. */
  ghost predicate NoBuddies(blocks: Blocks, k0: nat, p0: nat) {
    forall k: nat, p: nat {:trigger BothFree(blocks, k, p)} ::
      k < TOP && Aligned(p, k + 1) && BothFree(blocks, k, p) ==> k == k0 && p == p0
  }

  ghost predicate BothFree(blocks: Blocks, k: nat, p: nat) {
    (k, p) in blocks && (k, p + Size(k)) in blocks
  }

  // ---------------------------------------------------------------------
  // List operations
  // ---------------------------------------------------------------------

  function InsertHead(free: seq<seq<nat>>, k: nat, p: nat): seq<seq<nat>>
    requires k < |free|
  {
    free[k := [p] + free[k]]
  }

  function RemoveHead(free: seq<seq<nat>>, k: nat): seq<seq<nat>>
    requires k < |free| && free[k] != []
  {
    free[k := free[k][1..]]
  }

  lemma ListsInsert(free: seq<seq<nat>>, blocks: Blocks, k: nat, p: nat)
    requires ListsMatch(free, blocks) && k <= TOP && (k, p) !in blocks
    ensures ListsMatch(InsertHead(free, k, p), blocks + {(k, p)})
  {
    assert ListMatches(free[k], blocks, k);
    assert ListMatches([p] + free[k], blocks + {(k, p)}, k);
    forall j: nat | j <= TOP && j != k
      ensures ListMatches(free[j], blocks + {(k, p)}, j)
    {
      assert ListMatches(free[j], blocks, j);
    }
  }

  lemma HeadIsFree(free: seq<seq<nat>>, blocks: Blocks, k: nat)
    requires ListsMatch(free, blocks) && k <= TOP && free[k] != []
    ensures (k, free[k][0]) in blocks
  {
    assert ListMatches(free[k], blocks, k) && free[k][0] in free[k];
  }

  lemma ListsRemoveHead(free: seq<seq<nat>>, blocks: Blocks, k: nat)
    requires ListsMatch(free, blocks) && k <= TOP && free[k] != []
    ensures (k, free[k][0]) in blocks
    ensures ListsMatch(RemoveHead(free, k), blocks - {(k, free[k][0])})
  {
    var p := free[k][0];
    assert ListMatches(free[k], blocks, k);
    assert free[k] == [p] + free[k][1..];
    assert p in free[k];
    assert ListMatches(free[k][1..], blocks - {(k, p)}, k);
    forall j: nat | j <= TOP && j != k
      ensures ListMatches(free[j], blocks - {(k, p)}, j)
    {
      assert ListMatches(free[j], blocks, j);
    }
  }

  lemma ListsRemove(free: seq<seq<nat>>, blocks: Blocks, k: nat, p: nat)
    requires ListsMatch(free, blocks) && (k, p) in blocks
    ensures k <= TOP && p in free[k]
    ensures ListsMatch(free[k := Without(free[k], p)], blocks - {(k, p)})
  {
    assert k == (k, p).0 <= TOP;
    assert ListMatches(free[k], blocks, k);
    WithoutIs(free[k], p);
    assert ListMatches(Without(free[k], p), blocks - {(k, p)}, k);
    forall j: nat | j <= TOP && j != k
      ensures ListMatches(free[j], blocks - {(k, p)}, j)
    {
      assert ListMatches(free[j], blocks, j);
    }
  }

  // ---------------------------------------------------------------------
  // Bit operations
  // ---------------------------------------------------------------------

  /** `bit_flip` of the bit for address `p` in map `k`. */
  function FlipBit(bits: seq<seq<bool>>, k: nat, p: nat): seq<seq<bool>>
    requires k < |bits| && 0 <= p / Size(k) < |bits[k]|
  {
    bits[k := bits[k][p / Size(k) := !bits[k][p / Size(k)]]]
  }

  lemma IndexInjective(p: nat, q: nat, s: nat)
    requires s > 0 && p % s == 0 && q % s == 0 && p / s == q / s
    ensures p == q
  {
    ModRange(p, s);
    ModRange(q, s);
  }

  lemma IndexInRange(p: nat, n: nat, s: nat)
    requires s > 0 && p < n
    ensures 0 <= p / s <= n / s
  {
    ModRange(p, s);
    ModRange(n, s);
    if p / s >= n / s + 1 {
      MulLe(n / s + 1, p / s, s);
      Distribute(n / s, 1, s);
      assert false;
    }
  }

  lemma ParentIndex(p: nat, k: nat)
    requires Aligned(p, k)
    ensures p / Size(k + 1) == Parent(p, k) / Size(k + 1)
  {
    var s := Size(k + 1);
    ModRange(p, s);
    DivUnique(Parent(p, k), s, p / s, 0);
  }

  /** Freeing or taking one block of a pair turns the pair's bit over, and no other. */
  lemma BitsFlip(bits: seq<seq<bool>>, n: nat, blocks: Blocks, blocks': Blocks, k: nat, p: nat)
    requires BitsMatch(bits, n, blocks) && k < TOP && p < n && Aligned(p, k)
    requires (blocks' == blocks + {(k, p)} && (k, p) !in blocks) || (blocks' == blocks - {(k, p)} && (k, p) in blocks)
    ensures 0 <= p / Size(k + 1) < |bits[k + 1]|
    ensures BitsMatch(FlipBit(bits, k + 1, p), n, blocks')
  {
    assert HasBit(bits, k + 1, p);
    ParentIndex(p, k);
    Halves(p, k);
    var now := FlipBit(bits, k + 1, p);
    forall j: nat, q: nat | 0 < j <= TOP && q < n
      ensures HasBit(now, j, q)
    {
      assert HasBit(bits, j, q);
    }
    forall j: nat, q: nat | 0 < j <= TOP && q < n && Aligned(q, j) && 0 <= q / Size(j) < |now[j]|
      ensures now[j][q / Size(j)] == PairBit(blocks', j - 1, q)
    {
      assert bits[j][q / Size(j)] == PairBit(blocks, j - 1, q);
      PairBitFlips(blocks, blocks', k, p, j - 1, q);
      if j == k + 1 && q / Size(j) == p / Size(j) {
        IndexInjective(q, Parent(p, k), Size(j));
      }
    }
  }

  lemma PairBitFlips(blocks: Blocks, blocks': Blocks, k: nat, p: nat, j: nat, q: nat)
    requires Aligned(p, k) && Aligned(q, j + 1)
    requires (blocks' == blocks + {(k, p)} && (k, p) !in blocks) || (blocks' == blocks - {(k, p)} && (k, p) in blocks)
    ensures PairBit(blocks', j, q) <==> (PairBit(blocks, j, q) != (j == k && q == Parent(p, k)))
  {
    Halves(p, k);
    if j == k && q != Parent(p, k) {
      OtherPair(p, q, k);
    }
  }

  /** A block belongs to no other pair than its parent's. */
  lemma OtherPair(p: nat, q: nat, k: nat)
    requires Aligned(p, k) && Aligned(q, k + 1) && q != Parent(p, k)
    ensures p != q && p != q + Size(k)
  {
    SecondHalf(q, Size(k));
    ModRange(p, Size(k + 1));
  }

  /** Changing a block of the top order touches no bit. */
  lemma BitsTop(bits: seq<seq<bool>>, n: nat, blocks: Blocks, blocks': Blocks, p: nat)
    requires BitsMatch(bits, n, blocks)
    requires blocks' == blocks + {(TOP, p)} || blocks' == blocks - {(TOP, p)}
    ensures BitsMatch(bits, n, blocks')
  {
    assert forall k: nat, q: nat :: k < TOP ==> (PairBit(blocks', k, q) <==> PairBit(blocks, k, q));
  }

  /** Taking or giving both blocks of a pair leaves its bit as it is. */
  lemma BitsBoth(bits: seq<seq<bool>>, n: nat, blocks: Blocks, blocks': Blocks, k: nat, p: nat)
    requires BitsMatch(bits, n, blocks) && k < TOP && Aligned(p, k + 1)
    requires var pair := {(k, p), (k, p + Size(k))};
      (pair <= blocks && blocks' == blocks - pair) || (pair !! blocks && blocks' == blocks + pair)
    ensures BitsMatch(bits, n, blocks')
  {
    SecondHalf(p, Size(k));
    forall j: nat, q: nat | j < TOP && Aligned(q, j + 1)
      ensures PairBit(blocks', j, q) <==> PairBit(blocks, j, q)
    {
      if j == k && q != p {
        SecondHalf(q, Size(k));
      }
    }
  }

  // ---------------------------------------------------------------------
  // What the invariant says about free memory
  // ---------------------------------------------------------------------

  /** Every page of the run is free. */
  ghost predicate AllFree(own: seq<Block>, k: nat, p: nat) {
    p + Size(k) <= |own| && forall x :: p <= x < p + Size(k) ==> own[x].free
  }

  /**
   * A search over the free lists loses nothing: an aligned run of free pages always lies
   * inside a free block that is at least as large.
   */
  lemma {:induction false} FreeRunInBlock(own: seq<Block>, k: nat, p: nat)
    requires Partition(own) && NoBuddies(FreeSet(own), TOP, 0)
    requires k <= TOP && Aligned(p, k) && AllFree(own, k, p)
    ensures own[p].free && own[p].order >= k && own[p].page <= p && p + Size(k) <= own[p].page + Size(own[p].order)
  {
    if k > 0 {
      SecondHalf(p, Size(k - 1));
      FreeRunInBlock(own, k - 1, p);
      FreeRunInBlock(own, k - 1, p + Size(k - 1));
      HalvesInBlock(own, k, p);
    }
  }

  lemma HalvesInBlock(own: seq<Block>, k: nat, p: nat)
    requires Partition(own) && NoBuddies(FreeSet(own), TOP, 0)
    requires 0 < k <= TOP && Aligned(p, k) && p + Size(k) <= |own|
    requires var l := own[p]; l.free && l.order >= k - 1
    requires var r := own[p + Size(k - 1)]; r.free && r.order >= k - 1
    ensures own[p].order >= k && own[p].page <= p && p + Size(k) <= own[p].page + Size(own[p].order)
  {
    var h := Size(k - 1);
    SecondHalf(p, h);
    var left, right := own[p], own[p + h];
    if left.order >= k {
      BlockCoversRun(left, k, p);
    } else if right.order >= k {
      RunStart(p, k);
      BlockCoversRun(right, k, p + h);
    } else {
      NotBoth(FreeSet(own), k - 1, p);
      ExactBlock(own, k - 1, p);
      ExactBlock(own, k - 1, p + h);
      assert false;
    }
  }

  lemma NotBoth(blocks: Blocks, k: nat, p: nat)
    requires NoBuddies(blocks, TOP, 0) && k < TOP && Aligned(p, k + 1)
    ensures (k, p) !in blocks || (k, p + Size(k)) !in blocks
  {
    assert !BothFree(blocks, k, p);
  }

  /** A free block that covers an aligned page and is of that alignment starts there. */
  lemma ExactBlock(own: seq<Block>, k: nat, x: nat)
    requires Partition(own) && x < |own| && own[x].free && own[x].order == k && Aligned(x, k)
    ensures (k, x) in FreeSet(own)
  {
    assert Fits(own[x], |own|) && Inside(x, own[x]);
    BlockCoversRun(own[x], k, x);
  }

  lemma RunStart(p: nat, k: nat)
    requires 0 < k && Aligned(p, k)
    ensures (p + Size(k - 1)) % Size(k) == Size(k - 1)
  {
    SecondHalf(p, Size(k - 1));
  }

  lemma {:induction false} SizeMultiple(j: nat, k: nat)
    requires j <= k
    ensures Size(k) % Size(j) == 0 && Size(j) <= Size(k)
  {
    if j == k {
      DivUnique(Size(k), Size(k), 1, 0);
    } else {
      SizeMultiple(j, k - 1);
      SubMultiple(Size(k - 1), Size(j), 0);
      var s, c := Size(j), Size(k - 1) / Size(j);
      ModRange(Size(k - 1), s);
      assert 2 * (c * s) == 2 * c * s;
      DivUnique(Size(k), s, 2 * c, 0);
    }
  }

  /** A larger aligned block that meets an aligned run contains it. */
  lemma BlockCoversRun(b: Block, k: nat, x: nat)
    requires k <= b.order && Aligned(b.page, b.order) && Inside(x, b)
    ensures var p := x - x % Size(k); b.page <= p && p + Size(k) <= b.page + Size(b.order)
  {
    var s := Size(k);
    SizeMultiple(k, b.order);
    ModRange(x, s);
    ModRange(b.page, Size(b.order));
    ModRange(Size(b.order), s);
    var c, q := Size(b.order) / s, b.page / Size(b.order);
    var lo, hi, i := q * c, q * c + c, x / s;
    assert b.page == lo * s by { MulAssoc(q, c, s); }
    assert b.page + Size(b.order) == hi * s by { Distribute(lo, c, s); }
    if i < lo {
      MulLe(i + 1, lo, s);
      Distribute(i, 1, s);
      assert false;
    }
    if i >= hi {
      MulLe(hi, i, s);
      assert false;
    }
    MulLe(lo, i, s);
    MulLe(i + 1, hi, s);
    Distribute(i, 1, s);
  }

  /** The free blocks are the maximal aligned runs of free pages, so the free pages determine them. */
  lemma FreeBlocksAreMaximal(own: seq<Block>, k: nat, p: nat)
    requires Partition(own) && NoBuddies(FreeSet(own), TOP, 0)
    requires k <= TOP && Aligned(p, k)
    ensures (k, p) in FreeSet(own) <==> AllFree(own, k, p) && (k == TOP || !AllFree(own, k + 1, Parent(p, k)))
  {
    Halves(p, k);
    FreeSetByPage(own);
    if (k, p) in FreeSet(own) {
      assert forall x :: p <= x < p + Size(k) ==> Inside(x, own[p]);
      if k < TOP && AllFree(own, k + 1, Parent(p, k)) {
        FreeRunInBlock(own, k + 1, Parent(p, k));
      }
    } else if AllFree(own, k, p) {
      FreeRunInBlock(own, k, p);
      LargerBlock(own, k, p);
    }
  }

  /** A free run that is not itself a free block lies in a free block of its parent's size or more. */
  lemma LargerBlock(own: seq<Block>, k: nat, p: nat)
    requires Partition(own) && k <= TOP && Aligned(p, k) && p + Size(k) <= |own|
    requires own[p].free && own[p].order >= k && own[p] != Block(k, p, true)
    ensures k < TOP && AllFree(own, k + 1, Parent(p, k))
  {
    var b := own[p];
    BlockCoversRun(b, k, p);
    if b.order > k {
      BlockCoversRun(b, k + 1, p);
      forall x | Parent(p, k) <= x < Parent(p, k) + Size(k + 1)
        ensures own[x].free
      {
        assert Inside(x, b);
        assert own[x] == b;
      }
    }
  }

  /** When every page of a group is free again, it is made of largest blocks only. */
  lemma AllFreeIsTop(own: seq<Block>)
    requires Partition(own) && NoBuddies(FreeSet(own), TOP, 0)
    requires |own| % Size(TOP) == 0 && forall x :: 0 <= x < |own| ==> own[x].free
    ensures forall x: nat :: x < |own| ==> own[x] == Block(TOP, x - x % Size(TOP), true)
  {
    forall x: nat | x < |own|
      ensures own[x] == Block(TOP, x - x % Size(TOP), true)
    {
      var s := Size(TOP);
      var p := x - x % s;
      ModRange(x, s);
      DivUnique(p, s, x / s, 0);
      TopRunFits(p, |own|);
      FreeRunInBlock(own, TOP, p);
      BlockCoversRun(own[p], TOP, p);
      assert Inside(x, own[p]);
      assert own[x] == own[p];
    }
  }

  lemma TopRunFits(p: nat, n: nat)
    requires p < n && Aligned(p, TOP) && n % Size(TOP) == 0
    ensures p + Size(TOP) <= n
  {
    var s := Size(TOP);
    ModRange(p, s);
    ModRange(n, s);
    if p / s >= n / s {
      MulLe(n / s, p / s, s);
      assert false;
    }
    MulLe(p / s + 1, n / s, s);
    Distribute(p / s, 1, s);
  }

  /**
   * History does not matter: two groups with the same free pages have the same free blocks,
   * whatever allocations and releases led to them.
   */
  lemma FreePagesDetermineBlocks(own: seq<Block>, own': seq<Block>)
    requires Partition(own) && NoBuddies(FreeSet(own), TOP, 0)
    requires Partition(own') && NoBuddies(FreeSet(own'), TOP, 0)
    requires |own| == |own'| && FreePages(own) == FreePages(own')
    ensures FreeSet(own) == FreeSet(own')
  {
    SameFreeBlocks(own, own');
    SameFreeBlocks(own', own);
  }

  lemma SameFreeBlocks(own: seq<Block>, own': seq<Block>)
    requires Partition(own) && NoBuddies(FreeSet(own), TOP, 0)
    requires Partition(own') && NoBuddies(FreeSet(own'), TOP, 0)
    requires |own| == |own'| && FreePages(own) == FreePages(own')
    ensures FreeSet(own) <= FreeSet(own')
  {
    forall x: nat | x < |own|
      ensures own[x].free <==> own'[x].free
    {
      assert x in FreePages(own) <==> x in FreePages(own');
    }
    forall b | b in FreeSet(own)
      ensures b in FreeSet(own')
    {
      assert Fits(own[b.1], |own|);
      FreeBlocksAreMaximal(own, b.0, b.1);
      FreeBlocksAreMaximal(own', b.0, b.1);
      assert AllFree(own, b.0, b.1) ==> AllFree(own', b.0, b.1);
      assert AllFree(own', b.0 + 1, Parent(b.1, b.0)) ==> AllFree(own, b.0 + 1, Parent(b.1, b.0));
    }
  }
}
