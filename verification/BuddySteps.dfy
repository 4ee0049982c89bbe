/** Every elementary step of the page allocator keeps the invariant of its group. */
module BuddySteps {
  import opened Lists
  import opened Buddy
  import opened BuddyLists

  /** The invariant, with at most the pair `(k0, p0)` of buddies both free; `(TOP, _)` means none. */
  ghost predicate Inv(free: seq<seq<nat>>, bits: seq<seq<bool>>, own: seq<Block>, k0: nat, p0: nat) {
    && Partition(own)
    && ListsMatch(free, FreeSet(own))
    && BitsMatch(bits, |own|, FreeSet(own))
    && NoBuddies(FreeSet(own), k0, p0)
  }

  /** Between calls no pair of buddies is wholly free. */
  ghost predicate Steady(free: seq<seq<nat>>, bits: seq<seq<bool>>, own: seq<Block>) {
    Inv(free, bits, own, TOP, 0)
  }

  /** A block that may be handled: nothing else is pending, or it is part of the pending pair. */
  ghost predicate Pending(k0: nat, p0: nat, k: nat, t: nat) {
    k0 >= TOP || (k0 == k && p0 == Parent(t, k))
  }

  /** The state of a bit map after the free status of one block of order `k` changed. */
  function Toggle(bits: seq<seq<bool>>, k: nat, t: nat): seq<seq<bool>>
    requires k < TOP ==> HasBit(bits, k + 1, t)
  {
    if k < TOP then FlipBit(bits, k + 1, t) else bits
  }

  lemma FreeBlockFits(own: seq<Block>, k: nat, t: nat)
    requires Partition(own) && (k, t) in FreeSet(own)
    ensures t < |own| && own[t] == Block(k, t, true) && k <= TOP && Aligned(t, k) && t + Size(k) <= |own|
  {
    assert Fits(own[t], |own|);
  }

  lemma ToggleMatches(bits: seq<seq<bool>>, n: nat, blocks: Blocks, blocks': Blocks, k: nat, t: nat)
    requires BitsMatch(bits, n, blocks) && k <= TOP && t < n && Aligned(t, k)
    requires (blocks' == blocks + {(k, t)} && (k, t) !in blocks) || (blocks' == blocks - {(k, t)} && (k, t) in blocks)
    ensures k < TOP ==> HasBit(bits, k + 1, t)
    ensures BitsMatch(Toggle(bits, k, t), n, blocks')
  {
    if k < TOP {
      BitsFlip(bits, n, blocks, blocks', k, t);
    } else {
      BitsTop(bits, n, blocks, blocks', t);
    }
  }

  /** Blocks in use are left alone. */
  ghost predicate InUseKept(own: seq<Block>, own': seq<Block>) {
    |own'| == |own| && forall x :: 0 <= x < |own| && !own[x].free ==> own'[x] == own[x]
  }

  lemma FreePagesOfBlock(own: seq<Block>, k: nat, t: nat)
    requires Partition(own) && t < |own| && own[t] == Block(k, t, true)
    ensures forall x :: 0 <= x < |own| && Inside(x, Block(k, t, true)) ==> own[x].free
  {
    assert forall x :: 0 <= x < |own| && Inside(x, own[t]) ==> own[x] == own[t];
  }

  // ---------------------------------------------------------------------
  // Taking a block off its list
  // ---------------------------------------------------------------------

  lemma TakeStep(free: seq<seq<nat>>, bits: seq<seq<bool>>, own: seq<Block>, k: nat, k0: nat, p0: nat)
    requires Inv(free, bits, own, k0, p0) && k <= TOP && free[k] != [] && Pending(k0, p0, k, free[k][0])
    ensures var t := free[k][0];
      && t + Size(k) <= |own| && own[t] == Block(k, t, true)
      && (k < TOP ==> HasBit(bits, k + 1, t))
      && Steady(RemoveHead(free, k), Toggle(bits, k, t), Paint(own, Block(k, t, false)))
      && Run(t, k) <= FreePages(own)
      && FreePages(Paint(own, Block(k, t, false))) == FreePages(own) - Run(t, k)
      && InUseKept(own, Paint(own, Block(k, t, false)))
  {
    var t := free[k][0];
    ListsRemoveHead(free, FreeSet(own), k);
    TakeOwners(own, k, t);
    ToggleMatches(bits, |own|, FreeSet(own), FreeSet(own) - {(k, t)}, k, t);
    PairBroken(FreeSet(own), k0, p0, k, t);
  }

  lemma TakeOwners(own: seq<Block>, k: nat, t: nat)
    requires Partition(own) && (k, t) in FreeSet(own)
    ensures t + Size(k) <= |own| && own[t] == Block(k, t, true) && Aligned(t, k) && k <= TOP
    ensures var now := Paint(own, Block(k, t, false));
      && Partition(now) && FreeSet(now) == FreeSet(own) - {(k, t)}
      && Run(t, k) <= FreePages(own) && FreePages(now) == FreePages(own) - Run(t, k) && InUseKept(own, now)
  {
    FreeBlockFits(own, k, t);
    PaintBlock(own, k, t, false);
    FreePagesOfBlock(own, k, t);
  }

  /** Removing a block of the pending pair leaves no pair pending. */
  lemma PairBroken(blocks: Blocks, k0: nat, p0: nat, k: nat, t: nat)
    requires NoBuddies(blocks, k0, p0) && Pending(k0, p0, k, t) && Aligned(t, k)
    ensures NoBuddies(blocks - {(k, t)}, TOP, 0)
  {
    Halves(t, k);
    assert forall j: nat, p: nat :: BothFree(blocks - {(k, t)}, j, p) ==> BothFree(blocks, j, p);
  }

  // ---------------------------------------------------------------------
  // Splitting a block
  // ---------------------------------------------------------------------

  ghost function SplitLists(free: seq<seq<nat>>, k: nat): seq<seq<nat>>
    requires 0 < k < |free| && free[k] != []
  {
    var t := free[k][0];
    InsertHead(InsertHead(RemoveHead(free, k), k - 1, t), k - 1, t + Size(k - 1))
  }

  /** The bit of a block that is free as a whole says that its halves are not. */
  lemma SplitBitClear(bits: seq<seq<bool>>, own: seq<Block>, k: nat, t: nat)
    requires 0 < k <= TOP && Partition(own) && BitsMatch(bits, |own|, FreeSet(own)) && (k, t) in FreeSet(own)
    ensures HasBit(bits, k, t) && !bits[k][t / Size(k)]
    ensures (k - 1, t) !in FreeSet(own) && (k - 1, t + Size(k - 1)) !in FreeSet(own)
  {
    FreeBlockFits(own, k, t);
    FreeSetByPage(own);
    IndexInRange(t, |own|, Size(k));
    assert Inside(t + Size(k - 1), own[t]);
    assert !PairBit(FreeSet(own), k - 1, t);
  }

  lemma SplitStep(free: seq<seq<nat>>, bits: seq<seq<bool>>, own: seq<Block>, k: nat, k0: nat, p0: nat)
    requires Inv(free, bits, own, k0, p0) && 0 < k <= TOP && free[k] != [] && Pending(k0, p0, k, free[k][0])
    ensures var t := free[k][0];
      && (k < TOP ==> HasBit(bits, k + 1, t))
      && Inv(SplitLists(free, k), Toggle(bits, k, t), Halve(own, k, t), k - 1, t)
  {
    var t, b0 := free[k][0], FreeSet(own);
    ListsRemoveHead(free, b0, k);
    SplitBitClear(bits, own, k, t);
    SplitOwners(own, k, t);
    SplitListsMatch(free, b0, k);
    SplitBitsMatch(bits, |own|, b0, k, t);
    SplitPairs(b0, k0, p0, k, t);
  }

  /** The assertion checked before a split holds, and splitting frees and takes no page. */
  lemma SplitFacts(bits: seq<seq<bool>>, own: seq<Block>, k: nat, t: nat)
    requires 0 < k <= TOP && Partition(own) && BitsMatch(bits, |own|, FreeSet(own)) && (k, t) in FreeSet(own)
    ensures HasBit(bits, k, t) && !bits[k][t / Size(k)] && Parent(t + Size(k - 1), k - 1) == t
    ensures FreePages(Halve(own, k, t)) == FreePages(own) && InUseKept(own, Halve(own, k, t))
  {
    SplitBitClear(bits, own, k, t);
    FreeBlockFits(own, k, t);
    HalvePages(own, k, t);
    HalveInUse(own, k, t);
    SecondHalf(t, Size(k - 1));
  }

  /** All there is to say about a split. */
  lemma SplitAll(free: seq<seq<nat>>, bits: seq<seq<bool>>, own: seq<Block>, k: nat, k0: nat, p0: nat, t: nat)
    requires Inv(free, bits, own, k0, p0) && 0 < k <= TOP && free[k] != [] && t == free[k][0] && Pending(k0, p0, k, t)
    ensures HasBit(bits, k, t) && !bits[k][t / Size(k)] && (k < TOP ==> HasBit(bits, k + 1, t))
    ensures Inv(SplitLists(free, k), Toggle(bits, k, t), Halve(own, k, t), k - 1, t)
    ensures SplitLists(free, k)[k - 1] != [] && Pending(k - 1, t, k - 1, SplitLists(free, k)[k - 1][0])
    ensures FreePages(Halve(own, k, t)) == FreePages(own) && InUseKept(own, Halve(own, k, t))
  {
    SplitStep(free, bits, own, k, k0, p0);
    HeadIsFree(free, FreeSet(own), k);
    SplitFacts(bits, own, k, t);
  }

  ghost function HalvedBlocks(b0: Blocks, k: nat, t: nat): Blocks
    requires k > 0
  {
    b0 - {(k, t)} + {(k - 1, t), (k - 1, t + Size(k - 1))}
  }

  lemma SplitOwners(own: seq<Block>, k: nat, t: nat)
    requires 0 < k <= TOP && Partition(own) && (k, t) in FreeSet(own)
    ensures t < |own| && Aligned(t, k)
    ensures Partition(Halve(own, k, t)) && FreeSet(Halve(own, k, t)) == HalvedBlocks(FreeSet(own), k, t)
    ensures FreePages(Halve(own, k, t)) == FreePages(own) && InUseKept(own, Halve(own, k, t))
  {
    FreeBlockFits(own, k, t);
    HalvePartition(own, k, t);
    HalveFree(own, k, t);
    HalvePages(own, k, t);
    HalveInUse(own, k, t);
  }

  lemma HalveInUse(own: seq<Block>, k: nat, t: nat)
    requires 0 < k && Partition(own) && t < |own| && own[t] == Block(k, t, true)
    ensures InUseKept(own, Halve(own, k, t))
  {
    FreePagesOfBlock(own, k, t);
    forall x: nat | x < |own| && !own[x].free
      ensures Halve(own, k, t)[x] == own[x]
    {
      HalveAt(own, k, t, x);
    }
  }

  lemma SplitBitsMatch(bits: seq<seq<bool>>, n: nat, b0: Blocks, k: nat, t: nat)
    requires BitsMatch(bits, n, b0) && 0 < k <= TOP && t < n && Aligned(t, k) && (k, t) in b0
    requires (k - 1, t) !in b0 && (k - 1, t + Size(k - 1)) !in b0
    ensures k < TOP ==> HasBit(bits, k + 1, t)
    ensures BitsMatch(Toggle(bits, k, t), n, HalvedBlocks(b0, k, t))
  {
    ToggleMatches(bits, n, b0, b0 - {(k, t)}, k, t);
    BitsBoth(Toggle(bits, k, t), n, b0 - {(k, t)}, HalvedBlocks(b0, k, t), k - 1, t);
  }

  lemma SplitPairs(b0: Blocks, k0: nat, p0: nat, k: nat, t: nat)
    requires NoBuddies(b0, k0, p0) && 0 < k && Pending(k0, p0, k, t) && Aligned(t, k)
    ensures NoBuddies(HalvedBlocks(b0, k, t), k - 1, t)
  {
    PairBroken(b0, k0, p0, k, t);
    PairMade(b0 - {(k, t)}, k - 1, t);
  }

  lemma SplitListsMatch(free: seq<seq<nat>>, b0: Blocks, k: nat)
    requires ListsMatch(free, b0) && 0 < k <= TOP && free[k] != []
    requires var t := free[k][0]; (k - 1, t) !in b0 && (k - 1, t + Size(k - 1)) !in b0
    ensures ListsMatch(SplitLists(free, k), HalvedBlocks(b0, k, free[k][0]))
  {
    var t := free[k][0];
    ListsRemoveHead(free, b0, k);
    ListsInsertPair(RemoveHead(free, k), b0 - {(k, t)}, k - 1, t, t + Size(k - 1));
  }

  lemma ListsInsertPair(free: seq<seq<nat>>, b: Blocks, k: nat, p: nat, q: nat)
    requires ListsMatch(free, b) && k <= TOP && (k, p) !in b && (k, q) !in b && p != q
    ensures ListsMatch(InsertHead(InsertHead(free, k, p), k, q), b + {(k, p), (k, q)})
  {
    ListsInsert(free, b, k, p);
    var b1 := b + {(k, p)};
    ListsInsert(InsertHead(free, k, p), b1, k, q);
    assert b1 + {(k, q)} == b + {(k, p), (k, q)};
  }

  /** Adding a block can only complete its own pair. */
  lemma PairCompleted(blocks: Blocks, k: nat, t: nat)
    requires NoBuddies(blocks, TOP, 0) && Aligned(t, k)
    ensures NoBuddies(blocks + {(k, t)}, k, Parent(t, k))
  {
    Halves(t, k);
    forall j: nat, p: nat | j < TOP && Aligned(p, j + 1) && BothFree(blocks + {(k, t)}, j, p)
      ensures j == k && p == Parent(t, k)
    {
      if p != Parent(t, k) && j == k {
        OtherPair(t, p, k);
      }
      assert (j == k && p == Parent(t, k)) || BothFree(blocks, j, p);
    }
  }

  /** Adding both halves of a block completes just that pair. */
  lemma PairMade(blocks: Blocks, k: nat, p: nat)
    requires NoBuddies(blocks, TOP, 0) && Aligned(p, k + 1)
    ensures NoBuddies(blocks + {(k, p), (k, p + Size(k))}, k, p)
  {
    SecondHalf(p, Size(k));
    var now := blocks + {(k, p), (k, p + Size(k))};
    forall j: nat, q: nat | j < TOP && Aligned(q, j + 1) && BothFree(now, j, q)
      ensures j == k && q == p
    {
      SecondHalf(q, Size(j));
      assert (j == k && q == p) || BothFree(blocks, j, q);
    }
  }

  // ---------------------------------------------------------------------
  // Giving a block back
  // ---------------------------------------------------------------------

  lemma GiveStep(free: seq<seq<nat>>, bits: seq<seq<bool>>, own: seq<Block>, k: nat, t: nat)
    requires Steady(free, bits, own) && t < |own| && own[t] == Block(k, t, false)
    ensures k <= TOP && (k < TOP ==> HasBit(bits, k + 1, t))
    ensures Inv(InsertHead(free, k, t), Toggle(bits, k, t), Paint(own, Block(k, t, true)), k, Parent(t, k))
    ensures FreePages(own) !! Run(t, k)
    ensures FreePages(Paint(own, Block(k, t, true))) == FreePages(own) + Run(t, k)
    ensures (k, t) in FreeSet(Paint(own, Block(k, t, true)))
  {
    assert Fits(own[t], |own|);
    FreeSetByPage(own);
    PaintBlock(own, k, t, true);
    ListsInsert(free, FreeSet(own), k, t);
    ToggleMatches(bits, |own|, FreeSet(own), FreeSet(own) + {(k, t)}, k, t);
    PairCompleted(FreeSet(own), k, t);
  }

  ghost function JoinLists(free: seq<seq<nat>>, k: nat, t: nat, buddy: nat): seq<seq<nat>>
    requires k + 1 < |free| && t in free[k] && buddy in Without(free[k], t)
  {
    var f1 := free[k := Without(free[k], t)];
    var f2 := f1[k := Without(f1[k], buddy)];
    InsertHead(f2, k + 1, if t < buddy then t else buddy)
  }

  /** A clear bit means that the buddy of a free block is free, so it really is on the list. */
  lemma ClearBitMeansBuddy(bits: seq<seq<bool>>, own: seq<Block>, k: nat, t: nat)
    requires k < TOP && Partition(own) && BitsMatch(bits, |own|, FreeSet(own)) && (k, t) in FreeSet(own)
    ensures HasBit(bits, k + 1, t) && Aligned(t, k)
    ensures !bits[k + 1][t / Size(k + 1)] <==> (k, BuddyOf(t, k)) in FreeSet(own)
  {
    FreeBlockFits(own, k, t);
    PairOf(t, k, BuddyOf(t, k), Parent(t, k));
    ParentIndex(t, k);
    BitIsPair(bits, |own|, FreeSet(own), k, Parent(t, k));
  }

  lemma BitIsPair(bits: seq<seq<bool>>, n: nat, blocks: Blocks, k: nat, p: nat)
    requires BitsMatch(bits, n, blocks) && k < TOP && p < n && Aligned(p, k + 1)
    ensures HasBit(bits, k + 1, p) && bits[k + 1][p / Size(k + 1)] == PairBit(blocks, k, p)
  {
    IndexInRange(p, n, Size(k + 1));
  }

  /** A block and its buddy are the halves of the next larger block. */
  lemma PairOf(t: nat, k: nat, buddy: nat, q: nat)
    requires Aligned(t, k) && buddy == BuddyOf(t, k) && q == Parent(t, k)
    ensures Aligned(q, k + 1) && q <= t && q == if t < buddy then t else buddy
    ensures (t == q && buddy == q + Size(k)) || (buddy == q && t == q + Size(k))
  {
    Halves(t, k);
  }

  lemma JoinListsMatch(free: seq<seq<nat>>, b0: Blocks, k: nat, t: nat, buddy: nat)
    requires ListsMatch(free, b0) && k < TOP && (k, t) in b0 && (k, buddy) in b0 && t != buddy
    requires (k + 1, if t < buddy then t else buddy) !in b0
    ensures t in free[k] && buddy in Without(free[k], t)
    ensures ListsMatch(JoinLists(free, k, t, buddy),
      b0 - {(k, t), (k, buddy)} + {(k + 1, if t < buddy then t else buddy)})
  {
    ListsRemove(free, b0, k, t);
    var f1 := free[k := Without(free[k], t)];
    ListsRemove(f1, b0 - {(k, t)}, k, buddy);
    var f2 := f1[k := Without(f1[k], buddy)];
    var b2 := b0 - {(k, t)} - {(k, buddy)};
    ListsInsert(f2, b2, k + 1, if t < buddy then t else buddy);
    assert b2 == b0 - {(k, t), (k, buddy)};
  }

  lemma JoinStep(free: seq<seq<nat>>, bits: seq<seq<bool>>, own: seq<Block>, k: nat, t: nat, buddy: nat, q: nat)
    requires k < TOP && Aligned(t, k) && buddy == BuddyOf(t, k) && q == Parent(t, k)
    requires Inv(free, bits, own, k, q) && (k, t) in FreeSet(own) && (k, buddy) in FreeSet(own)
    ensures q == (if t < buddy then t else buddy) && t in free[k] && buddy in Without(free[k], t)
    ensures k + 1 < TOP ==> HasBit(bits, k + 2, q)
    ensures Inv(JoinLists(free, k, t, buddy), Toggle(bits, k + 1, q), Paint(own, Block(k + 1, q, true)), k + 1,
      Parent(q, k + 1))
  {
    var b0 := FreeSet(own);
    PairOf(t, k, buddy, q);
    assert {(k, t), (k, buddy)} == {(k, q), (k, q + Size(k))};
    JoinOwners(own, k, q);
    JoinListsMatch(free, b0, k, t, buddy);
    JoinBitsMatch(bits, |own|, b0, k, q);
    JoinPairs(b0, k, q);
  }

  lemma JoinFacts(own: seq<Block>, k: nat, t: nat)
    requires k < TOP && Partition(own) && (k, t) in FreeSet(own)
    requires Aligned(t, k) && (k, BuddyOf(t, k)) in FreeSet(own)
    ensures var q := Parent(t, k);
      && FreePages(Paint(own, Block(k + 1, q, true))) == FreePages(own)
      && InUseKept(own, Paint(own, Block(k + 1, q, true)))
      && (k + 1, q) in FreeSet(Paint(own, Block(k + 1, q, true)))
  {
    Halves(t, k);
    JoinOwners(own, k, Parent(t, k));
  }

  ghost function JoinedBlocks(b0: Blocks, k: nat, q: nat): Blocks {
    b0 - {(k, q), (k, q + Size(k))} + {(k + 1, q)}
  }

  lemma JoinOwners(own: seq<Block>, k: nat, q: nat)
    requires k < TOP && Partition(own) && Aligned(q, k + 1)
    requires (k, q) in FreeSet(own) && (k, q + Size(k)) in FreeSet(own)
    ensures var now := Paint(own, Block(k + 1, q, true));
      Partition(now) && FreeSet(now) == JoinedBlocks(FreeSet(own), k, q) && FreePages(now) == FreePages(own)
        && InUseKept(own, now)
    ensures (k + 1, q) !in FreeSet(own) && q < |own|
  {
    FreeBlockFits(own, k, q);
    FreeBlockFits(own, k, q + Size(k));
    FreeSetByPage(own);
    FreePagesOfBlock(own, k, q);
    FreePagesOfBlock(own, k, q + Size(k));
    JoinPartition(own, k, q);
    JoinFree(own, k, q);
  }

  lemma JoinBitsMatch(bits: seq<seq<bool>>, n: nat, b0: Blocks, k: nat, q: nat)
    requires BitsMatch(bits, n, b0) && k < TOP && q < n && Aligned(q, k + 1)
    requires (k, q) in b0 && (k, q + Size(k)) in b0 && (k + 1, q) !in b0
    ensures k + 1 < TOP ==> HasBit(bits, k + 2, q)
    ensures BitsMatch(Toggle(bits, k + 1, q), n, JoinedBlocks(b0, k, q))
  {
    var b1 := b0 - {(k, q), (k, q + Size(k))};
    BitsBoth(bits, n, b0, b1, k, q);
    ToggleMatches(bits, n, b1, b1 + {(k + 1, q)}, k + 1, q);
  }

  lemma JoinPairs(b0: Blocks, k: nat, q: nat)
    requires NoBuddies(b0, k, q) && Aligned(q, k + 1)
    ensures NoBuddies(JoinedBlocks(b0, k, q), k + 1, Parent(q, k + 1))
  {
    var b1 := b0 - {(k, q), (k, q + Size(k))};
    assert forall j: nat, p: nat :: BothFree(b1, j, p) ==> BothFree(b0, j, p);
    PairCompleted(b1, k + 1, q);
  }

  /** At the top order, or when the buddy is taken, the invariant is whole again. */
  lemma JoinStop(free: seq<seq<nat>>, bits: seq<seq<bool>>, own: seq<Block>, k: nat, t: nat)
    requires Inv(free, bits, own, k, Parent(t, k)) && (k, t) in FreeSet(own)
    requires k == TOP || (k < TOP && Aligned(t, k) && (k, BuddyOf(t, k)) !in FreeSet(own))
    ensures Steady(free, bits, own)
  {
    if k < TOP {
      Halves(t, k);
      PairNotBoth(FreeSet(own), k, Parent(t, k));
    }
  }

  lemma PairNotBoth(blocks: Blocks, k: nat, p: nat)
    requires NoBuddies(blocks, k, p) && ((k, p) !in blocks || (k, p + Size(k)) !in blocks)
    ensures NoBuddies(blocks, TOP, 0)
  {
  }
}
