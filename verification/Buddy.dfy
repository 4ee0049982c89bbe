/** The invariant of the buddy page allocator, on values: who owns each page of a group. */
module Buddy {
  import opened Arith

  /** The largest block is of order `TOP`; there are `TOP + 1` block sizes. */
  const TOP := 7

  /** Pages in a block of order `k`. */
  function Size(k: nat): (s: nat)
    ensures s > 0
  {
    if k == 0 then 1 else 2 * Size(k - 1)
  }

  /** A run of pages: a free block, or one handed out to a caller. */
  datatype Block = Block(order: nat, page: nat, free: bool)

  predicate Aligned(p: nat, k: nat) { p % Size(k) == 0 }

  /** The start of the block of order `k + 1` that contains the order-`k` block at `p`. */
  function Parent(p: nat, k: nat): nat {
    ModRange(p, Size(k + 1));
    p - p % Size(k + 1)
  }

  /** The other half of that block. */
  function BuddyOf(p: nat, k: nat): nat
    requires Aligned(p, k)
  {
    Halves(p, k);
    if p / Size(k) % 2 == 1 then p - Size(k) else p + Size(k)
  }

  lemma ModRange(p: nat, s: nat)
    requires s > 0
    ensures 0 <= p % s <= p && p % s < s && p == p / s * s + p % s && 0 <= p / s
  {
    MulComm(s, p / s);
    if p / s < 0 {
      MulLe(p / s, -1, s);
      assert false;
    }
    MulLe(0, p / s, s);
  }

  lemma HalfMod(p: nat, s: nat)
    requires s > 0 && p % s == 0
    ensures p % (2 * s) == p / s % 2 * s
  {
    ModRange(p, s);
    var q := p / s;
    var h, b := q / 2, q % 2;
    HalfSplit(q, h, b, s);
    DivUnique(p, 2 * s, h, b * s);
  }

  lemma HalfSplit(q: int, h: int, b: int, s: int)
    requires q == 2 * h + b && s > 0
    ensures q * s == h * (2 * s) + b * s && (b == 0 || b == 1 ==> 0 <= b * s < 2 * s)
  {
    Distribute(2 * h, b, s);
    MulAssoc(h, 2, s);
  }

  lemma SubMultiple(p: nat, s: nat, c: int)
    requires s > 0 && p % s == 0 && 0 <= p + c * s
    ensures (p + c * s) % s == 0
  {
    ModRange(p, s);
    Distribute(p / s, c, s);
    DivUnique(p + c * s, s, p / s + c, 0);
  }

  /** An aligned block is the left or the right half of its parent. */
  lemma Halves(p: nat, k: nat)
    requires Aligned(p, k)
    ensures Aligned(Parent(p, k), k + 1) && Aligned(Parent(p, k), k) && Aligned(Parent(p, k) + Size(k), k)
    ensures p == if p / Size(k) % 2 == 1 then Parent(p, k) + Size(k) else Parent(p, k)
  {
    var s := Size(k);
    HalfMod(p, s);
    ModRange(p, 2 * s);
    ModRange(p, s);
    SubMultiple(p, s, -(p / s % 2));
    var q := p - p % (2 * s);
    DivUnique(q, 2 * s, p / (2 * s), 0);
    SubMultiple(q, s, 1);
  }

  lemma SecondHalf(q: nat, s: nat)
    requires s > 0 && q % (2 * s) == 0
    ensures (q + s) % (2 * s) == s && q % s == 0 && (q + s) % s == 0
    ensures q / s % 2 == 0 && (q + s) / s % 2 == 1
  {
    ModRange(q, 2 * s);
    var h := q / (2 * s);
    DivUnique(q + s, 2 * s, h, s);
    assert q == 2 * h * s by { MulAssoc(h, 2, s); MulComm(2, h); }
    DivUnique(q, s, 2 * h, 0);
    Distribute(2 * h, 1, s);
    DivUnique(q + s, s, 2 * h + 1, 0);
  }

  // ---------------------------------------------------------------------
  // Who owns each page
  // ---------------------------------------------------------------------

  ghost predicate Fits(b: Block, n: nat) {
    b.order <= TOP && Aligned(b.page, b.order) && b.page + Size(b.order) <= n
  }

  ghost predicate Inside(x: int, b: Block) { b.page <= x < b.page + Size(b.order) }

  /** Every page lies in exactly one block, and blocks are aligned runs. */
  ghost predicate Partition(own: seq<Block>) {
    && (forall x :: 0 <= x < |own| ==> Fits(own[x], |own|) && Inside(x, own[x]))
    && (forall x, y :: 0 <= x < |own| && 0 <= y < |own| && Inside(y, own[x]) ==> own[y] == own[x])
  }

  /** The free blocks, as pairs of order and first page. */
  ghost function FreeSet(own: seq<Block>): set<(nat, nat)> {
    set x: nat | x < |own| && own[x].free && own[x].page == x :: (own[x].order, x)
  }

  /** The free pages. */
  ghost function FreePages(own: seq<Block>): set<nat> { set x: nat | x < |own| && own[x].free }

  ghost function Run(p: nat, k: nat): set<nat> {
    set x: nat | x < p + Size(k) && Inside(x, Block(k, p, true))
  }

  /** The pages of one block get a new owner. */
  ghost function Paint(own: seq<Block>, b: Block): (r: seq<Block>)
    ensures |r| == |own|
  {
    seq(|own|, x requires 0 <= x < |own| => if Inside(x, b) then b else own[x])
  }

  /** A block changes hands as a whole. */
  lemma PaintBlock(own: seq<Block>, k: nat, p: nat, free: bool)
    requires Partition(own) && p < |own| && own[p] == Block(k, p, !free)
    ensures Partition(Paint(own, Block(k, p, free)))
    ensures FreeSet(Paint(own, Block(k, p, free)))
         == if free then FreeSet(own) + {(k, p)} else FreeSet(own) - {(k, p)}
    ensures FreePages(Paint(own, Block(k, p, free)))
         == if free then FreePages(own) + Run(p, k) else FreePages(own) - Run(p, k)
    ensures free ==> FreePages(own) !! Run(p, k)
    ensures !free ==> Run(p, k) <= FreePages(own)
  {
    var b := Block(k, p, free);
    var now := Paint(own, b);
    assert forall x :: 0 <= x < |own| && Inside(x, b) ==> own[x] == own[p] by {
      assert forall x :: Inside(x, b) ==> Inside(x, own[p]);
    }
    FreeSetByPage(now);
    FreeSetByPage(own);
  }

  lemma FreeSetByPage(own: seq<Block>)
    ensures forall k: nat, p: nat :: (k, p) in FreeSet(own) <==> p < |own| && own[p] == Block(k, p, true)
  {
  }

  /** Blocks other than the one at `p` keep clear of it. */
  lemma Disjoint(own: seq<Block>, p: nat)
    requires Partition(own) && p < |own|
    ensures forall x, y :: 0 <= x < |own| && 0 <= y < |own| && own[x] != own[p] && Inside(y, own[x]) ==>
      !Inside(y, own[p])
  {
    forall x, y | 0 <= x < |own| && 0 <= y < |own| && own[x] != own[p] && Inside(y, own[x])
      ensures !Inside(y, own[p])
    {
      assert own[y] == own[x];
    }
  }

  ghost function LeftHalf(k: nat, p: nat): Block
    requires k > 0
  {
    Block(k - 1, p, true)
  }

  ghost function RightHalf(k: nat, p: nat): Block
    requires k > 0
  {
    Block(k - 1, p + Size(k - 1), true)
  }

  /** One free block becomes its two halves. */
  ghost function Halve(own: seq<Block>, k: nat, p: nat): (r: seq<Block>)
    requires k > 0
    ensures |r| == |own|
  {
    seq(|own|, x requires 0 <= x < |own| =>
      if Inside(x, LeftHalf(k, p)) then LeftHalf(k, p)
      else if Inside(x, RightHalf(k, p)) then RightHalf(k, p)
      else own[x])
  }

  lemma HalvePartition(own: seq<Block>, k: nat, p: nat)
    requires 0 < k && Partition(own) && p < |own| && own[p] == Block(k, p, true)
    ensures Partition(Halve(own, k, p))
  {
    var now := Halve(own, k, p);
    forall x | 0 <= x < |own|
      ensures Fits(now[x], |own|) && Inside(x, now[x])
    {
      HalveFits(own, k, p, x);
    }
    forall x, y | 0 <= x < |own| && 0 <= y < |own| && Inside(y, now[x])
      ensures now[y] == now[x]
    {
      HalveShared(own, k, p, x, y);
    }
  }

  lemma HalveFits(own: seq<Block>, k: nat, p: nat, x: nat)
    requires 0 < k && Partition(own) && p < |own| && own[p] == Block(k, p, true) && x < |own|
    ensures Fits(Halve(own, k, p)[x], |own|) && Inside(x, Halve(own, k, p)[x])
  {
    assert Fits(own[p], |own|) && Fits(own[x], |own|) && Inside(x, own[x]);
    SecondHalf(p, Size(k - 1));
  }

  lemma HalveShared(own: seq<Block>, k: nat, p: nat, x: nat, y: nat)
    requires 0 < k && Partition(own) && p < |own| && own[p] == Block(k, p, true) && x < |own| && y < |own|
    requires Inside(y, Halve(own, k, p)[x])
    ensures Halve(own, k, p)[y] == Halve(own, k, p)[x]
  {
    if !Inside(x, own[p]) {
      Elsewhere(own, p, x, y);
    }
  }

  /** A page outside the block at `p` shares its block with pages outside only. */
  lemma Elsewhere(own: seq<Block>, p: nat, x: nat, y: nat)
    requires Partition(own) && p < |own| && x < |own| && y < |own| && !Inside(x, own[p]) && Inside(y, own[x])
    ensures !Inside(y, own[p]) && own[y] == own[x]
  {
    assert Inside(x, own[x]) && own[y] == own[x];
  }

  lemma HalveFree(own: seq<Block>, k: nat, p: nat)
    requires 0 < k && Partition(own) && p < |own| && own[p] == Block(k, p, true)
    ensures FreeSet(Halve(own, k, p)) == FreeSet(own) - {(k, p)} + {(k - 1, p), (k - 1, p + Size(k - 1))}
  {
    var now := Halve(own, k, p);
    FreeSetByPage(now);
    FreeSetByPage(own);
    forall j: nat, q: nat
      ensures (j, q) in FreeSet(now) <==> (j, q) in FreeSet(own) - {(k, p)} + {(k - 1, p), (k - 1, p + Size(k - 1))}
    {
      HalveFreeAt(own, k, p, j, q);
    }
  }

  lemma HalveFreeAt(own: seq<Block>, k: nat, p: nat, j: nat, q: nat)
    requires 0 < k && Partition(own) && p < |own| && own[p] == Block(k, p, true)
    ensures q < |own| && Halve(own, k, p)[q] == Block(j, q, true) <==>
      || (q < |own| && own[q] == Block(j, q, true) && (j, q) != (k, p))
      || (j == k - 1 && (q == p || q == p + Size(k - 1)))
  {
    assert Fits(own[p], |own|);
    if q < |own| {
      HalveAt(own, k, p, q);
      assert Inside(q, own[q]) && (Inside(q, own[p]) ==> own[q] == own[p]);
    }
  }

  lemma HalveAt(own: seq<Block>, k: nat, p: nat, q: nat)
    requires 0 < k && q < |own|
    ensures Halve(own, k, p)[q] ==
      if !(p <= q < p + Size(k)) then own[q] else if q < p + Size(k - 1) then LeftHalf(k, p) else RightHalf(k, p)
  {
  }

  lemma HalvePages(own: seq<Block>, k: nat, p: nat)
    requires 0 < k && Partition(own) && p < |own| && own[p] == Block(k, p, true)
    ensures FreePages(Halve(own, k, p)) == FreePages(own)
  {
    assert forall x :: 0 <= x < |own| && Inside(x, own[p]) ==> own[x] == own[p];
  }

  /** Two free buddies become one block. */
  lemma JoinPartition(own: seq<Block>, k: nat, p: nat)
    requires k < TOP && Partition(own) && Aligned(p, k + 1)
    requires p + Size(k) < |own| && own[p] == Block(k, p, true) && own[p + Size(k)] == Block(k, p + Size(k), true)
    ensures Partition(Paint(own, Block(k + 1, p, true)))
  {
    Disjoint(own, p);
    Disjoint(own, p + Size(k));
    var b := Block(k + 1, p, true);
    var now := Paint(own, b);
    assert forall x :: Inside(x, b) <==> Inside(x, own[p]) || Inside(x, own[p + Size(k)]);
    forall x, y | 0 <= x < |own| && 0 <= y < |own| && Inside(y, now[x])
      ensures now[y] == now[x]
    {
      if !Inside(x, b) {
        assert own[x] != own[p] && own[x] != own[p + Size(k)];
        assert own[y] == own[x];
      }
    }
  }

  lemma JoinFree(own: seq<Block>, k: nat, p: nat)
    requires k < TOP && Partition(own) && Aligned(p, k + 1)
    requires p + Size(k) < |own| && own[p] == Block(k, p, true) && own[p + Size(k)] == Block(k, p + Size(k), true)
    ensures FreeSet(Paint(own, Block(k + 1, p, true))) == FreeSet(own) - {(k, p), (k, p + Size(k))} + {(k + 1, p)}
    ensures FreePages(Paint(own, Block(k + 1, p, true))) == FreePages(own)
  {
    var now := Paint(own, Block(k + 1, p, true));
    FreeSetByPage(now);
    FreeSetByPage(own);
    assert forall x :: 0 <= x < |own| && Inside(x, own[p]) ==> own[x] == own[p];
    assert forall x :: 0 <= x < |own| && Inside(x, own[p + Size(k)]) ==> own[x] == own[p + Size(k)];
  }
}
