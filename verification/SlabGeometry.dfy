/** How objects lie in a slab, and how large a slab should be. */
module SlabGeometry {
  import opened Arith
  import opened Common

  const PAGE := 4096
  /** Bytes of the control word and its flag behind each object, and of the record behind the last one. */
  const CTL := 8
  const RECORD := 16
  /** Bytes of the red zone at either end of an object. */
  const RED := 4
  const MAX_ORDER := 5
  const ORDERS := 8

  /** `PAGE_SIZE << order` */
  function BlockSize(order: nat): (r: nat)
    ensures r >= PAGE
  {
    if order == 0 then PAGE else 2 * BlockSize(order - 1)
  }

  /** `_slab_size` */
  function SlabSize(objsize: nat, nobjs: nat): nat { nobjs * (objsize + CTL) + RECORD }

  /** `_slab_nobjs` */
  function Capacity(objsize: nat, order: nat): nat { (BlockSize(order) - RECORD) / (objsize + CTL) }

  /** `_slab_waste` */
  function Waste(objsize: nat, order: nat): int { BlockSize(order) - SlabSize(objsize, Capacity(objsize, order)) }

  /** As many objects as fit are put into a block. */
  lemma CapacityIsMost(objsize: nat, order: nat, n: nat)
    ensures SlabSize(objsize, n) <= BlockSize(order) <==> n <= Capacity(objsize, order)
  {
    var d, room := objsize + CTL, BlockSize(order) - RECORD;
    var q := room / d;
    assert q * d + room % d == room && 0 <= room % d < d by { DivRem(room, d); }
    if n <= q {
      MulLe(n, q, d);
    } else {
      MulLe(q + 1, n, d);
      Distribute(q, 1, d);
    }
  }

  lemma DivRem(a: nat, d: nat)
    requires d > 0
    ensures a / d * d + a % d == a && 0 <= a % d < d
  {
    MulComm(d, a / d);
  }

  /** The outcome of the search for an order: the panic, a division by zero, or an order. */
  datatype Choice = NoOrder | DivideFault | Order(order: nat)

  ghost predicate Fits(objsize: nat, order: nat) { SlabSize(objsize, 1) <= BlockSize(order) }

  /** The orders that are tried: the smallest that holds an object, and the larger ones below the limit. */
  ghost predicate Tried(objsize: nat, order: nat) {
    Fits(objsize, order) && (order < MAX_ORDER || forall k: nat | k < order :: !Fits(objsize, k))
  }

  /** The size of one object with its record does not turn negative in the `int` that it is kept in. */
  predicate Sane(objsize: nat) { SlabSize(objsize, 1) < 0x8000_0000 }

  /** Of the orders tried, `order` is the smallest with the least waste. */
  ghost predicate Best(objsize: nat, order: nat) {
    && order < ORDERS && Tried(objsize, order) && Capacity(objsize, order) >= 1
    && forall k: nat | k < ORDERS && Tried(objsize, k) :: NoWorse(objsize, order, k)
  }

  ghost predicate NoWorse(objsize: nat, order: nat, k: nat) {
    Waste(objsize, order) < Waste(objsize, k) || (Waste(objsize, order) == Waste(objsize, k) && order <= k)
  }

  /** What `_slab_waste` computes, given the bytes of an object with its control word. */
  function Waste32(stride: nat, order: nat): int {
    if stride == 0 then 0 else BlockSize(order) - ((BlockSize(order) - RECORD) / stride * stride + RECORD)
  }

  predicate Cheaper(waste: nat -> int, best: nat, k: nat) {
    waste(best) < waste(k) || (waste(best) == waste(k) && best <= k)
  }

  /** Of the smallest order and the larger ones below the limit, none wastes less. */
  ghost predicate Cheapest(waste: nat -> int, min: nat, best: nat) {
    && min <= best && (best == min || best < MAX_ORDER)
    && forall k: nat | min <= k && (k == min || k < MAX_ORDER) :: Cheaper(waste, best, k)
  }

  /** The first order with room for `min` bytes, as the comparison of two `int` values tells. */
  method MinOrder(min: int) returns (order: nat)
    ensures order <= ORDERS && (order < ORDERS ==> min <= BlockSize(order))
    ensures forall k: nat | k < order :: BlockSize(k) < min
  {
    order := 0;
    while order < ORDERS && BlockSize(order) < min
      invariant 0 <= order <= ORDERS && forall k: nat | k < order :: BlockSize(k) < min
    {
      order := order + 1;
    }
  }

  /** From the smallest order on, the first with the least waste. */
  method LeastWaste(waste: nat -> int, min: nat) returns (best: nat)
    ensures Cheapest(waste, min, best)
  {
    var order: nat := min + 1;
    best := min;
    while order < MAX_ORDER
      invariant min <= best < order && (best == min || best < MAX_ORDER) && (order <= MAX_ORDER || order == min + 1)
      invariant forall k: nat | min <= k < order :: Cheaper(waste, best, k)
    {
      ghost var before := best;
      if waste(order) < waste(best) {
        best := order;
      }
      assert forall k: nat | min <= k < order :: Cheaper(waste, before, k) ==> Cheaper(waste, best, k);
      order := order + 1;
    }
  }

  /**
   * `_calc_slab_size`, in 32 bits: the best of the orders tried is chosen, and the panic comes if
   * an object fits no block, provided that its size is sane. For larger sizes there is no panic:
   * the size of a slab seems negative, and one size makes the program divide by zero.
   */
  method ChooseOrder(objsize: u32) returns (r: Choice)
    ensures r.NoOrder? <==> Sane(objsize) && forall k: nat | k < ORDERS :: !Fits(objsize, k)
    ensures r.DivideFault? <==> objsize == WORD - CTL
    ensures r.Order? && Sane(objsize) ==> Best(objsize, r.order)
  {
    var stride: nat := (objsize + CTL) % WORD;
    var size: int := AsInt((stride + RECORD) % WORD);
    var min := MinOrder(size);
    SizeSeen(objsize, stride, size);
    LargestBlock();
    if min == ORDERS {
      return NoOrder;
    }
    if stride == 0 {
      return DivideFault;
    }
    var waste: nat -> int := (k: nat) => Waste32(stride, k);
    var best := LeastWaste(waste, min);
    if Sane(objsize) {
      BestFound(objsize, min, best, waste);
    }
    r := Order(best);
  }

  /** The size that the search goes by is that of one object and the record, or less than one of the record. */
  lemma SizeSeen(objsize: u32, stride: nat, size: int)
    requires stride == (objsize + CTL) % WORD && size == AsInt((stride + RECORD) % WORD)
    ensures if Sane(objsize) then stride == objsize + CTL && size == SlabSize(objsize, 1) else size < PAGE
    ensures stride == 0 <==> objsize == WORD - CTL
  {
  }

  lemma LargestBlock()
    ensures BlockSize(7) == 524288
    ensures forall k: nat | k < ORDERS :: BlockSize(k) <= 524288
  {
    assert BlockSize(2) == 16384;
    assert BlockSize(4) == 4 * BlockSize(2);
    assert BlockSize(7) == 8 * BlockSize(4);
    forall k: nat | k < ORDERS
      ensures BlockSize(k) <= 524288
    {
      BlocksGrow(k, 7);
    }
  }

  /** Objects of 2^31 bytes fit no block, and yet they are not refused. */
  lemma HugeIsNotRefused()
    ensures !Sane(0x8000_0000) && forall k: nat | k < ORDERS :: !Fits(0x8000_0000, k)
  {
    LargestBlock();
  }

  lemma {:induction false} BlocksGrow(j: nat, k: nat)
    requires j <= k
    ensures BlockSize(j) <= BlockSize(k)
  {
    if j < k {
      BlocksGrow(j, k - 1);
    }
  }

  lemma BestFound(objsize: nat, min: nat, best: nat, waste: nat -> int)
    requires min < ORDERS && Fits(objsize, min) && forall k: nat | k < min :: !Fits(objsize, k)
    requires Cheapest(waste, min, best) && forall k: nat :: waste(k) == Waste32(objsize + CTL, k)
    ensures Best(objsize, best)
  {
    LargerFits(objsize, min, best);
    CapacityIsMost(objsize, best, 1);
    forall k: nat | k < ORDERS && Tried(objsize, k)
      ensures NoWorse(objsize, best, k)
    {
      assert min <= k && (k == min || k < MAX_ORDER) && Cheaper(waste, best, k);
      SameWaste(objsize, k);
      SameWaste(objsize, best);
    }
  }

  lemma SameWaste(objsize: nat, k: nat)
    ensures Waste(objsize, k) == Waste32(objsize + CTL, k)
  {
  }

  lemma {:induction false} LargerFits(objsize: nat, small: nat, large: nat)
    requires small <= large && Fits(objsize, small)
    ensures Fits(objsize, large)
    decreases large
  {
    if small < large {
      LargerFits(objsize, small, large - 1);
    }
  }

  // ---------------------------------------------------------------------
  // Addresses
  // ---------------------------------------------------------------------

  /** The `i`-th object of the slab at `a`. */
  function ObjAt(a: nat, stride: nat, i: nat): nat { a + i * stride }

  /** Objects with their control words lie one after the other, and the record behind them, all inside the block. */
  lemma ObjectsFit(objsize: nat, order: nat, a: nat, i: nat)
    requires i < Capacity(objsize, order)
    ensures var d := objsize + CTL;
      a <= ObjAt(a, d, i) && ObjAt(a, d, i) + d <= ObjAt(a, d,
        Capacity(objsize, order)) <= a + BlockSize(order) - RECORD
  {
    var d, n := objsize + CTL, Capacity(objsize, order);
    MulLe(0, i, d);
    MulLe(i + 1, n, d);
    Distribute(i, 1, d);
    CapacityIsMost(objsize, order, n);
  }

  /** Different objects of a slab do not overlap. */
  lemma ObjectsApart(a: nat, d: nat, i: nat, j: nat)
    requires i < j
    ensures ObjAt(a, d, i) + d <= ObjAt(a, d, j)
  {
    MulLe(i + 1, j, d);
    Distribute(i, 1, d);
  }
}
