/** The room a group of pages takes for its own record and buddy bit maps, at the end of its range. */
module PageMaps {
  import opened Arith
  import opened Buddy
  import opened BuddyLists

  const PAGE_BYTES := 4096

  /** `sizeof(struct pagegroup)`: two addresses, eight list heads, eight map pointers and a link. */
  const GROUP_BYTES := 112

  /** Bytes of the bit map of order `k`: one bit for each block of that order in `n` pages. */
  function OneMap(n: nat, k: nat): (b: nat)
    ensures n / Size(k) <= 8 * b < n / Size(k) + 8
  {
    ModRange(n, Size(k));
    var count := n / Size(k);
    if count == 0 then 0 else (count - 1) / 8 + 1
  }

  /** Bytes of the maps of orders 1 to `k`. */
  function AllMaps(n: nat, k: nat): nat {
    if k == 0 then 0 else AllMaps(n, k - 1) + OneMap(n, k)
  }

  lemma {:induction false} MapsAreSmall(n: nat, k: nat)
    ensures 8 * AllMaps(n, k) <= k * (n + 8)
  {
    if k > 0 {
      MapsAreSmall(n, k - 1);
      ModRange(n, Size(k));
      MulLe(1, Size(k), n / Size(k));
      MulComm(Size(k), n / Size(k));
      Distribute(k - 1, 1, n + 8);
    }
  }

  /** The record and the maps take as few whole pages of the `n` as will hold them, and leave `m`. */
  ghost predicate Fitting(n: nat, m: nat) {
    m < n && (n - m - 1) * PAGE_BYTES < GROUP_BYTES + AllMaps(n, TOP) <= (n - m) * PAGE_BYTES
  }

  ghost function Leaves(n: nat): iset<nat> { iset m: nat | Fitting(n, m) }

  /** The pages left of a range of `n`. */
  method PagesLeft(n: nat) returns (m: nat)
    requires n > 0
    ensures m < n && m in Leaves(n)
  {
    var end := n * PAGE_BYTES - GROUP_BYTES;
    var order := 1;
    while order <= TOP
      invariant 1 <= order <= TOP + 1 && end == n * PAGE_BYTES - GROUP_BYTES - AllMaps(n, order - 1)
    {
      end := end - OneMap(n, order);
      order := order + 1;
    }
    MapsAreSmall(n, TOP);
    m := end / PAGE_BYTES;
  }

  lemma MultipleOfPart(m: nat, s: nat, t: nat)
    requires s > 0 && t > 0 && m % t == 0 && t % s == 0
    ensures m % s == 0 && m / s * s == m
  {
    ModRange(m, t);
    ModRange(t, s);
    MulAssoc(m / t, t / s, s);
    DivUnique(m, s, m / t * (t / s), 0);
  }

  /** Map `k` of a range of `n` pages has a bit for page `p`. */
  ghost predicate InMap(n: nat, k: nat, p: nat) { p / Size(k) < 8 * OneMap(n, k) }

  ghost predicate Covered(n: nat, m: nat, k: nat) { forall p: nat | p < m :: InMap(n, k, p) }

  /** The pages left reach into the last, incomplete block of the range, and the map ends before it. */
  ghost predicate Short(n: nat, m: nat, k: nat) { n - m < n % Size(k) && n / Size(k) % 8 == 0 }

  lemma MapCovers(n: nat, m: nat, k: nat)
    requires 0 < m <= n
    ensures Covered(n, m, k) <==> !Short(n, m, k)
  {
    var s := Size(k);
    LastIndex(n, m, s);
    if Short(n, m, k) {
      assert !InMap(n, k, m - 1);
    } else {
      forall p: nat | p < m
        ensures InMap(n, k, p)
      {
        IndexInRange(p, m, s);
        DivMonotone(p, m - 1, s);
      }
    }
  }

  /** The last page left lies in the block behind the last whole one, or in a whole one. */
  lemma LastIndex(n: nat, m: nat, s: nat)
    requires 0 < m <= n && s > 0
    ensures if n - m < n % s then (m - 1) / s == n / s else (m - 1) / s < n / s
  {
    ModRange(n, s);
    ModRange(m - 1, s);
    var q, r := n / s, n % s;
    if n - m < r {
      DivUnique(m - 1, s, q, r - (n - m) - 1);
    } else if q <= (m - 1) / s {
      MulLe(q, (m - 1) / s, s);
    }
  }

  lemma DivMonotone(p: nat, q: nat, s: nat)
    requires s > 0 && p <= q
    ensures p / s <= q / s
  {
    ModRange(p, s);
    DivBelow(p / s, q, s);
  }

  /** Whole largest blocks always have their bits. */
  lemma WholeBlocksCovered(n: nat, m: nat, k: nat)
    requires m <= n && m % Size(TOP) == 0 && k <= TOP
    ensures Covered(n, m, k)
  {
    SizeMultiple(k, TOP);
    MultipleOfPart(m, Size(k), Size(TOP));
    forall p: nat | p < m
      ensures InMap(n, k, p)
    {
      BelowMultiple(p, m, n, Size(k));
    }
  }

  lemma BelowMultiple(p: nat, m: nat, n: nat, s: nat)
    requires s > 0 && p < m <= n && m / s * s == m
    ensures p / s < n / s
  {
    ModRange(m, s);
    ModRange(p, s);
    DivBelow(m / s, n, s);
    if m / s <= p / s {
      MulLe(m / s, p / s, s);
      assert false;
    }
  }

  lemma DivBelow(c: nat, n: nat, s: nat)
    requires s > 0 && c * s <= n
    ensures c <= n / s
  {
    ModRange(n, s);
    if n / s + 1 <= c {
      MulLe(n / s + 1, c, s);
      Distribute(n / s, 1, s);
      assert false;
    }
  }

  /** Of 35 pages 34 are left, and page 32, the start of a free block of order 1, has no bit of order 2. */
  lemma MapTooShort()
    ensures Fitting(35, 34) && Short(35, 34, 2) && !InMap(35, 2, 32)
  {
    MapsAreSmall(35, TOP);
    assert Size(2) == 4;
  }

  /** The cleared maps of a range of `n` pages. */
  function ClearMaps(n: nat): (bits: seq<seq<bool>>)
    ensures |bits| == TOP + 1 && forall k: nat :: k <= TOP ==> |bits[k]| == 8 * OneMap(n, k)
    ensures forall k, i :: 0 <= k <= TOP && 0 <= i < |bits[k]| ==> !bits[k][i]
  {
    seq(TOP + 1, k requires 0 <= k => seq(8 * OneMap(n, k), _ => false))
  }

  lemma ClearBit(n: nat, k: nat, p: nat)
    requires k <= TOP
    ensures HasBit(ClearMaps(n), k, p) <==> InMap(n, k, p)
  {
    ModRange(p, Size(k));
  }

  lemma ClearMapsCover(n: nat, m: nat)
    ensures Covers(ClearMaps(n), m) <==> forall k: nat | 0 < k <= TOP :: Covered(n, m, k)
  {
    if forall k: nat | 0 < k <= TOP :: Covered(n, m, k) {
      forall k: nat, p: nat | 0 < k <= TOP && p < m
        ensures HasBit(ClearMaps(n), k, p)
      {
        ClearBit(n, k, p);
        assert Covered(n, m, k) && InMap(n, k, p);
      }
    }
    if Covers(ClearMaps(n), m) {
      forall k: nat, p: nat | 0 < k <= TOP && p < m
        ensures InMap(n, k, p)
      {
        ClearBit(n, k, p);
        assert HasBit(ClearMaps(n), k, p);
      }
    }
  }

  /** The maps have a bit of every order for every page left if and only if none of them is short. */
  lemma MapsCover(n: nat, m: nat)
    requires 0 < m <= n
    ensures Covers(ClearMaps(n), m) <==> forall k: nat | 0 < k <= TOP :: !Short(n, m, k)
  {
    ClearMapsCover(n, m);
    forall k: nat | 0 < k <= TOP
      ensures Covered(n, m, k) <==> !Short(n, m, k)
    {
      MapCovers(n, m, k);
    }
  }
}
