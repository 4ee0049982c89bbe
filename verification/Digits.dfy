/** Big-endian numbers in base 2^16, the representation used by the 64-bit division routine. */
module Digits {
  import opened Common

  const B := 65536

  type u64 = x: int | 0 <= x < 0x1_0000_0000_0000_0000
  type i64 = x: int | -0x8000_0000_0000_0000 <= x < 0x8000_0000_0000_0000

  /** The wrapping operators of 32-bit unsigned arithmetic. */
  function Sub32(a: int, b: int): u32 { (a - b) % WORD }
  function Mul32(a: int, b: int): u32 { (a * b) % WORD }
  function Add32(a: int, b: int): u32 { (a + b) % WORD }

  function HiHalf(x: u32): u32 { x / B }
  function LoHalf(x: u32): u32 { x % B }

  /** `(a << 16) | b`; the caller shows that the two halves do not overlap. */
  function Combine(a: u32, b: u32): u32
    requires a < B && b < B
  {
    a * B + b
  }

  function Pow(k: nat): (p: int)
    ensures p > 0
  {
    if k == 0 then 1 else B * Pow(k - 1)
  }

  ghost predicate AllDigits(s: seq<int>) {
    forall i :: 0 <= i < |s| ==> 0 <= s[i] < B
  }

  ghost function Val(s: seq<int>): int {
    if s == [] then 0 else Val(s[..|s| - 1]) * B + s[|s| - 1]
  }

  lemma {:induction false} ValBound(s: seq<int>)
    requires AllDigits(s)
    ensures 0 <= Val(s) < Pow(|s|)
  {
    if s != [] {
      ValBound(s[..|s| - 1]);
      assert Val(s[..|s| - 1]) + 1 <= Pow(|s| - 1);
      assert (Val(s[..|s| - 1]) + 1) * B <= Pow(|s| - 1) * B;
    }
  }

  lemma {:induction false} ValConcat(s: seq<int>, t: seq<int>)
    ensures Val(s + t) == Val(s) * Pow(|t|) + Val(t)
  {
    if t == [] {
      assert s + t == s;
    } else {
      var t' := t[..|t| - 1];
      assert (s + t)[..|s + t| - 1] == s + t';
      ValConcat(s, t');
      var a, p := Val(s), Pow(|t'|);
      assert (a * p + Val(t')) * B == a * (B * p) + Val(t') * B;
    }
  }

  /** Splitting off the leading digit. */
  lemma ValHead(s: seq<int>)
    requires s != []
    ensures Val(s) == s[0] * Pow(|s| - 1) + Val(s[1..])
  {
    assert s == [s[0]] + s[1..];
    ValConcat([s[0]], s[1..]);
    ValOne(s[0]);
  }

  lemma ValOne(d: int)
    ensures Val([d]) == d
  {
    assert [d][..0] == [];
  }

  lemma ValSplit(s: seq<int>, k: nat)
    requires k <= |s|
    ensures Val(s) == Val(s[..k]) * Pow(|s| - k) + Val(s[k..])
  {
    assert s == s[..k] + s[k..];
    ValConcat(s[..k], s[k..]);
  }

  lemma {:induction false} ValZeros(s: seq<int>)
    requires forall i :: 0 <= i < |s| ==> s[i] == 0
    ensures Val(s) == 0
  {
    if s != [] {
      ValZeros(s[..|s| - 1]);
    }
  }

  /** Leading zeros do not count. */
  lemma ValSkipZeros(s: seq<int>, k: nat)
    requires k <= |s|
    requires forall i :: 0 <= i < k ==> s[i] == 0
    ensures Val(s) == Val(s[k..])
  {
    ValSplit(s, k);
    ValZeros(s[..k]);
  }

  lemma {:induction false} PowAdd(a: nat, b: nat)
    ensures Pow(a + b) == Pow(a) * Pow(b)
  {
    if a == 0 {
    } else {
      PowAdd(a - 1, b);
      var x, y := Pow(a - 1), Pow(b);
      assert B * (x * y) == (B * x) * y;
    }
  }

  function Pow2(k: nat): (p: int)
    ensures p > 0
  {
    if k == 0 then 1 else 2 * Pow2(k - 1)
  }

  lemma {:induction false} Pow2Add(a: nat, b: nat)
    ensures Pow2(a + b) == Pow2(a) * Pow2(b)
  {
    if a == 0 {
    } else {
      Pow2Add(a - 1, b);
      var x, y := Pow2(a - 1), Pow2(b);
      assert 2 * (x * y) == (2 * x) * y;
    }
  }

  lemma Pow2At16()
    ensures Pow2(16) == B
  {
    assert Pow2(4) == 16;
    Pow2Add(4, 4);
    Pow2Add(8, 8);
  }

  /** `x >> k`, and the `k` bits it discards. */
  function ShiftRight(x: nat, k: nat): nat { if k == 0 then x else ShiftRight(x / 2, k - 1) }
  function LowBits(x: nat, k: nat): nat { if k == 0 then 0 else x % 2 + 2 * LowBits(x / 2, k - 1) }

  lemma {:induction false} ShiftRightSplits(x: nat, k: nat)
    ensures x == ShiftRight(x, k) * Pow2(k) + LowBits(x, k)
    ensures LowBits(x, k) < Pow2(k)
  {
    if k > 0 {
      ShiftRightSplits(x / 2, k - 1);
      HalfStep(x, x / 2, ShiftRight(x / 2, k - 1), Pow2(k - 1), LowBits(x / 2, k - 1));
    }
  }

  lemma HalfStep(x: int, y: int, h: int, p: int, l: int)
    requires x == 2 * y + x % 2 && y == h * p + l
    ensures x == h * (2 * p) + (x % 2 + 2 * l)
  {
    assert h * (2 * p) == 2 * (h * p);
  }

  lemma {:induction false} LowBitsOfMultiple(h: nat, k: nat)
    ensures h * Pow2(k) >= 0 && LowBits(h * Pow2(k), k) == 0
  {
    if k > 0 {
      var p := Pow2(k - 1);
      assert h * (2 * p) == 2 * (h * p);
      LowBitsOfMultiple(h, k - 1);
    }
  }

  /** The shift amounts used by the division multiply to the digit base. */
  lemma Pow2Complement(d: nat)
    requires d <= 16
    ensures Pow2(d) * Pow2(16 - d) == B
  {
    Pow2Add(d, 16 - d);
    Pow2At16();
  }
}
