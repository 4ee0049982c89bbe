/** 64-bit division on 32-bit words: Knuth's Algorithm D in base 2^16 with wrapping arithmetic. */
module Division {
  import opened Arith
  import opened Common
  import opened Digits

  datatype DivResult = DivideByZero | Quotient(q: u64, r: u64)

  ghost predicate DigitsIn(a: array<u32>, lo: nat, hi: nat)
    requires hi <= a.Length
    reads a
  {
    forall k :: lo <= k < hi ==> a[k] < B
  }

  // ---------------------------------------------------------------------
  // Shifting digit strings
  // ---------------------------------------------------------------------

  /** `a | b` where `a` has no bit below position `w` and `b` none from `w` on. */
  function OrDisjoint(a: int, b: int, w: nat): int
    requires a >= 0 && LowBits(a, w) == 0 && 0 <= b < Pow2(w)
  {
    a + b
  }

  /** `x << s` on a 32-bit word. */
  function ShiftLeft(x: u32, s: nat): u32 { Mul32(x, Pow2(s)) }

  /** A digit `x` cut into `hi` and `lo` at a bit position, in terms of the two powers of two. */
  lemma ShiftCore(x: int, p: int, c: int, hi: int, lo: int)
    requires p > 0 && c > 0 && p * c == B && x == hi * c + lo && 0 <= lo < c && 0 <= x < B
    ensures x * p == hi * B + lo * p
    ensures 0 <= lo * p <= B - p
    ensures 0 <= hi < p
    ensures 0 <= x * p < WORD
  {
    Distribute(hi * c, lo, p);
    MulAssoc(hi, c, p);
    MulComm(c, p);
    MulLe(0, lo, p);
    MulLe(lo, c - 1, p);
    Distribute(c, 1, p);
    if hi >= p {
      MulLe(p, hi, c);
    } else if hi < 0 {
      MulLe(hi, -1, c);
    }
    MulLe(hi, p - 1, B);
    MulAtLeast(c, p);
    MulLe(p, B, B);
    Distribute(p, 1, B);
    MulLe(0, x, p);
  }

  lemma SmallMod(a: int)
    requires 0 <= a < WORD
    ensures a % WORD == a
  {
  }

  /** Shifting a digit left by `s` puts its top `s` bits above the digit. */
  lemma ShiftDigit(x: u32, s: nat)
    requires x < B && s <= 16
    ensures LoHalf(ShiftLeft(x, s)) == LowBits(x, 16 - s) * Pow2(s) <= B - Pow2(s)
    ensures LowBits(LoHalf(ShiftLeft(x, s)), s) == 0
    ensures ShiftRight(x, 16 - s) < Pow2(s)
    ensures x * Pow2(s) == ShiftRight(x, 16 - s) * B + LoHalf(ShiftLeft(x, s))
  {
    var p, c, hi, lo := Pow2(s), Pow2(16 - s), ShiftRight(x, 16 - s), LowBits(x, 16 - s);
    Pow2Complement(s);
    ShiftRightSplits(x, 16 - s);
    ShiftCore(x, p, c, hi, lo);
    assert ShiftLeft(x, s) == x * p by { SmallMod(x * p); }
    DivUnique(x * p, B, hi, lo * p);
    LowBitsOfMultiple(lo, s);
  }

  /** One step of `shl`, from the most significant digit down. */
  lemma ShlStep(vOld: int, vOld': int, vNew: int, vNew': int, pw: int, pw': int, top: int,
                x: int, p: int, h: int, l: int, y: int)
    requires x * p == h * B + l
    requires vNew == vOld * p + h - top * pw
    requires vOld' == vOld * B + x && vNew' == vNew * B + l + y && pw' == B * pw
    ensures vNew' == vOld' * p + y - top * pw'
  {
    Distribute(vOld * B, x, p);
    MulAssoc(vOld, B, p);
    MulComm(B, p);
    MulAssoc(vOld, p, B);
    MulAssoc(top, pw, B);
    MulComm(pw, B);
  }

  lemma ValSnoc(s: seq<int>, d: int)
    ensures Val(s + [d]) == Val(s) * B + d
  {
    assert (s + [d])[..|s|] == s;
  }

  /** The digit `shl` stores for `x` with `y` as its right neighbour. */
  function ShlDigit(x: u32, y: u32, sh: nat): (d: u32)
    requires x < B && y < B && sh <= 16
    ensures d < B
  {
    ShiftDigit(x, sh);
    ShiftDigit(y, sh);
    OrDisjoint(LoHalf(ShiftLeft(x, sh)), ShiftRight(y, 16 - sh), sh)
  }

  method ShlLoop(p: array<u32>, off: nat, len: nat, sh: nat, ghost was: seq<u32>)
    requires off + len < p.Length && sh <= 16 && was == p[off..off + len + 1] && DigitsIn(p, off, off + len + 1)
    modifies p
    ensures forall k :: 0 <= k < p.Length && !(off <= k <= off + len) ==> p[k] == old(p[k])
    ensures DigitsIn(p, off, off + len + 1)
    ensures forall k :: 0 <= k < len ==> p[off + k] == ShlDigit(was[k], was[k + 1], sh)
    ensures p[off + len] == LoHalf(ShiftLeft(was[len], sh))
  {
    var i := 0;
    while i < len
      invariant 0 <= i <= len
      invariant forall k :: 0 <= k < p.Length && !(off <= k < off + i) ==> p[k] == old(p[k])
      invariant forall k :: 0 <= k < i ==> p[off + k] == ShlDigit(was[k], was[k + 1], sh)
      invariant DigitsIn(p, off, off + len + 1)
    {
      assert p[off + i] == was[i] && p[off + i + 1] == was[i + 1];
      p[off + i] := ShlDigit(p[off + i], p[off + i + 1], sh);
      i := i + 1;
    }
    assert p[off + i] == was[i];
    p[off + i] := LoHalf(ShiftLeft(p[off + i], sh));
  }

  /** `shl`: shift `len + 1` digits left, dropping what falls out on the left. */
  method Shl(p: array<u32>, off: nat, len: nat, sh: nat)
    requires off + len < p.Length && sh <= 16
    requires DigitsIn(p, off, off + len + 1)
    modifies p
    ensures forall k :: 0 <= k < p.Length && !(off <= k <= off + len) ==> p[k] == old(p[k])
    ensures DigitsIn(p, off, off + len + 1)
    ensures Val(p[off..off + len + 1])
         == old(Val(p[off..off + len + 1])) * Pow2(sh) - ShiftRight(old(p[off]), 16 - sh) * Pow(len + 1)
  {
    ghost var was := p[off..off + len + 1];
    ShlLoop(p, off, len, sh, was);
    ghost var now := p[off..off + len + 1];
    assert forall k :: 0 <= k <= len ==> now[k] == p[off + k];
    ShlValue(was, now, len, sh);
  }

  lemma {:induction false} ShlPrefix(was: seq<u32>, now: seq<u32>, i: nat, sh: nat)
    requires i < |was| == |now| && AllDigits(was) && sh <= 16
    requires forall k :: 0 <= k < i ==> now[k] == ShlDigit(was[k], was[k + 1], sh)
    ensures Val(now[..i])
         == Val(was[..i]) * Pow2(sh) + ShiftRight(was[i], 16 - sh) - ShiftRight(was[0], 16 - sh) * Pow(i)
  {
    if i > 0 {
      assert now[..i] == now[..i - 1] + [now[i - 1]];
      ShlPrefix(was, now, i - 1, sh);
      ShlExtend(was, now[..i - 1], i - 1, sh, ShiftRight(was[0], 16 - sh), now[i - 1], ShiftRight(was[i], 16 - sh));
    }
  }

  lemma ShlValue(was: seq<u32>, now: seq<u32>, len: nat, sh: nat)
    requires |was| == |now| == len + 1 && AllDigits(was) && sh <= 16
    requires forall k :: 0 <= k < len ==> now[k] == ShlDigit(was[k], was[k + 1], sh)
    requires now[len] == LoHalf(ShiftLeft(was[len], sh))
    ensures Val(now) == Val(was) * Pow2(sh) - ShiftRight(was[0], 16 - sh) * Pow(len + 1)
  {
    assert now == now[..len] + [now[len]] && was[..len + 1] == was;
    ShlPrefix(was, now, len, sh);
    ShlExtend(was, now[..len], len, sh, ShiftRight(was[0], 16 - sh), now[len], 0);
  }

  lemma ShlExtend(was: seq<u32>, done: seq<int>, i: nat, sh: nat, top: int, d: int, y: int)
    requires i < |was| && AllDigits(was) && sh <= 16
    requires Val(done) == Val(was[..i]) * Pow2(sh) + ShiftRight(was[i], 16 - sh) - top * Pow(i)
    requires d == LoHalf(ShiftLeft(was[i], sh)) + y
    ensures Val(done + [d]) == Val(was[..i + 1]) * Pow2(sh) + y - top * Pow(i + 1)
  {
    var x := was[i];
    assert was[..i + 1] == was[..i] + [x];
    ShiftDigit(x, sh);
    ValSnoc(done, d);
    ValSnoc(was[..i], x);
    ShlStep(Val(was[..i]), Val(was[..i + 1]), Val(done), Val(done + [d]), Pow(i), Pow(i + 1), top,
            x, Pow2(sh), ShiftRight(x, 16 - sh), LoHalf(ShiftLeft(x, sh)), y);
  }

  /** One step of the right shift, from the least significant digit up. */
  lemma ShrStep(low: int, low': int, done: int, done': int, pw: int, pw': int, rem: int,
                p: int, x: int, a: int, xl: int, zl: int, l: int, g: int)
    requires done * p + rem == low + xl * pw
    requires l * p == zl * B && x == a * p + xl && g == a + l && pw' == B * pw
    requires done' == g * pw + done && low' == x * pw + low
    ensures done' * p + rem == low' + zl * pw'
  {
    Distribute(g * pw, done, p);
    assert g * pw * p == g * p * pw;
    assert g * p == a * p + zl * B by { Distribute(a, l, p); }
    Distribute(a * p, zl * B, pw);
    Distribute(a * p, xl, pw);
    MulAssoc(zl, B, pw);
  }

  lemma ShrExtend(was: seq<u32>, low: seq<int>, i: nat, d: nat, rem: int, g: int)
    requires 0 < i < |was| && AllDigits(was) && d <= 16 && |low| == |was| - i - 1
    requires Val(low) * Pow2(d) + rem == Val(was[i + 1..]) + LowBits(was[i], d) * Pow(|low|)
    requires g == ShiftRight(was[i], d) + LoHalf(ShiftLeft(was[i - 1], 16 - d))
    ensures Val([g] + low) * Pow2(d) + rem == Val(was[i..]) + LowBits(was[i - 1], d) * Pow(|low| + 1)
  {
    var x, z := was[i], was[i - 1];
    ShiftDigit(z, 16 - d);
    ShiftRightSplits(x, d);
    var p, c, l := Pow2(d), Pow2(16 - d), LoHalf(ShiftLeft(z, 16 - d));
    assert l * p == LowBits(z, d) * B by {
      Pow2Complement(d);
      MulAssoc(LowBits(z, d), c, p);
      MulComm(c, p);
    }
    assert was[i..][1..] == was[i + 1..] && ([g] + low)[1..] == low;
    ValHead(was[i..]);
    ValHead([g] + low);
    ShrStep(Val(was[i + 1..]), Val(was[i..]), Val(low), Val([g] + low), Pow(|low|), Pow(|low| + 1), rem,
            p, x, ShiftRight(x, d), LowBits(x, d), LowBits(z, d), l, g);
  }

  /** The digit stored for `x` with `z` as its left neighbour when shifting right. */
  function ShrDigit(z: u32, x: u32, d: nat): (g: u32)
    requires x < B && z < B && d <= 16
    ensures g < B
  {
    ShiftDigit(z, 16 - d);
    ShiftDigit(x, 16 - d);
    OrDisjoint(LoHalf(ShiftLeft(z, 16 - d)), ShiftRight(x, d), 16 - d)
  }

  lemma {:induction false} ShrSuffix(was: seq<u32>, now: seq<u32>, i: nat, d: nat)
    requires i < |was| == |now| && AllDigits(was) && d <= 16
    requires forall k :: i < k < |was| ==> now[k] == ShrDigit(was[k - 1], was[k], d)
    ensures Val(now[i + 1..]) * Pow2(d) + LowBits(was[|was| - 1], d)
         == Val(was[i + 1..]) + LowBits(was[i], d) * Pow(|was| - i - 1)
    decreases |was| - i
  {
    if i + 1 == |was| {
      assert now[i + 1..] == [] && was[i + 1..] == [];
      assert LowBits(was[i], d) * Pow(0) == LowBits(was[i], d);
    } else {
      ShrSuffix(was, now, i + 1, d);
      ShrLonger(was, now, i, d, LowBits(was[|was| - 1], d));
    }
  }

  lemma ShrLonger(was: seq<u32>, now: seq<u32>, i: nat, d: nat, rem: int)
    requires i + 1 < |was| == |now| && AllDigits(was) && d <= 16 && now[i + 1] == ShrDigit(was[i], was[i + 1], d)
    requires Val(now[i + 1 + 1..]) * Pow2(d) + rem
      == Val(was[i + 1 + 1..]) + LowBits(was[i + 1], d) * Pow(|was| - (i + 1) - 1)
    ensures Val(now[i + 1..]) * Pow2(d) + rem == Val(was[i + 1..]) + LowBits(was[i], d) * Pow(|was| - i - 1)
  {
    var low := now[i + 1 + 1..];
    assert now[i + 1..] == [now[i + 1]] + low;
    assert |low| == |was| - (i + 1) - 1;
    ShrExtend(was, low, i + 1, d, rem, now[i + 1]);
    assert |low| + 1 == |was| - i - 1;
  }

  lemma ExactQuotient(p: int, x: int, rem: int, r: int)
    requires 0 <= rem < p && x * p + rem == r * p
    ensures x == r
  {
    DivBoundsUnique(p, x, rem, r, 0);
    DivBoundsUnique(p, r, 0, x, rem);
  }

  lemma ShrValue(was: seq<u32>, now: seq<u32>, d: nat, r: nat)
    requires |was| == |now| > 1 && AllDigits(was) && d <= 16 && was[0] == 0
    requires forall k :: 0 < k < |was| ==> now[k] == ShrDigit(was[k - 1], was[k], d)
    requires Val(was[1..]) == r * Pow2(d)
    ensures Val(now[1..]) == r
  {
    ShrSuffix(was, now, 0, d);
    LowBitsOfZero(d);
    assert LowBits(was[0], d) * Pow(|was| - 1) == 0;
    var rem := LowBits(was[|was| - 1], d);
    ShiftRightSplits(was[|was| - 1], d);
    ExactQuotient(Pow2(d), Val(now[1..]), rem, r);
  }

  method ShrLoop(u: array<u32>, um: nat, n: nat, d: nat, ghost was: seq<u32>)
    requires um + n < u.Length && 0 < n && d < 16 && was == u[um..um + n + 1] && DigitsIn(u, um, um + n + 1)
    modifies u
    ensures forall k :: 0 <= k < u.Length && !(um <= k <= um + n) ==> u[k] == old(u[k])
    ensures DigitsIn(u, um, um + n + 1) && u[um] == 0
    ensures forall k :: 0 < k <= n ==> u[um + k] == ShrDigit(was[k - 1], was[k], d)
  {
    var i := n;
    while i > 0
      invariant 0 <= i <= n
      invariant forall k :: 0 <= k < u.Length && !(um + i < k <= um + n) ==> u[k] == old(u[k])
      invariant forall k :: i < k <= n ==> u[um + k] == ShrDigit(was[k - 1], was[k], d)
      invariant DigitsIn(u, um, um + n + 1)
    {
      assert u[um + i] == was[i] && u[um + i - 1] == was[i - 1];
      u[um + i] := ShrDigit(u[um + i - 1], u[um + i], d);
      i := i - 1;
    }
    u[um] := 0;
  }

  /** The remainder's digits shifted right by `d`, given that nothing is shifted in from above. */
  method ShiftRemainder(u: array<u32>, uo: nat, m: nat, n: nat, d: nat, ghost r: nat)
    requires uo + m + n < u.Length && 0 < n && 0 < d < 16
    requires DigitsIn(u, uo + m, uo + m + n + 1) && u[uo + m] == 0
    requires Val(u[uo + m + 1..uo + m + n + 1]) == r * Pow2(d)
    modifies u
    ensures forall k :: 0 <= k < u.Length && !(uo + m < k <= uo + m + n) ==> u[k] == old(u[k])
    ensures DigitsIn(u, uo + m, uo + m + n + 1)
    ensures Val(u[uo + m + 1..uo + m + n + 1]) == r
  {
    ghost var um := uo + m;
    ghost var was := u[um..um + n + 1];
    assert was[1..] == u[um + 1..um + n + 1];
    ShrLoop(u, uo + m, n, d, was);
    ghost var now := u[um..um + n + 1];
    assert forall k :: 0 <= k <= n ==> now[k] == u[um + k];
    assert now[1..] == u[um + 1..um + n + 1];
    ShrValue(was, now, d, r);
  }

  lemma {:induction false} LowBitsOfZero(k: nat)
    ensures LowBits(0, k) == 0
  {
    if k > 0 {
      LowBitsOfZero(k - 1);
    }
  }

  // ---------------------------------------------------------------------
  // D4 and D6: multiply and subtract, add back
  // ---------------------------------------------------------------------

  /** One digit of D4: the 32-bit word computed, and the borrow taken from the next digit. */
  function SubWord(u: u32, v: u32, qhat: u32, t: u32): u32 { Sub32(Sub32(u, Mul32(v, qhat)), t) }
  function Borrow(x: u32): u32 { (B - HiHalf(x)) % B }

  /** The wrapped word and the borrow hold the exact difference. */
  lemma SubWordExact(u: u32, v: u32, qhat: u32, t: u32)
    requires u < B && v < B && qhat < B && t < B
    ensures Borrow(SubWord(u, v, qhat, t)) < B
    ensures u - v * qhat - t == LoHalf(SubWord(u, v, qhat, t)) - Borrow(SubWord(u, v, qhat, t)) * B
  {
    var prod := v * qhat;
    assert 0 <= prod <= (B - 1) * (B - 1) by {
      MulLe(0, v, qhat);
      MulLe(v, B - 1, qhat);
    }
    SubWordLinear(u, prod, t);
    SmallMod(prod);
  }

  lemma SubWordLinear(u: int, prod: int, t: int)
    requires 0 <= u < B && 0 <= prod <= (B - 1) * (B - 1) && 0 <= t < B
    ensures var x := Sub32(Sub32(u, prod), t);
      0 <= Borrow(x) < B && u - prod - t == LoHalf(x) - Borrow(x) * B
  {
    var d := u - prod - t;
    var x := Sub32(Sub32(u, prod), t);
    assert x == d % WORD;
    if d >= 0 {
      assert x == d;
    } else {
      assert x == d + WORD;
    }
  }

  /** D4's loop on a whole digit string: digits stored and final borrow. */
  function SubMul(u: seq<u32>, v: seq<u32>, qhat: u32): (r: (seq<u32>, u32))
    requires |u| == |v|
    ensures |r.0| == |u|
  {
    if u == [] then ([], 0)
    else
      var (lo, t) := SubMul(u[1..], v[1..], qhat);
      var x := SubWord(u[0], v[0], qhat, t);
      ([LoHalf(x)] + lo, Borrow(x))
  }

  lemma SubMulStep(du: int, dv: int, q: int, t: int, l: int, t': int,
                   ulow: int, vlow: int, low: int, u: int, v: int, r: int, pw: int, pw': int)
    requires low == ulow - q * vlow + t * pw
    requires du - dv * q - t == l - t' * B
    requires u == du * pw + ulow && v == dv * pw + vlow && r == l * pw + low && pw' == B * pw
    ensures r == u - q * v + t' * pw'
  {
    assert l == du - dv * q - t + t' * B;
    Distribute(du - dv * q - t, t' * B, pw);
    Distribute(du - dv * q, t, pw);
    Distribute(du, dv * q, pw);
    MulAssoc(t', B, pw);
    Distribute(dv * pw, vlow, q);
    assert q * v == dv * q * pw + q * vlow;
  }

  /** D4 subtracts `qhat` times the divisor, exactly, up to the borrow out of the top digit. */
  lemma {:induction false} SubMulValue(u: seq<u32>, v: seq<u32>, qhat: u32)
    requires |u| == |v| && AllDigits(u) && AllDigits(v) && qhat < B
    ensures var (r, t) := SubMul(u, v, qhat);
      AllDigits(r) && t < B && Val(r) == Val(u) - qhat * Val(v) + t * Pow(|u|)
  {
    if u != [] {
      SubMulValue(u[1..], v[1..], qhat);
      var (lo, t) := SubMul(u[1..], v[1..], qhat);
      var (r, t') := SubMul(u, v, qhat);
      SubWordExact(u[0], v[0], qhat, t);
      assert r[1..] == lo;
      ValHead(u);
      ValHead(v);
      ValHead(r);
      SubMulStep(u[0], v[0], qhat, t, r[0], t', Val(u[1..]), Val(v[1..]), Val(lo),
                 Val(u), Val(v), Val(r), Pow(|u| - 1), Pow(|u|));
    }
  }

  /** D6's loop on a whole digit string: digits stored and final carry. */
  function AddDigits(u: seq<u32>, v: seq<u32>): (r: (seq<u32>, u32))
    requires |u| == |v|
    ensures |r.0| == |u|
  {
    if u == [] then ([], 0)
    else
      var (lo, t) := AddDigits(u[1..], v[1..]);
      var x := Add32(t, Add32(u[0], v[0]));
      ([LoHalf(x)] + lo, HiHalf(x))
  }

  lemma AddWordExact(u: u32, v: u32, t: u32)
    requires u < B && v < B && t <= 1
    ensures var x := Add32(t, Add32(u, v)); HiHalf(x) <= 1 && u + v + t == LoHalf(x) + HiHalf(x) * B
  {
    assert Add32(u, v) == u + v;
    assert Add32(t, u + v) == t + u + v;
  }

  lemma AddStep(du: int, dv: int, t: int, l: int, t': int,
                ulow: int, vlow: int, low: int, u: int, v: int, r: int, pw: int, pw': int)
    requires low == ulow + vlow - t * pw
    requires du + dv + t == l + t' * B
    requires u == du * pw + ulow && v == dv * pw + vlow && r == l * pw + low && pw' == B * pw
    ensures r == u + v - t' * pw'
  {
    assert l == du + dv + t - t' * B;
    Distribute(du + dv + t, t' * B, pw);
    Distribute(du + dv, t, pw);
    Distribute(du, dv, pw);
    MulAssoc(t', B, pw);
  }

  lemma {:induction false} AddDigitsValue(u: seq<u32>, v: seq<u32>)
    requires |u| == |v| && AllDigits(u) && AllDigits(v)
    ensures var (r, t) := AddDigits(u, v);
      AllDigits(r) && t <= 1 && Val(r) == Val(u) + Val(v) - t * Pow(|u|)
  {
    if u != [] {
      AddDigitsValue(u[1..], v[1..]);
      var (lo, t) := AddDigits(u[1..], v[1..]);
      var (r, t') := AddDigits(u, v);
      AddWordExact(u[0], v[0], t);
      assert r[1..] == lo;
      ValHead(u);
      ValHead(v);
      ValHead(r);
      AddStep(u[0], v[0], t, r[0], t', Val(u[1..]), Val(v[1..]), Val(lo),
              Val(u), Val(v), Val(r), Pow(|u| - 1), Pow(|u|));
    }
  }

  /** D4's loop: all digits but the top one. */
  method SubtractLoop(u: array<u32>, uj: nat, v: array<u32>, vo: nat, n: nat, qhat: u32) returns (t: u32)
    requires u != v && uj + n < u.Length && vo + n < v.Length
    modifies u
    ensures forall k :: 0 <= k < u.Length && !(uj < k <= uj + n) ==> u[k] == old(u[k])
    ensures (u[uj + 1..uj + n + 1], t) == SubMul(old(u[uj + 1..uj + n + 1]), v[vo + 1..vo + n + 1], qhat)
  {
    ghost var was, vs := u[uj + 1..uj + n + 1], v[vo + 1..vo + n + 1];
    var i := n;
    t := 0;
    while i > 0
      invariant 0 <= i <= n
      invariant forall k :: 0 <= k < u.Length && !(uj + i < k <= uj + n) ==> u[k] == old(u[k])
      invariant (u[uj + i + 1..uj + n + 1], t) == SubMul(was[i..], vs[i..], qhat)
    {
      ghost var lo := u[uj + i + 1..uj + n + 1];
      assert u[uj + i] == was[i - 1] && v[vo + i] == vs[i - 1];
      t := SubWord(u[uj + i], v[vo + i], qhat, t);
      u[uj + i] := LoHalf(t);
      t := Borrow(t);
      assert was[i - 1..][1..] == was[i..] && vs[i - 1..][1..] == vs[i..];
      assert u[uj + i..uj + n + 1] == [u[uj + i]] + lo;
      i := i - 1;
    }
    assert was[0..] == was && vs[0..] == vs;
  }

  /** D4: `u[j..j+n] -= qhat * v[1..n]`; the high half of the result says whether it went below zero. */
  method MultiplySubtract(u: array<u32>, uj: nat, v: array<u32>, vo: nat, n: nat, qhat: u32) returns (t: u32)
    requires u != v && uj + n < u.Length && vo + n < v.Length && qhat < B
    requires AllDigits(u[uj..uj + n + 1]) && AllDigits(v[vo + 1..vo + n + 1])
    modifies u
    ensures forall k :: 0 <= k < u.Length && !(uj <= k <= uj + n) ==> u[k] == old(u[k])
    ensures AllDigits(u[uj..uj + n + 1])
    ensures HiHalf(t) != 0 <==> old(Val(u[uj..uj + n + 1])) < qhat * Val(v[vo + 1..vo + n + 1])
    ensures Val(u[uj..uj + n + 1])
         == old(Val(u[uj..uj + n + 1])) - qhat * Val(v[vo + 1..vo + n + 1]) + (if HiHalf(t) != 0 then Pow(n + 1) else 0)
  {
    ghost var was, vs := u[uj..uj + n + 1], v[vo + 1..vo + n + 1];
    assert was[1..] == u[uj + 1..uj + n + 1];
    var b := SubtractLoop(u, uj, v, vo, n, qhat);
    ghost var lo := u[uj + 1..uj + n + 1];
    t := Sub32(u[uj], b);
    u[uj] := LoHalf(t);
    assert u[uj..uj + n + 1] == [LoHalf(t)] + lo;
    SubtractAll(was, vs, qhat, b, t, lo);
  }

  lemma SubtractAll(was: seq<u32>, vs: seq<u32>, qhat: u32, b: u32, t: u32, lo: seq<u32>)
    requires |was| == |vs| + 1 && AllDigits(was) && AllDigits(vs) && qhat < B
    requires (lo, b) == SubMul(was[1..], vs, qhat) && t == Sub32(was[0], b)
    ensures AllDigits([LoHalf(t)] + lo)
    ensures HiHalf(t) != 0 <==> Val(was) < qhat * Val(vs)
    ensures Val([LoHalf(t)] + lo) == Val(was) - qhat * Val(vs) + (if HiHalf(t) != 0 then Pow(|was|) else 0)
  {
    SubMulValue(was[1..], vs, qhat);
    SubtractTop(was, vs, qhat, b, t, lo);
  }

  lemma TopBorrow(x: u32, b: u32)
    requires x < B && b < B
    ensures var t := Sub32(x, b); LoHalf(t) == x - b + (if HiHalf(t) != 0 then B else 0)
  {
    if x >= b {
      assert Sub32(x, b) == x - b;
    } else {
      assert Sub32(x, b) == x - b + WORD;
    }
  }

  lemma TopCarry(x: u32, t: u32)
    requires x < B && t <= 1
    ensures LoHalf(Add32(x, t)) == x + t - (if x + t >= B then B else 0)
  {
  }

  lemma TopDigit(x: int, y: int, z: int, d: int, c: bool, pw: int, pw': int)
    requires d == x + y - z + (if c then B else 0) && pw' == B * pw
    ensures d * pw == x * pw + y * pw - z * pw + (if c then pw' else 0)
  {
    Distribute(x, y, pw);
    Distribute(x + y, z, pw);
    Distribute(x + y - z, B, pw);
  }

  /** The last digit of D4, and what its borrow means. */
  lemma SubtractTop(was: seq<u32>, vs: seq<u32>, qhat: u32, b: u32, t: u32, lo: seq<u32>)
    requires |was| == |vs| + 1 && |lo| == |vs| && was[0] < B && AllDigits(lo) && b < B
    requires Val(lo) == Val(was[1..]) - qhat * Val(vs) + b * Pow(|vs|)
    requires t == Sub32(was[0], b)
    ensures AllDigits([LoHalf(t)] + lo)
    ensures HiHalf(t) != 0 <==> Val(was) < qhat * Val(vs)
    ensures Val([LoHalf(t)] + lo) == Val(was) - qhat * Val(vs) + (if HiHalf(t) != 0 then Pow(|was|) else 0)
  {
    var r := [LoHalf(t)] + lo;
    assert r[1..] == lo;
    ValHead(r);
    ValHead(was);
    TopBorrow(was[0], b);
    TopDigit(was[0], 0, b, LoHalf(t), HiHalf(t) != 0, Pow(|vs|), Pow(|was|));
    ValBound(r);
  }

  /** D6's loop: all digits but the top one. */
  method AddLoop(u: array<u32>, uj: nat, v: array<u32>, vo: nat, n: nat) returns (t: u32)
    requires u != v && uj + n < u.Length && vo + n < v.Length
    modifies u
    ensures forall k :: 0 <= k < u.Length && !(uj < k <= uj + n) ==> u[k] == old(u[k])
    ensures (u[uj + 1..uj + n + 1], t) == AddDigits(old(u[uj + 1..uj + n + 1]), v[vo + 1..vo + n + 1])
  {
    ghost var was, vs := u[uj + 1..uj + n + 1], v[vo + 1..vo + n + 1];
    var i := n;
    t := 0;
    while i > 0
      invariant 0 <= i <= n
      invariant forall k :: 0 <= k < u.Length && !(uj + i < k <= uj + n) ==> u[k] == old(u[k])
      invariant (u[uj + i + 1..uj + n + 1], t) == AddDigits(was[i..], vs[i..])
    {
      ghost var lo := u[uj + i + 1..uj + n + 1];
      assert u[uj + i] == was[i - 1] && v[vo + i] == vs[i - 1];
      t := Add32(t, Add32(u[uj + i], v[vo + i]));
      u[uj + i] := LoHalf(t);
      t := HiHalf(t);
      assert was[i - 1..][1..] == was[i..] && vs[i - 1..][1..] == vs[i..];
      assert u[uj + i..uj + n + 1] == [u[uj + i]] + lo;
      i := i - 1;
    }
    assert was[0..] == was && vs[0..] == vs;
  }

  /** D6: `u[j..j+n] += v[1..n]`, dropping the final carry. */
  method AddBack(u: array<u32>, uj: nat, v: array<u32>, vo: nat, n: nat)
    requires u != v && uj + n < u.Length && vo + n < v.Length
    requires AllDigits(u[uj..uj + n + 1]) && AllDigits(v[vo + 1..vo + n + 1])
    requires Val(u[uj..uj + n + 1]) + Val(v[vo + 1..vo + n + 1]) >= Pow(n + 1)
    modifies u
    ensures forall k :: 0 <= k < u.Length && !(uj <= k <= uj + n) ==> u[k] == old(u[k])
    ensures AllDigits(u[uj..uj + n + 1])
    ensures Val(u[uj..uj + n + 1]) == old(Val(u[uj..uj + n + 1])) + Val(v[vo + 1..vo + n + 1]) - Pow(n + 1)
  {
    ghost var was, vs := u[uj..uj + n + 1], v[vo + 1..vo + n + 1];
    assert was[1..] == u[uj + 1..uj + n + 1];
    var t := AddLoop(u, uj, v, vo, n);
    ghost var lo := u[uj + 1..uj + n + 1];
    AddDigitsValue(was[1..], vs);
    AddTop(was, vs, t, LoHalf(Add32(was[0], t)), lo);
    u[uj] := LoHalf(Add32(u[uj], t));
    assert u[uj..uj + n + 1] == [u[uj]] + lo;
  }

  lemma AddTop(was: seq<u32>, vs: seq<u32>, t: u32, d: u32, lo: seq<u32>)
    requires |was| == |vs| + 1 && |lo| == |vs| && was[0] < B && AllDigits(lo) && t <= 1
    requires AllDigits(vs)
    requires Val(lo) == Val(was[1..]) + Val(vs) - t * Pow(|vs|)
    requires d == LoHalf(Add32(was[0], t))
    requires Val(was) + Val(vs) >= Pow(|was|)
    ensures AllDigits([d] + lo)
    ensures Val([d] + lo) == Val(was) + Val(vs) - Pow(|was|)
  {
    var r := [d] + lo;
    assert r[1..] == lo;
    ValHead(r);
    ValHead(was);
    TopCarry(was[0], t);
    TopDigit(d, 0, t, was[0], was[0] + t >= B, Pow(|vs|), Pow(|was|));
    ValBound(r);
  }

  // ---------------------------------------------------------------------
  // D3: the quotient digit
  // ---------------------------------------------------------------------

  function Min(a: int, b: int): int { if a <= b then a else b }

  /** The value of the leading three digits of the dividend and two of the divisor. */
  function Lead3(u0: int, u1: int, u2: int): int { (u0 * B + u1) * B + u2 }
  function Lead2(v1: int, v2: int): int { v1 * B + v2 }

  /** The loop test of D3 compares the guess with the leading digits, exactly and without overflow. */
  lemma GuessTest(u0: u32, u1: u32, u2: u32, v1: u32, v2: u32, qhat: int, rhat: int)
    requires u2 < B && v2 < B && 0 <= qhat < B
    requires qhat * v1 + rhat == u0 * B + u1
    ensures 0 <= v2 * qhat < WORD
    ensures v2 * qhat > rhat * B + u2 <==> qhat * Lead2(v1, v2) > Lead3(u0, u1, u2)
  {
    MulLe(0, v2, qhat);
    MulLe(v2, B - 1, qhat);
    assert qhat * (v1 * B + v2) == qhat * v1 * B + v2 * qhat;
    assert (qhat * v1 + rhat) * B == qhat * v1 * B + rhat * B;
  }

  /** D3's first guess, which is never too small. */
  method FirstDigit(u0: u32, u1: u32, u2: u32, v1: u32, v2: u32) returns (qhat: u32, rhat: u32)
    requires u0 <= v1 && 0 < v1 < B && u1 < B && u2 < B && v2 < B
    ensures qhat <= B && rhat < B && (qhat == B <==> u0 == v1)
    ensures qhat * v1 + rhat == u0 * B + u1
    ensures Min(Lead3(u0, u1, u2) / Lead2(v1, v2), B - 1) <= qhat
  {
    if u0 == v1 {
      qhat, rhat := B, u1;
    } else {
      var nn := Combine(u0, u1);
      FirstGuess(nn, u0, u1, v1);
      FirstGuessHigh(nn, u2, v1, v2);
      qhat, rhat := nn / v1, nn % v1;
    }
  }

  /** D3: the digit guessed from the leading digits, repaired until it is their exact quotient. */
  method GuessDigit(u0: u32, u1: u32, u2: u32, v1: u32, v2: u32) returns (qhat: u32)
    requires u0 <= v1 && 0 < v1 < B && u1 < B && u2 < B && v2 < B
    ensures qhat == Min(Lead3(u0, u1, u2) / Lead2(v1, v2), B - 1)
  {
    var rhat: u32;
    qhat, rhat := FirstDigit(u0, u1, u2, v1, v2);
    var tooBig := u0 == v1;
    ghost var u, v := Lead3(u0, u1, u2), Lead2(v1, v2);
    while tooBig || Mul32(v2, qhat) > Combine(rhat, u2)
      invariant 0 <= qhat <= B && 0 <= rhat < B && (tooBig <==> qhat == B)
      invariant qhat * v1 + rhat == u0 * B + u1
      invariant Min(u / v, B - 1) <= qhat
      decreases qhat
    {
      if !tooBig {
        StillTooBig(u0, u1, u2, v1, v2, qhat, rhat);
      }
      tooBig := false;
      Distribute(qhat, 1, v1);
      qhat := qhat - 1;
      rhat := rhat + v1;
      if rhat >= B {
        break;
      }
    }
    SettledGuess(u0, u1, u2, v1, v2, qhat, rhat);
  }

  lemma StillTooBig(u0: u32, u1: u32, u2: u32, v1: u32, v2: u32, qhat: int, rhat: int)
    requires 0 < v1 && u2 < B && v2 < B && 0 <= qhat < B
    requires qhat * v1 + rhat == u0 * B + u1
    requires Mul32(v2, qhat) > rhat * B + u2
    ensures Lead3(u0, u1, u2) / Lead2(v1, v2) <= qhat - 1
  {
    GuessTest(u0, u1, u2, v1, v2, qhat, rhat);
    SmallMod(v2 * qhat);
    TooBig(Lead3(u0, u1, u2), Lead2(v1, v2), qhat);
  }

  /** Once `rhat` outgrows a digit the guess cannot be too big any more. */
  lemma SettledGuess(u0: u32, u1: u32, u2: u32, v1: u32, v2: u32, qhat: int, rhat: int)
    requires 0 < v1 && u2 < B && v2 < B && 0 <= qhat < B
    requires qhat * v1 + rhat == u0 * B + u1
    requires rhat >= B || Mul32(v2, qhat) <= rhat * B + u2
    ensures qhat <= Lead3(u0, u1, u2) / Lead2(v1, v2)
  {
    GuessTest(u0, u1, u2, v1, v2, qhat, rhat);
    SmallMod(v2 * qhat);
    NotTooBig(Lead3(u0, u1, u2), Lead2(v1, v2), qhat);
  }

  lemma FirstGuess(nn: int, u0: u32, u1: u32, v1: u32)
    requires u0 < v1 < B && u1 < B && nn == u0 * B + u1
    ensures nn / v1 * v1 + nn % v1 == nn && 0 <= nn / v1 < B && 0 <= nn % v1 < v1
  {
    var q := nn / v1;
    MulComm(v1, q);
    if q >= B {
      MulLe(B, q, v1);
      assert false;
    }
    if q < 0 {
      MulLe(q, -1, v1);
      assert false;
    }
  }

  /** Looking at one digit of the divisor never makes the guess too small. */
  lemma FirstGuessHigh(nn: int, u2: u32, v1: u32, v2: u32)
    requires 0 <= nn && 0 < v1 && u2 < B && v2 < B
    ensures (nn * B + u2) / Lead2(v1, v2) <= nn / v1
  {
    var u, v := nn * B + u2, v1 * B + v2;
    var q := u / v;
    MulComm(v, q);
    NotTooBig(u, v, 0);
    MulLe(0, q, v2);
    assert q * v == q * v1 * B + q * v2 by {
      MulAssoc(q, v1, B);
      Distribute(v1 * B, v2, q);
      MulComm(v, q);
      MulComm(v1 * B, q);
      MulComm(v2, q);
    }
    assert q * v1 <= nn;
    NotTooBig(nn, v1, q);
  }

  lemma TooBig(u: int, v: int, q: int)
    requires v > 0 && q * v > u
    ensures u / v <= q - 1
  {
    MulComm(v, u / v);
    if u / v >= q {
      MulLe(q, u / v, v);
      assert false;
    }
  }

  lemma NotTooBig(u: int, v: int, q: int)
    requires v > 0 && q * v <= u
    ensures q <= u / v
  {
    MulComm(v, u / v);
    if q >= u / v + 1 {
      MulLe(u / v + 1, q, v);
      Distribute(u / v, 1, v);
      assert false;
    }
  }

  /**
   * Knuth's bound: the quotient of the leading digits, capped at `B - 1`, is the
   * true quotient digit or one more, whatever the digits after them are.
   */
  lemma GuessBounds(u: int, v: int, pw: int, u3: int, ul: int, v2: int, vl: int, qhat: int)
    requires pw > 0 && u == u3 * pw + ul && 0 <= ul < pw && v == v2 * pw + vl && 0 <= vl < pw
    requires v2 >= B && 0 <= u < v * B
    requires qhat == Min(u3 / v2, B - 1)
    ensures u / v <= qhat <= u / v + 1
  {
    MulLe(B, v2, pw);
    assert v >= B * pw > 0;
    GuessNotLow(u, v, pw, u3, ul, v2, vl);
    GuessNotHigh(u, v, pw, u3, ul, v2, vl, qhat);
  }

  lemma GuessNotLow(u: int, v: int, pw: int, u3: int, ul: int, v2: int, vl: int)
    requires pw > 0 && u == u3 * pw + ul && 0 <= ul < pw && v == v2 * pw + vl && 0 <= vl < pw
    requires v2 > 0 && v > 0 && 0 <= u < v * B
    ensures u / v <= u3 / v2 && u / v <= B - 1
  {
    var q := u / v;
    MulComm(v, q);
    assert q * v <= u;
    NotTooBig(u, v, 0);
    MulComm(v, B);
    TooBig(u, v, B);
    assert q * v == q * v2 * pw + q * vl by {
      MulAssoc(q, v2, pw);
      Distribute(v2 * pw, vl, q);
      MulComm(v, q);
      MulComm(v2 * pw, q);
      MulComm(vl, q);
    }
    MulLe(0, q, vl);
    assert q * v2 * pw < (u3 + 1) * pw by { Distribute(u3, 1, pw); }
    if q * v2 >= u3 + 1 {
      MulLe(u3 + 1, q * v2, pw);
      assert false;
    }
    NotTooBig(u3, v2, q);
  }

  lemma GuessNotHigh(u: int, v: int, pw: int, u3: int, ul: int, v2: int, vl: int, qhat: int)
    requires pw > 0 && u == u3 * pw + ul && 0 <= ul < pw && v == v2 * pw + vl && 0 <= vl < pw
    requires v2 > 0 && v >= B * pw && 0 <= u
    requires qhat == Min(u3 / v2, B - 1)
    ensures qhat <= u / v + 1
  {
    if qhat >= 1 {
      assert qhat * v2 <= u3 by {
        MulComm(v2, u3 / v2);
        MulLe(qhat, u3 / v2, v2);
      }
      assert qhat * v == qhat * v2 * pw + qhat * vl by {
        MulAssoc(qhat, v2, pw);
        Distribute(v2 * pw, vl, qhat);
        MulComm(v, qhat);
        MulComm(v2 * pw, qhat);
        MulComm(vl, qhat);
      }
      MulLe(qhat * v2, u3, pw);
      assert qhat * vl <= v by {
        MulLe(qhat, B, vl);
        MulLe(vl, pw, B);
        MulComm(vl, B);
        MulComm(pw, B);
      }
      Distribute(qhat, 1, v);
      assert (qhat - 1) * v <= u;
      NotTooBig(u, v, qhat - 1);
    } else {
      NotTooBig(u, v, 0);
    }
  }

  /** D4 and D6 turn a guess that is right, or one too large, into the remainder. */
  lemma StepArithmetic(u: int, v: int, qhat: int, w: int, borrow: bool, top: int)
    requires v > 0 && 0 <= u / v <= qhat <= u / v + 1
    requires borrow <==> u < qhat * v
    requires w == u - qhat * v + (if borrow then top else 0)
    ensures !borrow ==> u == qhat * v + w && 0 <= w < v
    ensures borrow ==> qhat >= 1 && u == (qhat - 1) * v + (w + v - top) && 0 <= w + v - top < v
  {
    var q := u / v;
    MulComm(v, q);
    Distribute(qhat, 1, v);
    if borrow {
      assert qhat == q + 1;
    } else if qhat == q + 1 {
      assert false;
    }
  }

  lemma ValTwo(a: int, b: int)
    ensures Val([a, b]) == a * B + b
  {
    assert [a, b] == [a] + [b];
    ValOne(a);
    ValSnoc([a], b);
  }

  lemma Lead2Value(s: seq<int>)
    requires |s| >= 2
    ensures Val(s) == Lead2(s[0], s[1]) * Pow(|s| - 2) + Val(s[2..])
  {
    assert s[..2] == [s[0], s[1]];
    ValTwo(s[0], s[1]);
    ValSplit(s, 2);
  }

  lemma Lead3Value(s: seq<int>)
    requires |s| >= 3
    ensures Val(s) == Lead3(s[0], s[1], s[2]) * Pow(|s| - 3) + Val(s[3..])
  {
    assert s[..3] == [s[0], s[1]] + [s[2]];
    ValTwo(s[0], s[1]);
    ValSnoc([s[0], s[1]], s[2]);
    ValSplit(s, 3);
  }

  /** The first digit of the dividend part cannot exceed that of the divisor. */
  lemma LeadDigitLe(us: seq<int>, vs: seq<int>)
    requires |us| == |vs| + 1 > 1 && AllDigits(us) && AllDigits(vs) && Val(us) < Val(vs) * B
    ensures us[0] <= vs[0]
  {
    ValHead(us);
    ValHead(vs);
    ValBound(us[1..]);
    ValBound(vs[1..]);
    LeadArithmetic(us[0], Val(us[1..]), vs[0], Val(vs[1..]), Pow(|vs| - 1));
  }

  lemma LeadArithmetic(a: int, al: int, b: int, bl: int, pw: int)
    requires a * (B * pw) + al < (b * pw + bl) * B && 0 <= al && 0 <= bl < pw
    ensures a <= b
  {
    if a >= b + 1 {
      MulLe(b + 1, a, B * pw);
      Distribute(b, 1, B * pw);
      Distribute(b * pw, bl, B);
      MulAssoc(b, pw, B);
      MulComm(pw, B);
      assert false;
    }
  }

  /** A whole round of Algorithm D at one digit position. */
  lemma GuessForDigits(us: seq<int>, vs: seq<int>, qhat: int)
    requires |us| == |vs| + 1 && |vs| >= 2 && AllDigits(us) && AllDigits(vs) && vs[0] > 0
    requires Val(us) < Val(vs) * B
    requires qhat == Min(Lead3(us[0], us[1], us[2]) / Lead2(vs[0], vs[1]), B - 1)
    ensures Val(vs) > 0
    ensures Val(us) / Val(vs) <= qhat <= Val(us) / Val(vs) + 1
  {
    Lead3Value(us);
    Lead2Value(vs);
    ValBound(us);
    ValBound(us[3..]);
    ValBound(vs[2..]);
    var pw := Pow(|vs| - 2);
    MulAtLeast(Lead2(vs[0], vs[1]), pw);
    GuessBounds(Val(us), Val(vs), pw, Lead3(us[0], us[1], us[2]), Val(us[3..]), Lead2(vs[0], vs[1]), Val(vs[2..]),
      qhat);
  }

  /** D3 to D6: one digit of the quotient, leaving the remainder in place of the dividend part. */
  method DivideStep(u: array<u32>, uj: nat, v: array<u32>, vo: nat, n: nat) returns (qhat: u32)
    requires u != v && n >= 2 && uj + n < u.Length && vo + n < v.Length
    requires AllDigits(u[uj..uj + n + 1]) && AllDigits(v[vo + 1..vo + n + 1]) && v[vo + 1] > 0
    requires Val(u[uj..uj + n + 1]) < Val(v[vo + 1..vo + n + 1]) * B
    modifies u
    ensures forall k :: 0 <= k < u.Length && !(uj <= k <= uj + n) ==> u[k] == old(u[k])
    ensures AllDigits(u[uj..uj + n + 1]) && qhat < B
    ensures old(Val(u[uj..uj + n + 1])) == qhat * Val(v[vo + 1..vo + n + 1]) + Val(u[uj..uj + n + 1])
    ensures 0 <= Val(u[uj..uj + n + 1]) < Val(v[vo + 1..vo + n + 1])
  {
    ghost var us, vs := u[uj..uj + n + 1], v[vo + 1..vo + n + 1];
    assert us[0] == u[uj] && us[1] == u[uj + 1] && us[2] == u[uj + 2];
    assert vs[0] == v[vo + 1] && vs[1] == v[vo + 2];
    LeadDigitLe(us, vs);
    qhat := GuessDigit(u[uj], u[uj + 1], u[uj + 2], v[vo + 1], v[vo + 2]);
    GuessForDigits(us, vs, qhat);
    NotTooBigNonneg(us, vs, qhat);
    var t := MultiplySubtract(u, uj, v, vo, n, qhat);
    StepArithmetic(Val(us), Val(vs), qhat, Val(u[uj..uj + n + 1]), HiHalf(t) != 0, Pow(n + 1));
    if HiHalf(t) != 0 {
      qhat := qhat - 1;
      AddBack(u, uj, v, vo, n);
    }
  }

  lemma NotTooBigNonneg(us: seq<int>, vs: seq<int>, qhat: int)
    requires Val(vs) > 0 && AllDigits(us) && Val(us) / Val(vs) <= qhat
    ensures 0 <= Val(us) / Val(vs) <= qhat
  {
    ValBound(us);
    NotTooBig(Val(us), Val(vs), 0);
  }

  // ---------------------------------------------------------------------
  // D2 to D7: all digits of the quotient
  // ---------------------------------------------------------------------

  /** `x * B^k`, by repeated multiplication with the constant base. */
  ghost function Scale(x: int, k: nat): int { if k == 0 then x else B * Scale(x, k - 1) }

  lemma {:induction false} ScalePow(x: int, k: nat)
    ensures Scale(x, k) == x * Pow(k)
  {
    if k > 0 {
      ScalePow(x, k - 1);
      var p := Pow(k - 1);
      assert B * (x * p) == x * (B * p);
    }
  }

  lemma {:induction false} ScaleAdd(x: int, y: int, k: nat)
    ensures Scale(x + y, k) == Scale(x, k) + Scale(y, k)
  {
    if k > 0 {
      ScaleAdd(x, y, k - 1);
    }
  }

  lemma {:induction false} ScaleUp(x: int, k: nat)
    ensures Scale(B * x, k) == Scale(x, k + 1)
  {
    if k > 0 {
      ScaleUp(x, k - 1);
    }
  }

  /** The invariant of the main loop: digits found so far, and what is left to divide. */
  ghost predicate Progress(total: int, qs: seq<int>, vs: seq<int>, rest: seq<int>) {
    && AllDigits(qs) && AllDigits(vs) && AllDigits(rest) && |rest| >= |vs| > 0
    && Val(rest[..|vs|]) < Val(vs)
    && total == Scale(Val(qs) * Val(vs), |rest| - |vs|) + Val(rest)
  }

  ghost function Reached(total: int, qs: seq<int>, vs: seq<int>): iset<seq<int>> {
    iset rest: seq<int> | Progress(total, qs, vs, rest)
  }

  /** The part divided at one position is below `B` times the divisor. */
  lemma PartBound(was: seq<int>, vs: seq<int>)
    requires AllDigits(was) && |was| > |vs| && Val(was[..|vs|]) < Val(vs)
    ensures Val(was[..|vs| + 1]) < Val(vs) * B
  {
    var n := |vs|;
    assert was[..n + 1] == was[..n] + [was[n]];
    ValSnoc(was[..n], was[n]);
  }

  /** One round at the top of `was`: a quotient digit, and the remainder in place of the part divided. */
  ghost predicate Round(vs: seq<int>, was: seq<int>, now: seq<int>, qhat: int) {
    && |was| == |now| > |vs| && AllDigits(now) && 0 <= qhat < B
    && was[|vs| + 1..] == now[|vs| + 1..]
    && Val(was[..|vs| + 1]) == qhat * Val(vs) + Val(now[..|vs| + 1])
    && Val(now[..|vs| + 1]) < Val(vs)
  }

  /** One round keeps the invariant and clears the leading digit. */
  lemma RoundDigits(total: int, qs: seq<int>, vs: seq<int>, was: seq<int>, now: seq<int>, qhat: int)
    requires Progress(total, qs, vs, was) && Round(vs, was, now, qhat)
    ensures now[0] == 0 && Progress(total, qs + [qhat], vs, now[1..])
  {
    DropLead(now, vs);
    ValSnoc(qs, qhat);
    RoundProduct(Val(qs), Val(qs + [qhat]), Val(vs), qhat);
    RoundValue(total, Val(qs) * Val(vs), Val(qs + [qhat]) * Val(vs), qhat * Val(vs), |vs|, was, now);
  }

  lemma RoundProduct(q: int, q': int, v: int, qhat: int)
    requires q' == q * B + qhat
    ensures q' * v == B * (q * v) + qhat * v
  {
    Distribute(q * B, qhat, v);
  }

  lemma DropLead(now: seq<int>, vs: seq<int>)
    requires AllDigits(now) && AllDigits(vs) && |now| > |vs| && Val(now[..|vs| + 1]) < Val(vs)
    ensures now[0] == 0
    ensures Val(now[1..][..|vs|]) < Val(vs) && Val(now) == Val(now[1..])
  {
    var top := now[..|vs| + 1];
    assert top[1..] == now[1..][..|vs|] && top[0] == now[0];
    LeadZero(top, vs);
    ValDropZero(top);
    ValDropZero(now);
  }

  lemma ValDropZero(s: seq<int>)
    requires s != [] && s[0] == 0
    ensures Val(s) == Val(s[1..])
  {
    ValHead(s);
  }

  lemma RoundValue(total: int, w: int, w': int, x: int, n: nat, was: seq<int>, now: seq<int>)
    requires |was| == |now| > n && was[n + 1..] == now[n + 1..]
    requires total == Scale(w, |was| - n) + Val(was)
    requires w' == B * w + x && Val(was[..n + 1]) == x + Val(now[..n + 1])
    ensures total == Scale(w', |was| - n - 1) + Val(now)
  {
    var k := |was| - n - 1;
    SplitScale(was, n + 1);
    SplitScale(now, n + 1);
    ScaleAdd(x, Val(now[..n + 1]), k);
    ScaleAdd(B * w, x, k);
    ScaleUp(w, k);
  }

  lemma {:induction false} ConcatScale(s: seq<int>, t: seq<int>)
    ensures Val(s + t) == Scale(Val(s), |t|) + Val(t)
  {
    if t == [] {
      assert s + t == s;
    } else {
      assert (s + t)[..|s + t| - 1] == s + t[..|t| - 1];
      ConcatScale(s, t[..|t| - 1]);
    }
  }

  lemma SplitScale(s: seq<int>, n: nat)
    requires n <= |s|
    ensures Val(s) == Scale(Val(s[..n]), |s| - n) + Val(s[n..])
  {
    assert s == s[..n] + s[n..];
    ConcatScale(s[..n], s[n..]);
  }

  lemma LeadZero(s: seq<int>, vs: seq<int>)
    requires |s| == |vs| + 1 && AllDigits(s) && AllDigits(vs) && Val(s) < Val(vs)
    ensures s[0] == 0
  {
    ValHead(s);
    ValBound(s[1..]);
    ValBound(vs);
    if s[0] >= 1 {
      MulAtLeast(s[0], Pow(|vs|));
      assert false;
    }
  }

  /** The loop body of the main loop. */
  method DivideRound(u: array<u32>, uj: nat, v: array<u32>, vo: nat, q: array<u32>, qj: nat, n: nat,
                     ghost vs: seq<u32>, ghost rest: seq<u32>)
    returns (ghost now: seq<u32>)
    requires u != v && u != q && v != q && n >= 2
    requires n < |rest| && uj + |rest| == u.Length && vo + n < v.Length && qj < q.Length
    requires rest == u[uj..] && vs == v[vo + 1..vo + n + 1] && vs[0] > 0
    requires AllDigits(rest) && AllDigits(vs) && Val(rest[..n + 1]) < Val(vs) * B
    modifies u, q
    ensures u[..] == old(u[..uj]) + now && q[..qj + 1] == old(q[..qj]) + [q[qj]]
    ensures Round(vs, rest, now, q[qj])
  {
    assert u[uj..uj + n + 1] == rest[..n + 1] && v[vo + 1] == vs[0];
    var qhat := DivideStep(u, uj, v, vo, n);
    q[qj] := qhat;
    now := u[uj..];
    assert forall k :: n + 1 <= k < |rest| ==> now[k] == u[uj + k] == rest[k];
    assert now[..n + 1] == u[uj..uj + n + 1] && now[n + 1..] == rest[n + 1..];
    JoinDigits(now, rest, n + 1);
  }

  lemma JoinDigits(now: seq<int>, rest: seq<int>, k: nat)
    requires k <= |now| == |rest| && AllDigits(now[..k]) && AllDigits(rest) && now[k..] == rest[k..]
    ensures AllDigits(now)
  {
    forall i | 0 <= i < |now|
      ensures 0 <= now[i] < B
    {
      if i < k {
        assert now[i] == now[..k][i];
      } else {
        assert now[i] == now[k..][i - k] == rest[k..][i - k];
      }
    }
  }

  /** The loop body once more, with the state of the loop before and after it. */
  method DivideRoundKeeps(u: array<u32>, uj: nat, v: array<u32>, vo: nat, q: array<u32>, qj: nat, n: nat,
                          ghost total: int, ghost uhead: seq<u32>, ghost qhead: seq<u32>,
                          ghost qs: seq<u32>, ghost vs: seq<u32>, ghost rest: seq<u32>)
    returns (ghost qs': seq<u32>, ghost rest': seq<u32>)
    requires u != v && u != q && v != q && n >= 2 && vo + n < v.Length && qj < q.Length
    requires vs == v[vo + 1..vo + n + 1] && vs[0] > 0 && rest in Reached(total, qs, vs) && |rest| > n
    requires |uhead| == uj && u[..] == uhead + rest && q[..qj] == qhead + qs
    modifies u, q
    ensures u[..] == uhead + [0] + rest' && |rest'| == |rest| - 1
    ensures q[..qj + 1] == qhead + qs' && |qs'| == |qs| + 1
    ensures rest' in Reached(total, qs', vs)
  {
    assert rest == u[uj..] && uhead == u[..uj];
    PartBound(rest, vs);
    ghost var now := DivideRound(u, uj, v, vo, q, qj, n, vs, rest);
    RoundDigits(total, qs, vs, rest, now, q[qj]);
    SnocZero(uhead, now);
    ConcatAssoc(qhead, qs, [q[qj]]);
    qs', rest' := qs + [q[qj]], now[1..];
  }

  ghost function Zeros(k: nat): (z: seq<u32>)
    ensures |z| == k
  {
    if k == 0 then [] else Zeros(k - 1) + [0]
  }

  /** The main loop: `q[0..m]` becomes the quotient and `u[0..m+n]` the remainder. */
  method DivideDigits(u: array<u32>, uo: nat, v: array<u32>, vo: nat, q: array<u32>, qo: nat, m: nat, n: nat,
                      ghost us: seq<u32>, ghost vs: seq<u32>, ghost total: int)
    returns (ghost qs: seq<u32>, ghost rest: seq<u32>)
    requires u != v && u != q && v != q && n >= 2
    requires uo + m + n + 1 == u.Length && vo + n < v.Length && qo + m + 1 == q.Length
    requires us == u[uo..] && vs == v[vo + 1..vo + n + 1] && vs[0] > 0 && us in Reached(total, [], vs)
    modifies u, q
    ensures u[..] == old(u[..uo]) + Zeros(m + 1) + rest && |rest| == n
    ensures q[..] == old(q[..qo]) + qs && rest in Reached(total, qs, vs)
  {
    ghost var uhead, head, qhead := u[..uo], u[..uo], q[..qo];
    qs, rest := [], us;
    assert uhead + Zeros(0) == uhead;
    var j: nat := 0;
    while j <= m
      invariant j <= m + 1 && vs == v[vo + 1..vo + n + 1] && |rest| == m + n + 1 - j
      invariant u[..] == head + rest && head == uhead + Zeros(j)
      invariant q[..qo + j] == qhead + qs && rest in Reached(total, qs, vs)
    {
      OneMoreZero(uhead, j);
      qs, rest := DivideRoundKeeps(u, uo + j, v, vo, q, qo + j, n, total, head, qhead, qs, vs, rest);
      head := head + [0];
      j := j + 1;
    }
    assert q[..qo + j] == q[..];
  }

  lemma StartDivision(us: seq<int>, vs: seq<int>)
    requires AllDigits(us) && AllDigits(vs) && |us| >= |vs| > 0 && Val(us[..|vs|]) < Val(vs)
    ensures Progress(Val(us), [], vs, us)
  {
    ScalePow(0, |us| - |vs|);
  }

  lemma SnocZero(head: seq<u32>, now: seq<u32>)
    requires now != [] && now[0] == 0
    ensures head + now == head + [0] + now[1..]
  {
  }

  lemma OneMoreZero(head: seq<u32>, j: nat)
    ensures head + Zeros(j) + [0] == head + Zeros(j + 1)
  {
    ConcatAssoc(head, Zeros(j), [0]);
  }

  lemma ConcatAssoc(a: seq<u32>, b: seq<u32>, c: seq<u32>)
    ensures a + b + c == a + (b + c)
  {
  }

  lemma FinishDivision(total: int, qs: seq<int>, vs: seq<int>, rest: seq<int>)
    requires Progress(total, qs, vs, rest) && |rest| == |vs|
    ensures Val(vs) > 0 && total / Val(vs) == Val(qs) && total % Val(vs) == Val(rest)
  {
    assert rest[..|vs|] == rest;
    ValBound(rest);
    DivUnique(total, Val(vs), Val(qs), Val(rest));
  }

  // ---------------------------------------------------------------------
  // __qdivrem and its callers
  // ---------------------------------------------------------------------

  lemma ValFour(a: int, b: int, c: int, d: int)
    ensures Val([a, b, c, d]) == (a * B + b) * WORD + (c * B + d)
  {
    ValTwo(a, b);
    ValSnoc([a, b], c);
    ValSnoc([a, b, c], d);
    assert [a, b] + [c] == [a, b, c] && [a, b, c] + [d] == [a, b, c, d];
  }

  /** A 64-bit value as digits 1 to 4 of an array, digit 0 cleared. */
  method ToDigits(x: u64) returns (a: array<u32>)
    ensures fresh(a) && a.Length == 5 && a[0] == 0
    ensures AllDigits(a[..]) && Val(a[..]) == x
  {
    var hi: u32, lo: u32 := x / WORD, x % WORD;
    a := new u32[5];
    a[0] := 0;
    a[1], a[2], a[3], a[4] := HiHalf(hi), LoHalf(hi), HiHalf(lo), LoHalf(lo);
    ValFour(a[1], a[2], a[3], a[4]);
    assert a[..][1..] == [a[1], a[2], a[3], a[4]];
    ValDropZero(a[..]);
  }

  /** Digits 1 to 4 put together again. */
  method FromDigits(a: array<u32>) returns (x: u64)
    requires a.Length == 5 && a[0] == 0 && AllDigits(a[..])
    ensures x == Val(a[..])
  {
    assert a[..][1] == a[1] && a[..][2] == a[2] && a[..][3] == a[3] && a[..][4] == a[4];
    var hi, lo := Combine(a[1], a[2]), Combine(a[3], a[4]);
    x := hi * WORD + lo;
    ValFour(a[1], a[2], a[3], a[4]);
    assert a[..][1..] == [a[1], a[2], a[3], a[4]];
    ValDropZero(a[..]);
  }

  /** One step of schoolbook division by a single digit. */
  lemma ShortStep(r: int, d: int, t: int)
    requires 0 <= r < t && 0 <= d < B && 0 < t < B
    ensures r * B + d == (r * B + d) / t * t + (r * B + d) % t
    ensures 0 <= (r * B + d) / t < B && 0 <= (r * B + d) % t < t
  {
    var x := r * B + d;
    MulComm(t, x / t);
    NotTooBig(x, t, 0);
    TooBig(x, t, B);
  }

  /** The divisor has one digit: divide digit by digit. */
  method ShortDivide(u: array<u32>, t: u32) returns (q: u64, r: u64)
    requires u.Length == 5 && u[0] == 0 && AllDigits(u[..]) && 0 < t < B
    ensures q == Val(u[..]) / t && r == Val(u[..]) % t
  {
    ghost var us := u[..];
    assert us[1] == u[1] && us[2] == u[2] && us[3] == u[3] && us[4] == u[4];
    ShortStep(0, u[1], t);
    var q1, r1 := u[1] / t, u[1] % t;
    var rbj := Combine(r1, u[2]);
    ShortStep(r1, u[2], t);
    var q2, r2 := rbj / t, rbj % t;
    rbj := Combine(r2, u[3]);
    ShortStep(r2, u[3], t);
    var q3, r3 := rbj / t, rbj % t;
    rbj := Combine(r3, u[4]);
    ShortStep(r3, u[4], t);
    var q4, r4 := rbj / t, rbj % t;
    q := Combine(q1, q2) * WORD + Combine(q3, q4);
    r := r4;
    ValFour(u[1], u[2], u[3], u[4]);
    assert us[1..] == [u[1], u[2], u[3], u[4]];
    ValDropZero(us);
    ShortArithmetic(t, u[1], u[2], u[3], u[4], q1, q2, q3, q4, r1, r2, r3, r4);
    DivUnique(Val(us), t, q, r);
  }

  lemma ShortArithmetic(t: int, a: int, b: int, c: int, d: int,
                        q1: int, q2: int, q3: int, q4: int, r1: int, r2: int, r3: int, r4: int)
    requires a == q1 * t + r1 && r1 * B + b == q2 * t + r2 && r2 * B + c == q3 * t + r3 && r3 * B + d == q4 * t + r4
    ensures (a * B + b) * WORD + (c * B + d) == ((q1 * B + q2) * WORD + (q3 * B + q4)) * t + r4
  {
    Distribute((q1 * B + q2) * WORD, q3 * B + q4, t);
    Distribute(q3 * B, q4, t);
    Distribute(q1 * B, q2, t);
    MulAssoc(q1, B, t);
    MulComm(B, t);
    MulAssoc(q1, t, B);
    MulAssoc(q3, B, t);
    MulAssoc(q3, t, B);
    MulAssoc(q1 * B + q2, WORD, t);
    MulComm(WORD, t);
    MulAssoc(q1 * B + q2, t, WORD);
  }

  /** D1: the shift that brings the leading digit of the divisor to `B / 2` or more. */
  method NormalShift(v1: u32) returns (d: nat)
    requires 0 < v1 < B
    ensures d < 16 && B / 2 <= v1 * Pow2(d) < B
  {
    d := 0;
    var t := v1;
    while t < B / 2
      invariant 0 < t < B && t == v1 * Pow2(d)
      decreases B - t
    {
      assert v1 * Pow2(d + 1) == 2 * (v1 * Pow2(d));
      t := 2 * t;
      d := d + 1;
    }
    ShiftBelowDigit(v1, d);
  }

  lemma ShiftBelowDigit(v1: int, d: nat)
    requires 0 < v1 && v1 * Pow2(d) < B
    ensures d < 16
  {
    MulAtLeast(v1, Pow2(d));
    if d >= 16 {
      Pow2Add(16, d - 16);
      Pow2At16();
      MulAtLeast(Pow2(d - 16), B);
      MulComm(B, Pow2(d - 16));
      assert false;
    }
  }

  /** Scaling dividend and divisor keeps the quotient and scales the remainder. */
  lemma ScaledDivision(u: int, v: int, p: int)
    requires v > 0 && p > 0
    ensures v * p > 0 && u * p / (v * p) == u / v && u * p % (v * p) == u % v * p
  {
    var q, r := u / v, u % v;
    MulComm(v, q);
    Distribute(q * v, r, p);
    MulAssoc(q, v, p);
    MulAtLeast(v, p);
    MulLe(0, r, p);
    MulLe(r, v - 1, p);
    Distribute(v, 1, p);
    DivUnique(u * p, v * p, q, r * p);
  }

  lemma LeadAtLeast(s: seq<int>)
    requires s != [] && AllDigits(s)
    ensures s[0] > 0 <==> Val(s) >= Pow(|s| - 1)
  {
    ValHead(s);
    ValBound(s[1..]);
    if s[0] > 0 {
      MulAtLeast(s[0], Pow(|s| - 1));
    }
  }

  /** `u` has at least `n` significant digits when it is not below an `n`-digit divisor. */
  lemma EnoughDigits(us: seq<int>, vs: seq<int>, k: nat)
    requires AllDigits(us) && AllDigits(vs) && vs != [] && vs[0] > 0 && Val(us) >= Val(vs)
    requires k <= |us| && forall i :: 0 <= i < k ==> us[i] == 0
    ensures |us| - k >= |vs|
  {
    ValSkipZeros(us, k);
    ValBound(us[k..]);
    LeadAtLeast(vs);
    if |us| - k < |vs| {
      PowMonotone(|us| - k, |vs| - 1);
      assert false;
    }
  }

  lemma PowMonotone(a: nat, b: nat)
    requires a <= b
    ensures Pow(a) <= Pow(b)
  {
    PowAdd(a, b - a);
    MulAtLeast(Pow(b - a), Pow(a));
    MulComm(Pow(b - a), Pow(a));
  }

  /** After normalising, the first `n` digits of the dividend stay below the divisor. */
  lemma NormalisedTop(us: seq<int>, vs: seq<int>, u: int, p: int)
    requires |us| > |vs| > 0 && AllDigits(us) && p > 0
    requires Val(us) == u * p && u < Pow(|us| - 1) && Val(vs) >= Pow(|vs| - 1) * p
    ensures Val(us[..|vs|]) < Val(vs)
  {
    var n, k := |vs|, |us| - |vs|;
    ValSplit(us, n);
    ValBound(us[n..]);
    PowAdd(n - 1, k);
    TopArithmetic(u, p, Pow(n - 1), Pow(k), Val(us[..n]), Val(us[n..]));
  }

  lemma TopArithmetic(u: int, p: int, a: int, b: int, top: int, low: int)
    requires top * b + low == u * p && low >= 0 && u < a * b && p > 0 && b > 0
    ensures top < a * p
  {
    MulLe(u + 1, a * b, p);
    Distribute(u, 1, p);
    assert top * b < a * b * p;
    assert a * b * p == a * p * b;
    if top >= a * p {
      MulLe(a * p, top, b);
      assert false;
    }
  }

  /** Where the quotient starts: skip the dividend's leading zeros. */
  method SkipZeros(u: array<u32>, n: nat, ghost vs: seq<int>) returns (uo: nat, m: nat)
    requires u.Length == 5 && u[0] == 0 && AllDigits(u[..]) && AllDigits(vs) && |vs| == n && 2 <= n <= 4 && vs[0] > 0
    requires Val(u[..]) >= Val(vs)
    ensures uo + m + n == 4 && u[uo + 1] != 0 && forall k :: 0 <= k <= uo ==> u[k] == 0
  {
    uo, m := 0, 4 - n;
    EnoughDigits(u[..], vs, 1);
    while u[uo + 1] == 0
      invariant uo + m + n == 4 && forall k :: 0 <= k <= uo ==> u[k] == 0
      decreases m
    {
      EnoughDigits(u[..], vs, uo + 2);
      uo := uo + 1;
      m := m - 1;
    }
  }

  /** D1: shift dividend and divisor by `d` bits. */
  method Normalise(u: array<u32>, uo: nat, v: array<u32>, vo: nat, n: nat, d: nat)
    requires u != v && u.Length == v.Length == 5 && vo + n == 4 && n > 0 && uo + n <= 4 && d < 16
    requires AllDigits(u[..]) && AllDigits(v[..])
    requires u[uo] == 0 && v[vo + 1] * Pow2(d) < B
    modifies u, v
    ensures u[..uo] == old(u[..uo])
    ensures AllDigits(u[uo..]) && AllDigits(v[vo + 1..])
    ensures Val(u[uo..]) == old(Val(u[uo..])) * Pow2(d)
    ensures Val(v[vo + 1..]) == old(Val(v[vo + 1..])) * Pow2(d)
  {
    ghost var head := u[..uo];
    ShiftUp(v, vo + 1, d);
    ZeroShifts(d);
    ShiftUp(u, uo, d);
    assert u[..uo] == head;
  }

  lemma ZeroShifts(d: nat)
    ensures 0 * Pow2(d) < B
  {
  }

  /** Shift the digits from `off` on, when nothing falls out on the left. */
  method ShiftUp(p: array<u32>, off: nat, d: nat)
    requires p.Length == 5 && off < 5 && d < 16 && AllDigits(p[..]) && p[off] * Pow2(d) < B
    modifies p
    ensures forall k :: 0 <= k < off ==> p[k] == old(p[k])
    ensures AllDigits(p[off..]) && Val(p[off..]) == old(Val(p[off..])) * Pow2(d)
  {
    assert forall k :: 0 <= k < 5 ==> p[k] == p[..][k];
    if d > 0 {
      assert p[off..5] == p[off..];
      FallsOut(p[off], d);
      Shl(p, off, 4 - off, d);
      assert p[off..5] == p[off..];
    } else {
      DigitsOfSuffix(p[..], off);
      assert p[..][off..] == p[off..];
    }
  }

  /** Nothing is lost on the left when the shifted digit is still a digit. */
  lemma FallsOut(x: u32, d: nat)
    requires x < B && d <= 16 && x * Pow2(d) < B
    ensures ShiftRight(x, 16 - d) == 0
  {
    ShiftDigit(x, d);
  }

  /** The digits that matter and the shift applied to them: everything before D2. */
  method Prepare(u: array<u32>, v: array<u32>, vo: nat, n: nat) returns (uo: nat, m: nat, d: nat)
    requires u != v && u.Length == v.Length == 5 && vo + n == 4 && n >= 2
    requires u[0] == 0 && AllDigits(u[..]) && AllDigits(v[..]) && v[vo + 1] > 0
    requires Val(u[..]) >= Val(v[vo + 1..])
    modifies u, v
    ensures uo + m + n == 4 && d < 16 && v[vo + 1] > 0
    ensures forall k :: 0 <= k < uo ==> u[k] == 0
    ensures old(Val(v[vo + 1..])) > 0
    ensures Val(v[vo + 1..]) == old(Val(v[vo + 1..])) * Pow2(d)
    ensures Progress(old(Val(u[..])) * Pow2(d), [], v[vo + 1..], u[uo..])
  {
    ghost var dividend, divisor := Val(u[..]), Val(v[vo + 1..]);
    ghost var vs := v[vo + 1..];
    assert v[..][vo + 1..] == vs && vs[0] == v[..][vo + 1] == v[vo + 1];
    DigitsOfSuffix(v[..], vo + 1);
    uo, m := SkipZeros(u, n, vs);
    d := NormalShift(v[vo + 1]);
    LeadAtLeast(vs);
    ghost var zeros := u[..uo];
    SignificantPart(u[..], uo);
    assert u[..][uo..] == u[uo..];
    Normalise(u, uo, v, vo, n, d);
    assert forall k :: 0 <= k < uo ==> u[k] == zeros[k];
    Prepared(u[uo..], v[vo + 1..], dividend, divisor, Pow2(d));
  }

  lemma Prepared(us: seq<u32>, vs: seq<u32>, u: int, v: int, p: int)
    requires |us| > |vs| > 0 && AllDigits(us) && AllDigits(vs) && p > 0
    requires Val(us) == u * p && u < Pow(|us| - 1) && Val(vs) == v * p && v >= Pow(|vs| - 1)
    ensures vs[0] > 0 && Progress(u * p, [], vs, us)
  {
    MulLe(Pow(|vs| - 1), v, p);
    NormalisedTop(us, vs, u, p);
    NormalisedLead(vs, p);
    StartDivision(us, vs);
  }

  /** The divisor has two digits or more: Algorithm D. */
  method LongDivide(u: array<u32>, v: array<u32>, vo: nat, n: nat) returns (q: u64, r: u64)
    requires u != v && u.Length == v.Length == 5 && vo + n == 4 && n >= 2
    requires u[0] == 0 && AllDigits(u[..]) && AllDigits(v[..]) && v[vo + 1] > 0
    requires Val(u[..]) >= Val(v[vo + 1..])
    modifies u, v
    ensures old(Val(v[vo + 1..])) > 0
    ensures q == old(Val(u[..])) / old(Val(v[vo + 1..])) && r == old(Val(u[..])) % old(Val(v[vo + 1..]))
  {
    ghost var dividend, divisor := Val(u[..]), Val(v[vo + 1..]);
    var uo, m, d := Prepare(u, v, vo, n);
    ghost var zeros, vs := u[..uo], v[vo + 1..];
    assert vs == v[vo + 1..vo + n + 1];
    var qspace := ZeroQuotient(4 - m);
    ghost var qhead := qspace[..4 - m];
    ghost var qs, rest := DivideDigits(u, uo, v, vo, qspace, 4 - m, m, n, u[uo..], vs, dividend * Pow2(d));
    FinishDivision(dividend * Pow2(d), qs, vs, rest);
    ScaledDivision(dividend, divisor, Pow2(d));
    q := AssembleQuotient(qspace, qhead, qs);
    r := AssembleRemainder(u, uo, m, n, d, zeros, rest, dividend % divisor);
  }

  lemma DigitsOfSuffix(s: seq<int>, k: nat)
    requires k <= |s| && AllDigits(s)
    ensures AllDigits(s[k..])
  {
  }

  lemma SignificantPart(us: seq<int>, uo: nat)
    requires uo < |us| && AllDigits(us) && forall k :: 0 <= k <= uo ==> us[k] == 0
    ensures Val(us[uo..]) == Val(us) < Pow(|us| - uo - 1)
  {
    ValSkipZeros(us, uo);
    ValDropZero(us[uo..]);
    DigitsOfSuffix(us, uo);
    ValBound(us[uo..][1..]);
  }

  lemma NormalisedLead(vs: seq<int>, p: int)
    requires vs != [] && AllDigits(vs) && p > 0 && Val(vs) >= Pow(|vs| - 1) * p
    ensures vs[0] > 0
  {
    MulAtLeast(p, Pow(|vs| - 1));
    MulComm(p, Pow(|vs| - 1));
    LeadAtLeast(vs);
  }

  /** `qspace` with the digits above the quotient cleared. */
  method ZeroQuotient(count: nat) returns (q: array<u32>)
    requires count <= 5
    ensures fresh(q) && q.Length == 5 && forall k :: 0 <= k < count ==> q[k] == 0
  {
    q := new u32[5];
    var i := count - 1;
    while i >= 0
      invariant -1 <= i < count && forall k :: i < k < count ==> q[k] == 0
    {
      q[i] := 0;
      i := i - 1;
    }
  }

  method AssembleQuotient(qspace: array<u32>, ghost head: seq<u32>, ghost qs: seq<u32>) returns (q: u64)
    requires qspace.Length == 5 && qspace[..] == head + qs && AllDigits(qs)
    requires |head| > 0 && forall k :: 0 <= k < |head| ==> head[k] == 0
    ensures q == Val(qs)
  {
    assert qspace[0] == qspace[..][0] == 0;
    assert AllDigits(head + qs);
    ValSkipZeros(head + qs, |head|);
    q := FromDigits(qspace);
  }

  /** Shift the remainder back by `d` and put its digits together. */
  method AssembleRemainder(u: array<u32>, uo: nat, m: nat, n: nat, d: nat,
                           ghost head: seq<u32>, ghost rest: seq<u32>, ghost rem: nat) returns (r: u64)
    requires u.Length == 5 && uo + m + n == 4 && n > 0 && d < 16
    requires |head| == uo && (forall k :: 0 <= k < uo ==> head[k] == 0)
    requires u[..] == head + Zeros(m + 1) + rest && AllDigits(rest) && Val(rest) == rem * Pow2(d)
    modifies u
    ensures r == rem
  {
    ZerosAreZero(m + 1);
    RemainderPlace(u[..], uo + m + 1, head, Zeros(m + 1), rest);
    if d > 0 {
      assert u[uo + m + 1..uo + m + n + 1] == rest;
      ShiftRemainder(u, uo, m, n, d, rem);
      assert u[uo + m + 1..uo + m + n + 1] == u[uo + m + 1..];
    }
    ValSkipZeros(u[..], uo + m + 1);
    assert u[..][uo + m + 1..] == u[uo + m + 1..];
    r := FromDigits(u);
  }

  lemma RemainderPlace(us: seq<u32>, k: nat, head: seq<u32>, zeros: seq<u32>, rest: seq<u32>)
    requires us == head + zeros + rest && k == |head| + |zeros|
    requires (forall i :: 0 <= i < |head| ==> head[i] == 0) && forall i :: 0 <= i < |zeros| ==> zeros[i] == 0
    ensures us[k..] == rest && forall i :: 0 <= i < k ==> us[i] == 0
  {
  }

  lemma {:induction false} ZerosAreZero(k: nat)
    ensures forall i :: 0 <= i < k ==> Zeros(k)[i] == 0
  {
    if k > 0 {
      ZerosAreZero(k - 1);
    }
  }

  /** `__qdivrem`: quotient and remainder of any two unsigned 64-bit numbers. */
  method Qdivrem(uq: u64, vq: u64) returns (res: DivResult)
    ensures vq == 0 ==> res == DivideByZero
    ensures vq > 0 ==> res == Quotient(uq / vq, uq % vq)
  {
    if vq == 0 {
      return DivideByZero;
    }
    if uq < vq {
      DivUnique(uq, vq, 0, uq);
      return Quotient(0, uq);
    }
    var u := ToDigits(uq);
    var v := ToDigits(vq);
    var vo, n := 0, 4;
    while v[vo + 1] == 0
      invariant vo + n == 4 && n >= 2 && u.Length == v.Length == 5 && u != v
      invariant u[0] == 0 && AllDigits(u[..]) && AllDigits(v[..]) && Val(u[..]) == uq && Val(v[..]) == vq
      invariant forall k :: 0 <= k <= vo ==> v[k] == 0
      invariant fresh(u) && fresh(v)
      decreases n
    {
      n := n - 1;
      if n == 1 {
        LastDigit(v[..]);
        var q, r := ShortDivide(u, v[vo + 2]);
        return Quotient(q, r);
      }
      vo := vo + 1;
    }
    ValSkipZeros(v[..], vo + 1);
    assert v[..][vo + 1..] == v[vo + 1..];
    var q, r := LongDivide(u, v, vo, n);
    return Quotient(q, r);
  }

  lemma LastDigit(s: seq<int>)
    requires |s| == 5 && AllDigits(s) && Val(s) > 0 && forall k :: 0 <= k <= 3 ==> s[k] == 0
    ensures Val(s) == s[4] && 0 < s[4] < B
  {
    ValSkipZeros(s, 4);
    assert s[4..] == [s[4]];
    ValOne(s[4]);
  }

  /** Division of C integers: truncation toward zero. */
  function TruncDiv(a: int, b: int): int
    requires b != 0
  {
    var q := Abs(a) / Abs(b);
    if (a < 0) != (b < 0) then -q else q
  }

  function Abs(a: int): nat { if a < 0 then -a else a }

  /** The 64-bit pattern of `x`, read as a signed number. */
  function ToSigned(x: u64): i64 {
    if x < 0x8000_0000_0000_0000 then x else x - 0x1_0000_0000_0000_0000
  }

  function Neg64(x: int): u64 { (-x) % 0x1_0000_0000_0000_0000 }

  datatype SignedResult = Trap | Value(v: i64)

  /** The quotient as C has it, except that the one that does not fit wraps to the dividend. */
  function SignedQuotient(a: i64, b: i64): int
    requires b != 0
  {
    if a == -0x8000_0000_0000_0000 && b == -1 then a else TruncDiv(a, b)
  }

  /** The magnitude of a signed number. */
  method Magnitude(a: i64) returns (r: u64)
    ensures r == Abs(a)
  {
    if a < 0 {
      r := Neg64(a);
    } else {
      r := a;
    }
  }

  /**
   * `__divdi3`: signed division by way of the unsigned one. It is exact on every pair of
   * operands except the one whose quotient does not fit, where it wraps to the dividend.
   */
  method Divdi3(a: i64, b: i64) returns (res: SignedResult)
    ensures res == if b == 0 then Trap else Value(SignedQuotient(a, b))
  {
    var ua := Magnitude(a);
    var ub := Magnitude(b);
    var neg := (a < 0) != (b < 0);
    var quot := Qdivrem(ua, ub);
    if quot.DivideByZero? {
      return Trap;
    }
    SignsRestored(a, b, ua, ub, quot.q, neg);
    var x: u64 := if neg then Neg64(quot.q) else quot.q;
    return Value(ToSigned(x));
  }

  lemma SignsRestored(a: i64, b: i64, ua: u64, ub: u64, q: u64, neg: bool)
    requires b != 0 && ua == Abs(a) && ub == Abs(b) && q == ua / ub && (neg <==> (a < 0) != (b < 0))
    ensures ToSigned(if neg then Neg64(q) else q) == SignedQuotient(a, b)
  {
    QuotientFits(ua, ub);
    SignedWrap(q);
  }

  lemma SignedWrap(q: u64)
    ensures q <= 0x8000_0000_0000_0000 ==> ToSigned(Neg64(q)) == -(q as int)
    ensures q < 0x8000_0000_0000_0000 ==> ToSigned(q) == q
  {
  }

  lemma QuotientFits(a: nat, b: nat)
    requires b > 0
    ensures 0 <= a / b <= a && (b >= 2 ==> 2 * (a / b) <= a) && (b == 1 ==> a / b == a)
  {
    MulComm(b, a / b);
    NotTooBig(a, b, 0);
    MulLe(1, b, a / b);
    if b >= 2 {
      MulLe(2, b, a / b);
    }
  }
}
