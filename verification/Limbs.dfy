/** Numbers as sequences of 32-bit limbs, the least significant first. */
module Limbs {
  import opened Bits

  const BASE: nat := 0x1_0000_0000
  const BASE2: nat := 0x1_0000_0000_0000_0000

  type Limb = x: nat | x < BASE
  /** A 64-bit intermediate: whatever is stored in one must fit. */
  type U64 = x: nat | x < BASE2

  /** `x << k` in 32 bits */
  function Shl(x: Limb, k: nat): Limb { (x * Pow2(k)) % BASE }

  function BasePow(k: nat): (p: nat)
    ensures p > 0
  {
    if k == 0 then 1 else BASE * BasePow(k - 1)
  }

  function Val(s: seq<Limb>): nat {
    if s == [] then 0 else s[0] + BASE * Val(s[1..])
  }

  lemma {:induction false} BasePowAdd(j: nat, k: nat)
    ensures BasePow(j + k) == BasePow(j) * BasePow(k)
  {
    if j > 0 {
      BasePowAdd(j - 1, k);
      Assoc(BASE, BasePow(j - 1), BasePow(k));
    }
  }

  lemma Assoc(x: int, y: int, z: int)
    ensures x * y * z == x * (y * z)
  {
  }

  lemma Dist(x: int, y: int, z: int)
    ensures (x + y) * z == x * z + y * z
  {
  }

  lemma Comm(x: int, y: int)
    ensures x * y == y * x
  {
  }

  lemma Pow32()
    ensures Pow2(32) == BASE
  {
    assert Pow2(8) == 256;
    Pow2Add(8, 8);
    Pow2Add(16, 16);
  }

  lemma {:induction false} BasePowIsPow2(k: nat)
    ensures BasePow(k) == Pow2(32 * k)
  {
    if k > 0 {
      BasePowIsPow2(k - 1);
      Pow32();
      Pow2Add(32, 32 * (k - 1));
    }
  }

  /** A number is its low limbs plus its high limbs moved up. */
  lemma {:induction false} ValConcat(s: seq<Limb>, r: seq<Limb>)
    ensures Val(s + r) == Val(s) + BasePow(|s|) * Val(r)
  {
    if s == [] {
      assert s + r == r;
    } else {
      assert (s + r)[1..] == s[1..] + r;
      ValConcat(s[1..], r);
      Assoc(BASE, BasePow(|s| - 1), Val(r));
    }
  }

  lemma ValSnoc(s: seq<Limb>, x: Limb)
    ensures Val(s + [x]) == Val(s) + x * BasePow(|s|)
  {
    ValConcat(s, [x]);
    assert Val([x]) == x;
    Comm(x, BasePow(|s|));
  }

  lemma {:induction false} ValBound(s: seq<Limb>)
    ensures Val(s) < BasePow(|s|)
  {
    if s != [] { ValBound(s[1..]); }
  }

  lemma {:induction false} ValZero(s: seq<Limb>)
    requires forall i | 0 <= i < |s| :: s[i] == 0
    ensures Val(s) == 0
  {
    if s != [] { ValZero(s[1..]); }
  }

  lemma ValPrefix(s: seq<Limb>, i: nat)
    requires i < |s|
    ensures Val(s[..i + 1]) == Val(s[..i]) + s[i] * BasePow(i)
  {
    assert s[..i + 1] == s[..i] + [s[i]];
    ValSnoc(s[..i], s[i]);
  }

  /** Storing the low limb of `n` and carrying the rest loses nothing. */
  lemma Carry(n: nat, p: nat)
    ensures n % BASE < BASE
    ensures (n % BASE) * p + (n / BASE) * (BASE * p) == n * p
  {
    assert n == (n / BASE) * BASE + n % BASE;
    Dist((n / BASE) * BASE, n % BASE, p);
    Assoc(n / BASE, BASE, p);
  }

  /** A value below the modulus that differs by a multiple of it is the residue. */
  lemma Residue(v: nat, c: int, m: nat, total: int)
    requires m > 0 && v < m && v + c * m == total
    ensures total % m == v
  {
    DivisionUnique(total, m, c, v);
  }

  lemma ModReduce(x: int, y: int, m: nat)
    requires m > 0
    ensures (x + y % m) % m == (x + y) % m
  {
    var q, s := y / m, x + y % m;
    assert y == q * m + y % m && s == (s / m) * m + s % m;
    Dist(s / m, q, m);
    DivisionUnique(x + y, m, s / m + q, s % m);
  }

  lemma MultipleVanishes(x: int, q: int, m: nat)
    requires m > 0
    ensures (x + q * m) % m == x % m
  {
    Dist(x / m, q, m);
    assert x == (x / m) * m + x % m;
    DivisionUnique(x + q * m, m, x / m + q, x % m);
  }
}
