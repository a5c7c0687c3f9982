/** Powers of two and bitwise operations on natural numbers. */
module Bits {
  function Pow2(k: nat): (p: nat)
    ensures p > 0
  {
    if k == 0 then 1 else 2 * Pow2(k - 1)
  }

  lemma {:induction false} Pow2Add(j: nat, k: nat)
    ensures Pow2(j + k) == Pow2(j) * Pow2(k)
  {
    if j > 0 { Pow2Add(j - 1, k); }
  }

  lemma {:induction false} Pow2Monotone(j: nat, k: nat)
    requires j <= k
    ensures Pow2(j) <= Pow2(k)
  {
    if j < k { Pow2Monotone(j, k - 1); }
  }

  /** Bit `k` of `a`. */
  predicate Bit(a: nat, k: nat) {
    if k == 0 then a % 2 == 1 else Bit(a / 2, k - 1)
  }

  /** The bitwise operators `|` and `&` of the source. */
  function Or(a: nat, b: nat): nat {
    if a == 0 then b else if b == 0 then a
    else 2 * Or(a / 2, b / 2) + (if a % 2 == 1 || b % 2 == 1 then 1 else 0)
  }

  function And(a: nat, b: nat): nat {
    if a == 0 || b == 0 then 0
    else 2 * And(a / 2, b / 2) + (if a % 2 == 1 && b % 2 == 1 then 1 else 0)
  }

  lemma {:induction false} OrBit(a: nat, b: nat, k: nat)
    ensures Bit(Or(a, b), k) <==> Bit(a, k) || Bit(b, k)
  {
    ZeroBit(k);
    if a != 0 && b != 0 && k > 0 { OrBit(a / 2, b / 2, k - 1); }
  }

  lemma {:induction false} ZeroBit(k: nat)
    ensures !Bit(0, k)
  {
    if k > 0 { ZeroBit(k - 1); }
  }

  lemma {:induction false} Pow2Bit(j: nat, k: nat)
    ensures Bit(Pow2(j), k) <==> j == k
  {
    if j == 0 {
      if k > 0 { ZeroBit(k - 1); }
    } else if k > 0 {
      assert Pow2(j) / 2 == Pow2(j - 1);
      Pow2Bit(j - 1, k - 1);
    }
  }

  /** When one operand ends where the other begins, `|` is addition. */
  lemma {:induction false} OrDisjoint(high: nat, low: nat, k: nat)
    requires high % Pow2(k) == 0 && low < Pow2(k)
    ensures Or(high, low) == Or(low, high) == high + low
  {
    if k > 0 && high != 0 && low != 0 {
      var q := high / Pow2(k);
      assert high == q * Pow2(k) == 2 * (q * Pow2(k - 1));
      var half := q * Pow2(k - 1);
      MultipleOf(q, Pow2(k - 1));
      OrDisjoint(half, low / 2, k - 1);
    }
  }

  /** Setting a bit that is not set adds its value. */
  lemma {:induction false} OrPow2(a: nat, k: nat)
    requires !Bit(a, k)
    ensures Or(a, Pow2(k)) == a + Pow2(k)
  {
    if k > 0 && a != 0 { OrPow2(a / 2, k - 1); }
  }

  lemma {:induction false} GapBit(q: nat, low: nat, k: nat)
    requires low < Pow2(k)
    ensures !Bit(q * Pow2(k + 1) + low, k)
  {
    assert q * Pow2(k + 1) == 2 * (q * Pow2(k));
    if k > 0 { GapBit(q, low / 2, k - 1); }
  }

  lemma MultipleOf(q: nat, m: nat)
    requires m > 0
    ensures (q * m) % m == 0 && (q * m) / m == q
  {
    DivisionUnique(q * m, m, q, 0);
  }

  /** A quotient and a remainder in range are the quotient and the remainder. */
  lemma DivisionUnique(a: int, m: int, q: int, r: int)
    requires m > 0 && a == q * m + r && 0 <= r < m
    ensures a / m == q && a % m == r
  {
    var q', r' := a / m, a % m;
    assert a == q' * m + r';
    assert (q - q') * m == r' - r;
    if q > q' { Above(q - q', m); }
    if q < q' { Above(q' - q, m); }
  }

  lemma Above(k: int, m: int)
    requires k >= 1 && m > 0
    ensures k * m >= m
  {
  }

  lemma Cancel(a: int, b: int, m: int)
    requires m > 0 && a * m == b * m
    ensures a == b
  {
    if a < b { Above(b - a, m); }
    if a > b { Above(a - b, m); }
  }

  lemma Scaled(a: int, b: int, m: nat)
    requires a <= b
    ensures a * m <= b * m
  {
  }

  lemma DivNonNegative(a: nat, m: nat)
    requires m > 0
    ensures a / m >= 0 && (a / m) * m <= a
  {
    assert a == (a / m) * m + a % m;
    if a / m <= -1 { Scaled(a / m, -1, m); }
  }

  /** `a >> k` */
  function Shr(a: nat, k: nat): nat {
    DivNonNegative(a, Pow2(k));
    a / Pow2(k)
  }
}
