/** Comparison, bit length and long division of base_uint, src/arith_uint256.cpp. */
module ArithDiv {
  import opened Bits
  import opened Limbs
  import opened ArithUint
  import opened ArithShift

  /** The first limb from the top that differs decides. */
  lemma CompareAt(x: seq<Limb>, y: seq<Limb>, i: nat)
    requires i < |x| == |y| && x[i + 1..] == y[i + 1..] && x[i] < y[i]
    ensures Val(x) < Val(y)
  {
    hide *;
    ValSplit(x, i + 1);
    ValSplit(y, i + 1);
    ValPrefix(x, i);
    ValPrefix(y, i);
    ValBound(x[..i]);
    var d: int := x[i];
    Scaled(d + 1, y[i], BasePow(i));
    Dist(d, 1, BasePow(i));
  }

  method CompareTo(a: array<Limb>, b: array<Limb>) returns (c: int)
    requires a.Length == b.Length
    ensures c == if Value(a) < Value(b) then -1 else if Value(a) > Value(b) then 1 else 0
  {
    hide Val;
    ghost var x, y := a[..], b[..];
    var i := a.Length - 1;
    while i >= 0
      invariant -1 <= i < a.Length && forall k | i < k < a.Length :: x[k] == y[k]
    {
      assert x[i + 1..] == y[i + 1..];
      if a[i] < b[i] { CompareAt(x, y, i); return -1; }
      if a[i] > b[i] { CompareAt(y, x, i); return 1; }
      i := i - 1;
    }
    assert x == y;
    return 0;
  }

  /** In a number below 2^(n+1), bit `n` tells whether it reaches 2^n. */
  lemma {:induction false} TopBit(a: nat, n: nat)
    requires a < Pow2(n + 1)
    ensures Bit(a, n) <==> a >= Pow2(n)
  {
    if n > 0 { TopBit(a / 2, n - 1); }
  }

  /** bits(): the position of the highest bit set plus one, or 0 for 0. */
  method BitLength(pn: array<Limb>) returns (bits: nat)
    ensures bits <= 32 * pn.Length && Value(pn) < Pow2(bits)
    ensures bits > 0 ==> Pow2(bits - 1) <= Value(pn)
  {
    hide Val, BasePow, Pow2, Bit;
    var pos := pn.Length - 1;
    while pos >= 0
      invariant -1 <= pos < pn.Length && forall j | pos < j < pn.Length :: pn[j] == 0
    {
      if pn[pos] != 0 {
        var nbits := 31;
        Pow32();
        while nbits > 0
          invariant 0 <= nbits <= 31 && pn[pos] < Pow2(nbits + 1)
        {
          TopBit(pn[pos], nbits);
          if Bit(pn[pos], nbits) {
            TopLimb(pn[..], pos, nbits);
            return 32 * pos + nbits + 1;
          }
          nbits := nbits - 1;
        }
        Pow2Zero();
        TopLimb(pn[..], pos, 0);
        return 32 * pos + 1;
      }
      pos := pos - 1;
    }
    ValZero(pn[..]);
    Pow2Zero();
    return 0;
  }

  lemma Pow2Zero()
    ensures Pow2(0) == 1
  {
  }

  lemma TopLimb(x: seq<Limb>, pos: nat, n: nat)
    requires pos < |x| && Pow2(n) <= x[pos] < Pow2(n + 1) && forall j | pos < j < |x| :: x[j] == 0
    ensures Pow2(32 * pos + n) <= Val(x) < Pow2(32 * pos + n + 1)
  {
    hide *;
    Padded(x, pos + 1);
    ValPrefix(x, pos);
    ValBound(x[..pos]);
    BasePowIsPow2(pos);
    Pow2Add(n, 32 * pos);
    Pow2Add(n + 1, 32 * pos);
    Scaled(Pow2(n), x[pos], BasePow(pos));
    var d: int := x[pos];
    Scaled(d + 1, Pow2(n + 1), BasePow(pos));
    Dist(d, 1, BasePow(pos));
  }

  /** No bit below bit `n` is set. */
  ghost predicate Aligned(x: seq<Limb>, n: nat) {
    && (forall j | 0 <= j < |x| && j < n / 32 :: x[j] == 0)
    && (n / 32 < |x| ==> x[n / 32] % Pow2(n % 32) == 0)
  }

  lemma {:induction false} HalfMultiple(a: nat, t: nat)
    requires a % Pow2(t + 1) == 0
    ensures a % Pow2(t) == 0 && (a + Pow2(t)) % Pow2(t) == 0
  {
    var q, m := a / Pow2(t + 1), Pow2(t);
    assert a == q * (2 * m);
    hide *;
    Assoc(q, 2, m);
    DivisionUnique(a, m, q * 2, 0);
    Dist(q * 2, 1, m);
    DivisionUnique(a + m, m, q * 2 + 1, 0);
  }

  /** Setting bit `shift` of a number that has none at or below it adds 2^shift. */
  lemma SetBit(x: seq<Limb>, shift: nat)
    requires shift / 32 < |x| && Aligned(x, shift + 1)
    ensures var i, t := shift / 32, shift % 32;
      && Or(x[i], Pow2(t)) < BASE && Aligned(x[i := Or(x[i], Pow2(t))], shift)
      && Val(x[i := Or(x[i], Pow2(t))]) == Val(x) + Pow2(shift)
  {
    var i, t := shift / 32, shift % 32;
    SetLimb(x[i], t, (shift + 1) % 32 == 0);
    var x' := x[i := Or(x[i], Pow2(t))];
    assert Aligned(x', shift);
    ValUpdate(x, i, x'[i]);
    BasePowIsPow2(i);
    Pow2Add(t, 32 * i);
    hide *;
    Dist(x[i], Pow2(t), BasePow(i));
  }

  lemma SetLimb(a: Limb, t: nat, clear: bool)
    requires t < 32 && if clear then a == 0 else a % Pow2(t + 1) == 0
    ensures Or(a, Pow2(t)) == a + Pow2(t) < BASE && (a + Pow2(t)) % Pow2(t) == 0
  {
    if a == 0 {
      Pow32();
      Pow2Monotone(t, 31);
      DivisionUnique(Pow2(t), Pow2(t), 1, 0);
    } else {
      HalfMultiple(a, t);
      OrDisjoint(a, Pow2(t), t + 1);
      SetRoom(a, t);
    }
  }

  lemma Exactly(a: int, m: nat)
    requires m > 0 && a % m == 0
    ensures a == a / m * m
  {
  }

  lemma SetRoom(a: Limb, t: nat)
    requires t < 32 && a % Pow2(t + 1) == 0
    ensures a + Pow2(t) < BASE
  {
    var m := Pow2(t + 1);
    assert m == 2 * Pow2(t);
    SplitBase(t + 1);
    var h := Pow2(32 - (t + 1));
    hide *;
    var q := a / m;
    Exactly(a, m);
    Comm(m, h);
    Below(q, h, m, a);
    Scaled(q + 1, h, m);
    Dist(q, 1, m);
  }

  lemma ValUpdate(x: seq<Limb>, i: nat, d: Limb)
    requires i < |x|
    ensures Val(x[i := d]) == Val(x) - x[i] * BasePow(i) + d * BasePow(i)
  {
    hide *;
    var y := x[i := d];
    ValSplit(x, i + 1);
    ValSplit(y, i + 1);
    ValPrefix(x, i);
    ValPrefix(y, i);
    assert y[..i] == x[..i] && y[i + 1..] == x[i + 1..];
  }

  // Long division

  /** With the remainder below the divisor shifted up by `shift + 1`, the quotient has everything above
      bit `shift`. */
  ghost predicate Dividing(n: nat, d: nat, q: nat, num: nat, shift: int)
    requires shift >= -1
  {
    n == q * d + num && num < d * Pow2(shift + 1)
  }

  lemma DivideStart(n: nat, d: nat, nBits: nat, dBits: nat)
    requires n < Pow2(nBits) && 0 < dBits <= nBits && Pow2(dBits - 1) <= d < Pow2(dBits)
    ensures Dividing(n, d, 0, n, nBits - dBits) && d * Pow2(nBits - dBits) < Pow2(nBits)
  {
    var shift := nBits - dBits;
    Pow2Add(dBits - 1, shift + 1);
    Scaled(Pow2(dBits - 1), d, Pow2(shift + 1));
    Pow2Add(dBits, shift);
    Smaller(d, Pow2(dBits), Pow2(shift));
  }

  lemma Smaller(a: int, b: int, m: nat)
    requires a < b && m > 0
    ensures a * m < b * m
  {
    Scaled(a + 1, b, m);
    Dist(a, 1, m);
  }

  lemma DivideStep(n: nat, d: nat, q: nat, num: nat, shift: nat)
    requires Dividing(n, d, q, num, shift)
    ensures num >= d * Pow2(shift) ==> Dividing(n, d, q + Pow2(shift), num - d * Pow2(shift), shift - 1)
    ensures num < d * Pow2(shift) ==> Dividing(n, d, q, num, shift - 1)
  {
    var p := Pow2(shift);
    assert Pow2(shift + 1) == 2 * p;
    assert d * (2 * p) == 2 * (d * p);
    Dist(q, p, d);
    Comm(p, d);
  }

  lemma HalveDivisor(d: nat, shift: nat)
    requires shift > 0
    ensures Shr(d * Pow2(shift), 1) == d * Pow2(shift - 1)
  {
    var p := Pow2(shift - 1);
    assert Pow2(shift) == 2 * p && Pow2(1) == 2;
    assert d * (2 * p) == (d * p) * 2;
    DivisionUnique(d * (2 * p), 2, d * p, 0);
  }

  /** operator/=: division, rounding down. Dividing by 0 clears the number before it throws. */
  method DivAssign(pn: array<Limb>, b: array<Limb>) returns (ok: bool)
    requires pn.Length == b.Length
    modifies pn
    ensures ok <==> old(Value(b)) != 0
    ensures Value(pn) == if ok then old(Value(pn)) / old(Value(b)) else 0
  {
    hide Val, BasePow, Pow2, Aligned, Dividing;
    var div := Copy(b);
    var num := Copy(pn);
    ghost var n, d := Value(pn), Value(b);
    Clear(pn);
    var numBits := BitLength(num);
    var divBits := BitLength(div);
    if divBits == 0 { Pow2Zero(); return false; }
    Pow2Positive(divBits - 1);
    if divBits > numBits {
      Pow2Monotone(numBits, divBits - 1);
      DivisionUnique(n, d, 0, n);
      return true;
    }
    var shift := numBits - divBits;
    DivideStart(n, d, numBits, divBits);
    FitsIn(d * Pow2(shift), numBits, pn.Length);
    ShiftLeftAssign(div, shift);
    AllAligned(pn[..], shift + 1);
    while shift >= 0
      invariant -1 <= shift < 32 * pn.Length && div.Length == num.Length == pn.Length
      invariant pn != div && pn != num && div != num && fresh(div) && fresh(num)
      invariant Dividing(n, d, Value(pn), Value(num), shift) && Aligned(pn[..], shift + 1)
      invariant shift >= 0 ==> Value(div) == d * Pow2(shift)
    {
      shift := DivideRound(pn, div, num, shift, n, d);
    }
    DivideEnd(n, d, Value(pn), Value(num));
    return true;
  }

  /** One round: subtract the divisor and set the bit if it goes in, then shift the divisor back. */
  method DivideRound(pn: array<Limb>, div: array<Limb>, num: array<Limb>, shift: nat, ghost n: nat,
          ghost d: nat) returns (next: int)
    requires shift < 32 * pn.Length && div.Length == num.Length == pn.Length && pn != div && pn != num && div != num
    requires Dividing(n, d, Value(pn), Value(num), shift) && Aligned(pn[..], shift + 1) && Value(div) == d * Pow2(shift)
    modifies pn, div, num
    ensures next == shift - 1
    ensures Dividing(n, d, Value(pn), Value(num), next) && Aligned(pn[..], next + 1)
    ensures next >= 0 ==> Value(div) == d * Pow2(next)
  {
    hide Val, BasePow, Pow2, Aligned, Dividing, Shr;
    DivideStep(n, d, Value(pn), Value(num), shift);
    var c := CompareTo(num, div);
    if c >= 0 {
      ExactDifference(num[..], div[..]);
      SubAssign(num, div);
      SetBit(pn[..], shift);
      ghost var before := pn[..];
      pn[shift / 32] := Or(pn[shift / 32], Pow2(shift % 32));
      assert pn[..] == before[shift / 32 := pn[shift / 32]];
    } else {
      LessAligned(pn[..], shift);
    }
    if shift > 0 { HalveDivisor(d, shift); }
    ShiftRightAssign(div, 1);
    next := shift - 1;
  }

  lemma ExactDifference(x: seq<Limb>, y: seq<Limb>)
    requires |x| == |y| && Val(x) >= Val(y)
    ensures (Val(x) - Val(y)) % BasePow(|x|) == Val(x) - Val(y)
  {
    ValBound(x);
    DivisionUnique(Val(x) - Val(y), BasePow(|x|), 0, Val(x) - Val(y));
  }

  lemma LessAligned(x: seq<Limb>, shift: nat)
    requires shift / 32 < |x| && Aligned(x, shift + 1)
    ensures Aligned(x, shift)
  {
    if (shift + 1) % 32 != 0 {
      HalfMultiple(x[shift / 32], shift % 32);
    } else {
      DivisionUnique(0, Pow2(shift % 32), 0, 0);
    }
  }

  lemma AllAligned(x: seq<Limb>, n: nat)
    requires forall j | 0 <= j < |x| :: x[j] == 0
    ensures Aligned(x, n)
  {
    DivisionUnique(0, Pow2(n % 32), 0, 0);
  }

  lemma Pow2Positive(k: nat)
    ensures Pow2(k) > 0
  {
  }

  lemma FitsIn(v: nat, bits: nat, width: nat)
    requires v < Pow2(bits) && bits <= 32 * width
    ensures v % BasePow(width) == v
  {
    Pow2Monotone(bits, 32 * width);
    BasePowIsPow2(width);
    DivisionUnique(v, BasePow(width), 0, v);
  }

  lemma DivideEnd(n: nat, d: nat, q: nat, num: nat)
    requires Dividing(n, d, q, num, -1) && d > 0
    ensures q == n / d
  {
    DivisionUnique(n, d, q, num);
  }
}
