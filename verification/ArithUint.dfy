/** The in-place operators of base_uint, src/arith_uint256.h and src/arith_uint256.cpp. */
module ArithUint {
  import opened Bits
  import opened Limbs

  /** The value of a number held in an array. */
  ghost function Value(pn: array<Limb>): nat
    reads pn
  {
    Val(pn[..])
  }

  /** operator+=: addition modulo 2^BITS; `b` may be the same number. */
  method AddAssign(pn: array<Limb>, b: array<Limb>)
    requires pn.Length == b.Length
    modifies pn
    ensures Value(pn) == (old(Value(pn)) + old(Value(b))) % BasePow(pn.Length)
  {
    hide Val, BasePow;
    ghost var x, y := pn[..], b[..];
    var carry: U64 := 0;
    NoPrefix(x);
    NoPrefix(y);
    for i := 0 to pn.Length
      invariant carry <= 1 && pn[i..] == x[i..] && b[i..] == y[i..]
      invariant Val(pn[..i]) + carry * BasePow(i) == Val(x[..i]) + Val(y[..i])
    {
      ghost var low := pn[..i];
      assert pn[i] == x[i] && b[i] == y[i];
      var n: U64 := carry + pn[i] + b[i];
      AddStep(low, x, y, carry, i);
      pn[i] := n % BASE;
      carry := n / BASE;
      assert pn[..i + 1] == low + [n % BASE];
    }
    assert pn[..pn.Length] == pn[..] && x[..pn.Length] == x && y[..pn.Length] == y;
    ValBound(pn[..]);
    Residue(Value(pn), carry, BasePow(pn.Length), Val(x) + Val(y));
  }

  lemma AddStep(low: seq<Limb>, x: seq<Limb>, y: seq<Limb>, carry: nat, i: nat)
    requires i < |x| && i < |y| && |low| == i
    requires Val(low) + carry * BasePow(i) == Val(x[..i]) + Val(y[..i])
    ensures var n := carry + x[i] + y[i];
      Val(low + [n % BASE]) + (n / BASE) * BasePow(i + 1) == Val(x[..i + 1]) + Val(y[..i + 1])
  {
    var n, p := carry + x[i] + y[i], BasePow(i);
    ValSnoc(low, n % BASE);
    ValPrefix(x, i);
    ValPrefix(y, i);
    Carry(n, p);
    Dist(carry + x[i], y[i], p);
    Dist(carry, x[i], p);
  }

  /** operator~ */
  method Complement(pn: array<Limb>) returns (ret: array<Limb>)
    ensures fresh(ret) && ret.Length == pn.Length
    ensures Value(ret) == BasePow(pn.Length) - 1 - Value(pn)
  {
    ret := new Limb[pn.Length](_ => 0);
    for i := 0 to pn.Length
      invariant Val(ret[..i]) + Val(pn[..][..i]) == BasePow(i) - 1
    {
      hide Val, BasePow;
      ghost var low := ret[..i];
      ComplementStep(low, pn[..], i);
      ret[i] := BASE - 1 - pn[i];
      assert ret[..i + 1] == low + [BASE - 1 - pn[i]];
    }
    assert ret[..pn.Length] == ret[..] && pn[..][..pn.Length] == pn[..];
  }

  lemma ComplementStep(low: seq<Limb>, x: seq<Limb>, i: nat)
    requires i < |x| && |low| == i && Val(low) + Val(x[..i]) == BasePow(i) - 1
    ensures Val(low + [BASE - 1 - x[i]]) + Val(x[..i + 1]) == BasePow(i + 1) - 1
  {
    ValSnoc(low, BASE - 1 - x[i]);
    ValPrefix(x, i);
    assert BasePow(i + 1) == BASE * BasePow(i);
    hide *;
    ComplementSum(x[i], BasePow(i));
  }

  lemma ComplementSum(d: int, p: int)
    ensures (BASE - 1 - d) * p + d * p == BASE * p - p
  {
    Dist(BASE - 1 - d, d, p);
  }

  /** operator++ */
  method Increment(pn: array<Limb>)
    modifies pn
    ensures Value(pn) == (old(Value(pn)) + 1) % BasePow(pn.Length)
  {
    hide Val, BasePow;
    ghost var x := pn[..];
    var i := 0;
    NoPrefix(x);
    while i < pn.Length
      invariant 0 <= i <= pn.Length && pn[i..] == x[i..]
      invariant Val(pn[..i]) == 0 && Val(x[..i]) == BasePow(i) - 1
    {
      ghost var low := pn[..i];
      assert pn[i] == x[i];
      IncrementStep(low, x, i);
      pn[i] := (pn[i] + 1) % BASE;
      assert pn[..i + 1] == low + [pn[i]] && pn[i + 1..] == x[i + 1..];
      if pn[i] != 0 {
        assert pn[..] == low + [x[i] + 1] + x[i + 1..];
        return;
      }
      i := i + 1;
    }
    assert pn[..i] == pn[..] && x[..i] == x;
    Residue(0, 1, BasePow(pn.Length), Val(x) + 1);
  }

  lemma NoPrefix(x: seq<Limb>)
    ensures Val(x[..0]) == 0 && BasePow(0) == 1
  {
  }

  lemma IncrementStep(low: seq<Limb>, x: seq<Limb>, i: nat)
    requires i < |x| && |low| == i && Val(low) == 0 && Val(x[..i]) == BasePow(i) - 1
    ensures x[i] == BASE - 1 ==> Val(low + [0]) == 0 && Val(x[..i + 1]) == BasePow(i + 1) - 1
    ensures x[i] != BASE - 1 ==> Val(low + [x[i] + 1] + x[i + 1..]) == (Val(x) + 1) % BasePow(|x|)
  {
    hide *;
    if x[i] == BASE - 1 {
      IncrementCarries(low, x, i);
    } else {
      IncrementStops(low, x, i);
    }
  }

  lemma IncrementCarries(low: seq<Limb>, x: seq<Limb>, i: nat)
    requires i < |x| && |low| == i && Val(low) == 0 && Val(x[..i]) == BasePow(i) - 1 && x[i] == BASE - 1
    ensures Val(low + [0]) == 0 && Val(x[..i + 1]) == BasePow(i + 1) - 1
  {
    assert BasePow(i + 1) == BASE * BasePow(i);
    hide *;
    ValPrefix(x, i);
    ValSnoc(low, 0);
    ComplementSum(x[i], BasePow(i));
  }

  lemma IncrementStops(low: seq<Limb>, x: seq<Limb>, i: nat)
    requires i < |x| && |low| == i && Val(low) == 0 && Val(x[..i]) == BasePow(i) - 1 && x[i] != BASE - 1
    ensures Val(low + [x[i] + 1] + x[i + 1..]) == (Val(x) + 1) % BasePow(|x|)
  {
    hide *;
    var r := low + [x[i] + 1];
    ValPrefix(x, i);
    ValSnoc(low, x[i] + 1);
    Dist(x[i], 1, BasePow(i));
    assert Val(r) == Val(x[..i + 1]) + 1;
    assert x == x[..i + 1] + x[i + 1..];
    ValConcat(r, x[i + 1..]);
    ValConcat(x[..i + 1], x[i + 1..]);
    ValBound(r + x[i + 1..]);
    Residue(Val(r + x[i + 1..]), 0, BasePow(|x|), Val(x) + 1);
  }

  /** Unary operator-: the two's complement. */
  method Negate(pn: array<Limb>) returns (ret: array<Limb>)
    ensures fresh(ret) && ret.Length == pn.Length
    ensures Value(ret) == (0 - Value(pn)) % BasePow(pn.Length)
  {
    hide Val, BasePow;
    ret := Complement(pn);
    Increment(ret);
    MultipleVanishes(0 - Value(pn), 1, BasePow(pn.Length));
  }

  /** operator-=: subtraction modulo 2^BITS. */
  method SubAssign(pn: array<Limb>, b: array<Limb>)
    requires pn.Length == b.Length
    modifies pn
    ensures Value(pn) == (old(Value(pn)) - old(Value(b))) % BasePow(pn.Length)
  {
    hide Val, BasePow;
    ghost var x: int, y: int := Value(pn), Value(b);
    var neg := Negate(b);
    AddAssign(pn, neg);
    ModReduce(x, 0 - y, BasePow(pn.Length));
  }

  /** operator*= with a 32-bit word. */
  method MulWordAssign(pn: array<Limb>, b32: Limb)
    modifies pn
    ensures Value(pn) == (old(Value(pn)) * b32) % BasePow(pn.Length)
  {
    ghost var x := pn[..];
    var carry: U64 := 0;
    for i := 0 to pn.Length
      invariant carry < BASE && pn[i..] == x[i..]
      invariant Val(pn[..i]) + carry * BasePow(i) == Val(x[..i]) * b32
    {
      hide Val, BasePow;
      ghost var low := pn[..i];
      assert pn[i] == x[i];
      WordFits(carry, 0, b32, pn[i]);
      var n: U64 := carry + b32 * pn[i];
      MulStep(low, x, b32, carry, i);
      pn[i] := n % BASE;
      carry := n / BASE;
      assert pn[..i + 1] == low + [n % BASE];
    }
    assert pn[..pn.Length] == pn[..] && x[..pn.Length] == x;
    ValBound(pn[..]);
    Residue(Value(pn), carry, BasePow(pn.Length), Val(x) * b32);
  }

  /** No intermediate of a multiplication exceeds 64 bits, and the carry stays a limb. */
  lemma WordFits(carry: nat, digit: nat, x: nat, y: nat)
    requires carry < BASE && digit < BASE && x < BASE && y < BASE
    ensures carry + digit + x * y < BASE2 && (carry + digit + x * y) / BASE < BASE
  {
    assert x * y <= (BASE - 1) * (BASE - 1) by {
      Scale(x, BASE - 1, y);
      Scale(y, BASE - 1, BASE - 1);
    }
  }

  lemma Scale(a: int, b: int, m: nat)
    requires a <= b
    ensures a * m <= b * m && m * a <= m * b
  {
  }

  lemma MulStep(low: seq<Limb>, x: seq<Limb>, b32: nat, carry: nat, i: nat)
    requires i < |x| && |low| == i
    requires Val(low) + carry * BasePow(i) == Val(x[..i]) * b32
    ensures var n := carry + b32 * x[i];
      Val(low + [n % BASE]) + (n / BASE) * BasePow(i + 1) == Val(x[..i + 1]) * b32
  {
    var n, p := carry + b32 * x[i], BasePow(i);
    ValSnoc(low, n % BASE);
    ValPrefix(x, i);
    Carry(n, p);
    Dist(carry, b32 * x[i], p);
    Dist(Val(x[..i]), x[i] * p, b32);
    Assoc(b32, x[i], p);
    Comm(b32, x[i] * p);
  }

  method Clear(pn: array<Limb>)
    modifies pn
    ensures forall i | 0 <= i < pn.Length :: pn[i] == 0
    ensures Value(pn) == 0
  {
    for i := 0 to pn.Length
      invariant forall k | 0 <= k < i :: pn[k] == 0
    {
      pn[i] := 0;
    }
    ValZero(pn[..]);
  }

  method Copy(pn: array<Limb>) returns (a: array<Limb>)
    ensures fresh(a) && a[..] == pn[..]
  {
    a := new Limb[pn.Length](i requires 0 <= i < pn.Length reads pn => pn[i]);
  }

  /** operator*=: multiplication modulo 2^BITS by another number. */
  method MulAssign(pn: array<Limb>, b: array<Limb>)
    requires pn.Length == b.Length && b != pn
    modifies pn
    ensures Value(pn) == (old(Value(pn)) * old(Value(b))) % BasePow(pn.Length)
  {
    hide Val, BasePow;
    var a := Copy(pn);
    ghost var x, y := a[..], b[..];
    Clear(pn);
    NoLimbs(x, y);
    for j := 0 to pn.Length
      invariant a[..] == x && b[..] == y
      invariant Value(pn) == (Val(x[..j]) * Val(y)) % BasePow(pn.Length)
    {
      ghost var before := Value(pn);
      var carry := MulRow(pn, a[j], b, j);
      ValBound(pn[..]);
      RowsAddUp(x, y, j, before, Value(pn), carry);
    }
    assert x[..pn.Length] == x;
  }

  lemma NoLimbs(x: seq<Limb>, y: seq<Limb>)
    ensures 0 == (Val(x[..0]) * Val(y)) % BasePow(|x|)
  {
    assert Val(x[..0]) == 0;
    Residue(0, 0, BasePow(|x|), 0);
  }

  /** The same loops when a number is multiplied by itself in place: it is cleared before it is read, so
      the result is 0. */
  method MulSelfAssign(pn: array<Limb>)
    modifies pn
    ensures Value(pn) == 0
  {
    var a := Copy(pn);
    Clear(pn);
    for j := 0 to pn.Length
      invariant forall i | 0 <= i < pn.Length :: pn[i] == 0
    {
      var carry: U64 := 0;
      for i := 0 to pn.Length - j
        invariant carry == 0 && forall i | 0 <= i < pn.Length :: pn[i] == 0
      {
        WordFits(carry, pn[i + j], a[j], pn[i]);
        var n: U64 := carry + pn[i + j] + a[j] * pn[i];
        pn[i + j] := n % BASE;
        carry := n / BASE;
      }
    }
    ValZero(pn[..]);
  }

  /** The inner loop: adds `aj` times the limbs of `b` that still fit, `j` limbs up. */
  method MulRow(pn: array<Limb>, aj: Limb, b: array<Limb>, j: nat) returns (carry: U64)
    requires pn.Length == b.Length && b != pn && j < pn.Length
    modifies pn
    ensures Value(pn) + carry * BasePow(pn.Length) == old(Value(pn)) + aj * Val(b[..][..pn.Length - j]) * BasePow(j)
  {
    hide Val, BasePow;
    ghost var x, y := pn[..], b[..];
    carry := 0;
    NoRow(x, y, aj, j);
    for i := 0 to pn.Length - j
      invariant carry < BASE && pn[i + j..] == x[i + j..] && b[..] == y
      invariant Val(pn[..i + j]) + carry * BasePow(i + j) == Val(x[..i + j]) + aj * Val(y[..i]) * BasePow(j)
    {
      ghost var low := pn[..i + j];
      assert pn[i + j] == x[i + j];
      WordFits(carry, pn[i + j], aj, b[i]);
      var n: U64 := carry + pn[i + j] + aj * b[i];
      RowStep(low, x, y, aj, carry, i, j);
      pn[i + j] := n % BASE;
      carry := n / BASE;
      assert pn[..i + j + 1] == low + [n % BASE];
    }
    assert pn[..pn.Length] == pn[..] && x[..pn.Length] == x;
  }

  lemma NoRow(x: seq<Limb>, y: seq<Limb>, aj: nat, j: nat)
    requires j <= |x|
    ensures aj * Val(y[..0]) * BasePow(j) == 0
  {
    assert Val(y[..0]) == 0;
    assert aj * 0 == 0;
    assert 0 * BasePow(j) == 0;
  }

  lemma RowStep(low: seq<Limb>, x: seq<Limb>, y: seq<Limb>, aj: nat, carry: nat, i: nat, j: nat)
    requires i < |y| && i + j < |x| && |low| == i + j
    requires Val(low) + carry * BasePow(i + j) == Val(x[..i + j]) + aj * Val(y[..i]) * BasePow(j)
    ensures var n := carry + x[i + j] + aj * y[i];
      Val(low + [n % BASE]) + (n / BASE) * BasePow(i + j + 1) == Val(x[..i + j + 1]) + aj * Val(y[..i + 1]) * BasePow(j)
  {
    hide Val, BasePow;
    var n, p := carry + x[i + j] + aj * y[i], BasePow(i + j);
    ValSnoc(low, n % BASE);
    ValPrefix(x, i + j);
    ValPrefix(y, i);
    Carry(n, p);
    BasePowAdd(i, j);
    BasePowNext(i + j);
    RowSum(carry, x[i + j], aj, y[i], Val(y[..i]), BasePow(i), BasePow(j));
  }

  lemma BasePowNext(k: nat)
    ensures BasePow(k + 1) == BASE * BasePow(k)
  {
  }

  lemma RowSum(carry: int, xi: int, aj: int, yi: int, v: int, p: int, q: int)
    ensures (carry + xi + aj * yi) * (p * q) == carry * (p * q) + xi * (p * q) + (aj * (v + yi * p) * q - aj * v * q)
  {
    Dist(carry + xi, aj * yi, p * q);
    Dist(carry, xi, p * q);
    Dist(v, yi * p, aj);
    Comm(aj, v + yi * p);
    Comm(aj, v);
    Dist(aj * v, aj * (yi * p), q);
    Assoc(aj, yi, p * q);
    Assoc(yi, p, q);
    Assoc(aj, yi * p, q);
  }

  /** One row more takes the product of the first `j` limbs to that of the first `j + 1`. */
  lemma RowsAddUp(x: seq<Limb>, y: seq<Limb>, j: nat, before: nat, after: nat, carry: nat)
    requires |x| == |y| && j < |x|
    requires before == (Val(x[..j]) * Val(y)) % BasePow(|x|) && after < BasePow(|x|)
    requires after + carry * BasePow(|x|) == before + x[j] * Val(y[..|x| - j]) * BasePow(j)
    ensures after == (Val(x[..j + 1]) * Val(y)) % BasePow(|x|)
  {
    var m, k := BasePow(|x|), |x| - j;
    var low, high, done := Val(y[..k]), Val(y[k..]), Val(x[..j]) * Val(y);
    assert y == y[..k] + y[k..];
    ValConcat(y[..k], y[k..]);
    ValPrefix(x, j);
    BasePowAdd(k, j);
    hide *;
    RowFinal(Val(x[..j]), x[j], BasePow(j), BasePow(k), low, high, Val(y), m, before, after, carry);
  }

  lemma RowFinal(a: int, xj: int, q: int, p: int, low: int, high: int, y: int, m: nat, before: int, after: nat,
          carry: nat)
    requires y == low + p * high && m == p * q && m > 0
    requires before == (a * y) % m && after < m && after + carry * m == before + xj * low * q
    ensures after == ((a + xj * q) * y) % m
  {
    RowTotal(a, xj, q, p, low, high, y, m);
    RowResidue(a * y, xj * low * q, xj * high, m, before, after, carry);
    SameResidue((a + xj * q) * y, a * y + (xj * low * q + xj * high * m), m, after);
  }

  /** The part of the row that does not fit is a multiple of the modulus. */
  lemma RowTotal(a: int, xj: int, q: int, p: int, low: int, high: int, y: int, m: int)
    requires y == low + p * high && m == p * q
    ensures (a + xj * q) * y == a * y + (xj * low * q + xj * high * m)
  {
    Dist(a, xj * q, y);
    Overflow(xj, low, high, p, q);
  }

  lemma SameResidue(x: int, y: int, m: nat, r: int)
    requires m > 0 && x == y && r == y % m
    ensures r == x % m
  {
  }

  lemma RowResidue(done: int, row: int, over: int, m: nat, before: int, after: nat, carry: nat)
    requires m > 0 && before == done % m && after < m && after + carry * m == before + row
    ensures after == (done + (row + over * m)) % m
  {
    ModReduce(row, done, m);
    Residue(after, carry, m, before + row);
    MultipleVanishes(done + row, over, m);
  }

  lemma Overflow(xj: int, low: int, high: int, p: int, q: int)
    ensures xj * q * (low + p * high) == xj * low * q + xj * high * (p * q)
  {
    Dist(low, p * high, xj * q);
    Comm(xj * q, low + p * high);
    Comm(low, xj * q);
    Assoc(xj, q, low);
    Assoc(xj, low, q);
    Comm(q, low);
    Assoc(xj, high, p * q);
    Assoc(high, p, q);
    Comm(high, p);
    Comm(p * high, xj * q);
    Assoc(xj, q, p * high);
    Comm(q, p * high);
  }
}
