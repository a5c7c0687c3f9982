/** The shifts of base_uint, src/arith_uint256.cpp. */
module ArithShift {
  import opened Bits
  import opened Limbs
  import opened ArithUint

  lemma SplitBase(s: nat)
    requires s <= 32
    ensures Pow2(s) * Pow2(32 - s) == BASE
  {
    Pow2Add(s, 32 - s);
    Pow32();
  }

  /** Shifting one limb left: the part that stays, with the bits from below put in, and the part that
      goes to the next limb. */
  lemma LeftLimb(x: Limb, c: nat, s: nat)
    requires s < 32 && c < Pow2(s)
    ensures Or(c, Shl(x, s)) == c + Shl(x, s) < BASE
    ensures Shl(x, s) + Shr(x, 32 - s) * BASE == x * Pow2(s) && Shr(x, 32 - s) < Pow2(s)
  {
    var m, h := Pow2(s), Pow2(32 - s);
    SplitBase(s);
    hide Pow2, Or;
    LeftParts(x, m, h);
    MultipleOf(x % h, m);
    OrDisjoint((x % h) * m, c, s);
  }

  lemma LeftParts(x: Limb, m: nat, h: nat)
    requires m > 0 && h > 0 && m * h == BASE
    ensures (x * m) % BASE == (x % h) * m && (x % h) * m + (x / h) * BASE == x * m
    ensures 0 <= x / h < m && (x % h) * m <= BASE - m
  {
    var q, r := x / h, x % h;
    assert x == q * h + r;
    DivNonNegative(x, h);
    LeftProduct(q, h, r, m);
    Below(q, m, h, x);
    Room(r, h, m);
    DivisionUnique(x * m, BASE, q, r * m);
  }

  lemma Room(r: nat, h: nat, m: nat)
    requires r < h && m * h == BASE
    ensures 0 <= r * m <= BASE - m
  {
    Scaled(r, h - 1, m);
    Dist(h, -1, m);
    Comm(h, m);
  }

  lemma LeftProduct(q: int, h: int, r: int, m: int)
    ensures (q * h + r) * m == q * (m * h) + r * m
  {
    Dist(q * h, r, m);
    Assoc(q, h, m);
    Comm(h, m);
  }

  lemma Below(q: nat, m: nat, h: nat, x: nat)
    requires h > 0 && q * h <= x < m * h
    ensures q < m
  {
    if q >= m { Scale(m, q, h); }
  }

  /** The bits of the limb below `e` that belong to limb `e`. */
  function Spill(a: seq<Limb>, e: nat, s: nat): nat
    requires e <= |a| && s < 32
  {
    if e == 0 then 0 else Shr(a[e - 1], 32 - s)
  }

  /** The first `e` limbs of `a` are in place, `k` limbs and `s` bits up; their spill is in the next limb. */
  ghost predicate ShiftedLeft(p: seq<Limb>, a: seq<Limb>, e: nat, k: nat, s: nat)
    requires e <= |a| && s < 32
  {
    && e + k <= |p| && Spill(a, e, s) < Pow2(s)
    && Val(p[..e + k]) + Spill(a, e, s) * BasePow(e + k) == Val(a[..e]) * Pow2(s) * BasePow(k)
    && (e + k < |p| ==> p[e + k] == Spill(a, e, s))
    && forall j | e + k < j < |p| :: p[j] == 0
  }

  lemma LeftStep(p: seq<Limb>, p': seq<Limb>, a: seq<Limb>, e: nat, k: nat, s: nat)
    requires e < |a| && s < 32 && e + k < |p| == |p'| && ShiftedLeft(p, a, e, k, s)
    requires p'[e + k] == Or(p[e + k], Shl(a[e], s))
    requires e + k + 1 < |p| ==> p'[e + k + 1] == Shr(a[e], 32 - s)
    requires forall j | 0 <= j < |p| && j != e + k && j != e + k + 1 :: p'[j] == p[j]
    ensures ShiftedLeft(p', a, e + 1, k, s)
  {
    var c, y, c' := Spill(a, e, s), Shl(a[e], s), Shr(a[e], 32 - s);
    LeftLimb(a[e], c, s);
    assert p'[..e + k + 1] == p[..e + k] + [c + y];
    ValSnoc(p[..e + k], c + y);
    ValPrefix(a, e);
    BasePowAdd(e, k);
    assert BasePow(e + k + 1) == BASE * BasePow(e + k);
    assert Val(p'[..e + k + 1]) + c' * BasePow(e + k + 1) == Val(a[..e + 1]) * Pow2(s) * BasePow(k) by {
      hide *;
      LeftSum(Val(p[..e + k]), c, y, c', a[e], Val(a[..e]), BasePow(e), BasePow(k), Pow2(s));
    }
  }

  lemma LeftSum(v: int, c: int, y: int, c': int, x: int, w: int, pe: int, pk: int, m: int)
    requires v + c * (pe * pk) == w * m * pk && y + c' * BASE == x * m
    ensures v + (c + y) * (pe * pk) + c' * (BASE * (pe * pk)) == (w + x * pe) * m * pk
  {
    var p := pe * pk;
    Dist(c, y, p);
    Dist(y, c' * BASE, p);
    Assoc(c', BASE, p);
    Dist(w, x * pe, m);
    Dist(w * m, x * pe * m, pk);
    assert x * m * p == x * pe * m * pk by {
      Assoc(x, m, p);
      Assoc(x, pe, m);
      Assoc(x, pe * m, pk);
      Comm(m, p);
      Assoc(pe, pk, m);
      Assoc(pe, m, pk);
      Comm(pk, m);
    }
  }


  lemma LeftStart(p: seq<Limb>, a: seq<Limb>, k: nat, s: nat)
    requires s < 32 && k <= |p| && forall j | 0 <= j < |p| :: p[j] == 0
    ensures ShiftedLeft(p, a, 0, k, s)
  {
    ValZero(p[..k]);
    assert Val(a[..0]) == 0;
    assert 0 * Pow2(s) == 0;
    assert 0 * BasePow(k) == 0;
  }

  lemma ShiftPower(shift: nat, k: nat, s: nat)
    requires shift == 32 * k + s
    ensures Pow2(shift) == BasePow(k) * Pow2(s)
  {
    Pow2Add(32 * k, s);
    BasePowIsPow2(k);
  }

  lemma LeftEnd(p: seq<Limb>, x: seq<Limb>, shift: nat)
    requires |x| == |p|
    requires var k, s := shift / 32, shift % 32;
      if k <= |p| then ShiftedLeft(p, x, |p| - k, k, s) else forall j | 0 <= j < |p| :: p[j] == 0
    ensures Val(p) == (Val(x) * Pow2(shift)) % BasePow(|p|)
  {
    var k, s := shift / 32, shift % 32;
    hide Val, BasePow, Pow2;
    ShiftPower(shift, k, s);
    if k <= |p| { LeftEndWithin(p, x, k, s); } else { LeftEndBeyond(p, x, k, s); }
  }

  lemma LeftEndWithin(p: seq<Limb>, x: seq<Limb>, k: nat, s: nat)
    requires |x| == |p| && k <= |p| && s < 32 && ShiftedLeft(p, x, |p| - k, k, s)
    ensures Val(p) == (Val(x) * (BasePow(k) * Pow2(s))) % BasePow(|p|)
  {
    hide *;
    var e := |p| - k;
    LeftFacts(p, x, k, s);
    LeftResidue(Val(p), Spill(x, e, s), Val(x[..e]), Val(x[e..]), BasePow(e), BasePow(k), Pow2(s));
  }

  lemma LeftFacts(p: seq<Limb>, x: seq<Limb>, k: nat, s: nat)
    requires |x| == |p| && k <= |p| && s < 32 && ShiftedLeft(p, x, |p| - k, k, s)
    ensures var e := |p| - k;
      && BasePow(|p|) == BasePow(e) * BasePow(k) && Val(p) < BasePow(e) * BasePow(k)
      && Val(x) == Val(x[..e]) + BasePow(e) * Val(x[e..])
      && Val(p) + Spill(x, e, s) * (BasePow(e) * BasePow(k)) == Val(x[..e]) * Pow2(s) * BasePow(k)
  {
    var e := |p| - k;
    ValBound(p);
    assert p[..e + k] == p && x == x[..e] + x[e..];
    ValConcat(x[..e], x[e..]);
    BasePowAdd(e, k);
  }

  lemma LeftResidue(v: nat, c: int, low: int, high: int, pe: nat, pk: nat, m: int)
    requires v + c * (pe * pk) == low * m * pk && v < pe * pk
    ensures v == ((low + pe * high) * (pk * m)) % (pe * pk)
  {
    LeftTotal(v, c, low, high, pe, pk, m);
    Residue(v, c + high * m, pe * pk, (low + pe * high) * (pk * m));
  }

  lemma LeftEndBeyond(p: seq<Limb>, x: seq<Limb>, k: nat, s: nat)
    requires |x| == |p| && k > |p| && forall j | 0 <= j < |p| :: p[j] == 0
    ensures Val(p) == (Val(x) * (BasePow(k) * Pow2(s))) % BasePow(|p|)
  {
    ValZero(p);
    BasePowAdd(k - |p|, |p|);
    hide *;
    var q := BasePow(k - |p|) * Pow2(s);
    Regroup3(BasePow(k - |p|), BasePow(|p|), Pow2(s));
    Assoc(Val(x), q, BasePow(|p|));
    Residue(0, Val(x) * q, BasePow(|p|), Val(x) * (BasePow(k) * Pow2(s)));
  }

  lemma Regroup3(a: int, b: int, c: int)
    ensures a * b * c == a * c * b
  {
    Assoc(a, b, c);
    Assoc(a, c, b);
    Comm(b, c);
  }

  lemma LeftTotal(v: int, c: int, low: int, high: int, pe: int, pk: int, m: int)
    requires v + c * (pe * pk) == low * m * pk
    ensures (low + pe * high) * (pk * m) == v + (c + high * m) * (pe * pk)
  {
    Dist(low, pe * high, pk * m);
    Dist(c, high * m, pe * pk);
    Comm(pk, m);
    Assoc(low, m, pk);
    assert pe * high * (pk * m) == high * m * (pe * pk) by {
      Comm(pe, high);
      Assoc(high, pe, pk * m);
      Assoc(high, m, pe * pk);
      Assoc(pe, pk, m);
      Comm(m, pe * pk);
    }
  }

  /** operator<<=: multiplication by a power of two, modulo 2^BITS. */
  method ShiftLeftAssign(pn: array<Limb>, shift: nat)
    modifies pn
    ensures Value(pn) == (old(Value(pn)) * Pow2(shift)) % BasePow(pn.Length)
  {
    var a := Copy(pn);
    ghost var x := a[..];
    Clear(pn);
    var k, s := shift / 32, shift % 32;
    if k <= pn.Length { LeftStart(pn[..], x, k, s); }
    for i := 0 to pn.Length
      invariant a[..] == x
      invariant if k <= pn.Length then ShiftedLeft(pn[..], x, if i + k <= pn.Length then i else pn.Length - k, k, s)
                else forall j | 0 <= j < pn.Length :: pn[j] == 0
    {
      ghost var p := pn[..];
      if i + k < pn.Length { LeftFits(p, x, i, k, s); }
      hide *;
      if i + k + 1 < pn.Length && s != 0 {
        pn[i + k + 1] := Or(pn[i + k + 1], Shr(a[i], 32 - s));
      }
      if i + k < pn.Length {
        pn[i + k] := Or(pn[i + k], Shl(a[i], s));
        LeftStep(p, pn[..], x, i, k, s);
      }
    }
    LeftEnd(pn[..], x, shift);
  }

  /** What is put into the two limbs fits, and the upper one was empty. */
  lemma LeftFits(p: seq<Limb>, a: seq<Limb>, e: nat, k: nat, s: nat)
    requires e < |a| && s < 32 && e + k < |p| && ShiftedLeft(p, a, e, k, s)
    ensures Or(p[e + k], Shl(a[e], s)) < BASE
    ensures e + k + 1 < |p| ==> Or(p[e + k + 1], Shr(a[e], 32 - s)) == Shr(a[e], 32 - s) < BASE && p[e + k + 1] == 0
    ensures s == 0 ==> Shr(a[e], 32 - s) == 0
  {
    LeftLimb(a[e], Spill(a, e, s), s);
    Pow2Monotone(s, 32);
    Pow32();
  }

  /** Shifting one limb right: the part that goes to the limb below, put on top of what is there, and the
      part that stays. */
  lemma RightLimb(x: Limb, prev: nat, s: nat)
    requires s < 32 && prev < Pow2(32 - s)
    ensures Or(prev, Shl(x, 32 - s)) == prev + Shl(x, 32 - s) < BASE
    ensures Shl(x, 32 - s) * Pow2(s) + Shr(x, s) * Pow2(s) * BASE == x * BASE && Shr(x, s) < Pow2(32 - s)
    ensures Shr(x, s) * Pow2(s) + x % Pow2(s) == x
  {
    var m, h := Pow2(s), Pow2(32 - s);
    SplitBase(s);
    assert x == (x / m) * m + x % m;
    Comm(m, h);
    hide Pow2, Or;
    LeftParts(x, h, m);
    MultipleOf(x % m, h);
    OrDisjoint((x % m) * h, prev, 32 - s);
    RightProduct(x / m, x % m, m, h);
  }

  lemma RightProduct(q: int, r: int, m: int, h: int)
    requires m * h == BASE
    ensures r * h * m + q * m * BASE == (q * m + r) * BASE
  {
    Assoc(r, h, m);
    Comm(h, m);
    Dist(q * m, r, BASE);
  }

  /** `d` limbs of `a`, from limb `k` on, are in place, `k` limbs and `s` bits down, but for the bits that
      come from the limb above. */
  ghost predicate ShiftedRight(p: seq<Limb>, a: seq<Limb>, d: nat, k: nat, s: nat)
    requires d + k <= |a| == |p|
  {
    && (forall j | d <= j < |p| :: p[j] == 0)
    && (d > 0 ==> p[d - 1] == Shr(a[k + d - 1], s))
    && (d > 0 ==> Val(p[..d]) * Pow2(s) + a[k] % Pow2(s) == Val(a[k..k + d]))
  }

  lemma RightFirst(p: seq<Limb>, a: seq<Limb>, k: nat, s: nat)
    requires s < 32 && k < |a| == |p| && p[0] == Shr(a[k], s) && forall j | 1 <= j < |p| :: p[j] == 0
    ensures ShiftedRight(p, a, 1, k, s)
  {
    RightLimb(a[k], 0, s);
    assert p[..1] == [p[0]] && a[k..k + 1] == [a[k]];
  }

  lemma RightStep(p: seq<Limb>, p': seq<Limb>, a: seq<Limb>, d: nat, k: nat, s: nat)
    requires s < 32 && d > 0 && d + k < |a| == |p| == |p'| && ShiftedRight(p, a, d, k, s)
    requires p'[d - 1] == Or(p[d - 1], Shl(a[k + d], 32 - s)) && p'[d] == Shr(a[k + d], s)
    requires forall j | 0 <= j < |p| && j != d - 1 && j != d :: p'[j] == p[j]
    ensures ShiftedRight(p', a, d + 1, k, s)
  {
    hide Val, Pow2;
    var x, add, q := a[k + d], Shl(a[k + d], 32 - s), Shr(a[k + d], s);
    RightLimb(a[k + d - 1], 0, s);
    RightLimb(x, p[d - 1], s);
    RightValue(p, p', d, add);
    assert a[k..k + d + 1] == a[k..k + d] + [x];
    ValSnoc(a[k..k + d], x);
    assert BasePow(d) == BASE * BasePow(d - 1);
    assert Val(p'[..d + 1]) * Pow2(s) + a[k] % Pow2(s) == Val(a[k..k + d + 1]) by {
      hide *;
      RightSum(Val(p[..d]), add, q, x, BasePow(d - 1), Pow2(s));
    }
  }

  lemma RightValue(p: seq<Limb>, p': seq<Limb>, d: nat, add: nat)
    requires 0 < d < |p| == |p'| && p'[d - 1] == p[d - 1] + add
    requires forall j | 0 <= j < d - 1 :: p'[j] == p[j]
    ensures Val(p'[..d + 1]) == Val(p[..d]) + add * BasePow(d - 1) + p'[d] * BasePow(d)
  {
    ValPrefix(p', d);
    ValPrefix(p', d - 1);
    ValPrefix(p, d - 1);
    assert p'[..d - 1] == p[..d - 1];
    hide *;
    Dist(p[d - 1], add, BasePow(d - 1));
  }

  lemma RightSum(v: int, add: int, q: int, x: int, b: int, m: int)
    requires add * m + q * m * BASE == x * BASE
    ensures (v + add * b + q * (BASE * b)) * m == v * m + x * (BASE * b)
  {
    Dist(v + add * b, q * (BASE * b), m);
    Dist(v, add * b, m);
    Regroup3(add, b, m);
    Dist(add * m, q * m * BASE, b);
    Assoc(x, BASE, b);
    Assoc(q * m, BASE, b);
    Regroup3(q, BASE * b, m);
  }

  /** operator>>=: division by a power of two. */
  method ShiftRightAssign(pn: array<Limb>, shift: nat)
    modifies pn
    ensures Value(pn) == Shr(old(Value(pn)), shift)
  {
    hide Val, BasePow, Pow2, Or, Shr, Shl, ShiftedRight;
    var a := Copy(pn);
    ghost var x := a[..];
    Clear(pn);
    var k, s := shift / 32, shift % 32;
    for i := 0 to pn.Length
      invariant a[..] == x
      invariant if k < i then ShiftedRight(pn[..], x, i - k, k, s) else forall j | 0 <= j < pn.Length :: pn[j] == 0
    {
      ghost var p := pn[..];
      if k == i { RightNothing(p, x, k, s); }
      if k <= i { RightFits(p, x, i - k, k, s); }
      if i - k - 1 >= 0 && s != 0 {
        pn[i - k - 1] := Or(pn[i - k - 1], Shl(a[i], 32 - s));
      }
      if i - k >= 0 {
        pn[i - k] := Or(pn[i - k], Shr(a[i], s));
      }
      if k == i { RightFirst(pn[..], x, k, s); } else if k < i { RightStep(p, pn[..], x, i - k, k, s); }
    }
    RightEnd(pn[..], x, shift);
  }

  lemma RightNothing(p: seq<Limb>, a: seq<Limb>, k: nat, s: nat)
    requires k <= |a| == |p| && forall j | 0 <= j < |p| :: p[j] == 0
    ensures ShiftedRight(p, a, 0, k, s)
  {
  }

  lemma RightFits(p: seq<Limb>, a: seq<Limb>, d: nat, k: nat, s: nat)
    requires s < 32 && d + k < |a| == |p| && ShiftedRight(p, a, d, k, s)
    ensures p[d] == 0 && Or(p[d], Shr(a[k + d], s)) == Shr(a[k + d], s) < BASE
    ensures d > 0 ==> Or(p[d - 1], Shl(a[k + d], 32 - s)) < BASE
    ensures d > 0 && s == 0 ==> Or(p[d - 1], Shl(a[k + d], 32 - s)) == p[d - 1]
  {
    if d > 0 {
      RightLimb(a[k + d - 1], 0, s);
      RightLimb(a[k + d], p[d - 1], s);
    }
    RightLimb(a[k + d], 0, s);
    if s == 0 { Pow32(); MultipleOf(a[k + d], BASE); }
    Pow2Monotone(32 - s, 32);
    Pow32();
  }

  lemma RightEnd(p: seq<Limb>, x: seq<Limb>, shift: nat)
    requires |x| == |p|
    requires var k, s := shift / 32, shift % 32;
      if k < |p| then ShiftedRight(p, x, |p| - k, k, s) else forall j | 0 <= j < |p| :: p[j] == 0
    ensures Val(p) == Shr(Val(x), shift)
  {
    var k, s := shift / 32, shift % 32;
    hide Val, BasePow, Pow2;
    ShiftPower(shift, k, s);
    if k < |p| { RightEndWithin(p, x, k, s); } else { RightEndBeyond(p, x, shift); }
  }

  lemma RightEndWithin(p: seq<Limb>, x: seq<Limb>, k: nat, s: nat)
    requires k < |x| == |p| && ShiftedRight(p, x, |p| - k, k, s)
    ensures Val(p) == Val(x) / (BasePow(k) * Pow2(s))
  {
    hide *;
    RightFacts(p, x, k, s);
    ValSplit(x, k);
    ModRange(x[k], Pow2(s));
    RightQuotient(Val(p), x[k] % Pow2(s), Val(x[..k]), Val(x[k..]), Val(x), BasePow(k), Pow2(s));
  }

  lemma RightEndBeyond(p: seq<Limb>, x: seq<Limb>, shift: nat)
    requires |x| == |p| && shift / 32 >= |p| && forall j | 0 <= j < |p| :: p[j] == 0
    ensures Val(p) == Val(x) / Pow2(shift)
  {
    ValZero(p);
    ValBound(x);
    BasePowIsPow2(|p|);
    Pow2Monotone(32 * |p|, shift);
    DivisionUnique(Val(x), Pow2(shift), 0, Val(x));
  }

  lemma RightFacts(p: seq<Limb>, x: seq<Limb>, k: nat, s: nat)
    requires k < |x| == |p| && ShiftedRight(p, x, |p| - k, k, s)
    ensures Val(x[k..]) == Val(p) * Pow2(s) + x[k] % Pow2(s)
  {
    var d := |p| - k;
    assert x[k..k + d] == x[k..];
    Padded(p, d);
  }

  lemma ValSplit(x: seq<Limb>, k: nat)
    requires k <= |x|
    ensures Val(x) == Val(x[..k]) + BasePow(k) * Val(x[k..]) && Val(x[..k]) < BasePow(k)
  {
    assert x == x[..k] + x[k..];
    ValConcat(x[..k], x[k..]);
    ValBound(x[..k]);
  }

  lemma ModRange(a: nat, m: nat)
    requires m > 0
    ensures 0 <= a % m < m
  {
  }

  lemma Padded(p: seq<Limb>, d: nat)
    requires d <= |p| && forall j | d <= j < |p| :: p[j] == 0
    ensures Val(p) == Val(p[..d])
  {
    assert p == p[..d] + p[d..];
    ValConcat(p[..d], p[d..]);
    ValZero(p[d..]);
  }

  lemma RightQuotient(v: int, r: int, low: int, y: int, x: int, p: nat, m: nat)
    requires x == low + p * y && y == v * m + r && 0 <= low < p && 0 <= r < m
    ensures p * m > 0 && x / (p * m) == v
  {
    Comm(p, y);
    Dist(v * m, r, p);
    Assoc(v, m, p);
    Comm(m, p);
    Above(p, m);
    Scaled(r + 1, m, p);
    Scaled(0, r, p);
    Dist(r, 1, p);
    DivisionUnique(x, p * m, v, low + r * p);
  }
}
