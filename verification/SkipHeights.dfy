/** The heights that skip links lead to, and how many links GetAncestor follows (src/chain.cpp). */
module SkipHeights {
  import opened Bits

  function InvertLowestOne(n: nat): nat { if n == 0 then 0 else And(n, n - 1) }

  function GetSkipHeight(height: nat): nat {
    if height < 2 then 0
    else if height % 2 == 1 then InvertLowestOne(InvertLowestOne(height - 1)) + 1
    else InvertLowestOne(height)
  }

  lemma {:induction false} AndSelf(n: nat)
    ensures And(n, n) == n
  {
    if n > 0 { AndSelf(n / 2); }
  }

  /** A number is some higher bits and its lowest one; clearing that one leaves the higher bits. */
  lemma {:induction false} LowestOne(q: nat, k: nat)
    ensures InvertLowestOne((2 * q + 1) * Pow2(k)) == 2 * q * Pow2(k)
    decreases k
  {
    if k == 0 {
      AndSelf(q);
    } else {
      var p := Pow2(k - 1);
      assert Pow2(k) == 2 * p;
      LowestOne(q, k - 1);
      LowestStep(q, p);
    }
  }

  lemma LowestStep(q: nat, p: nat)
    requires p > 0 && InvertLowestOne((2 * q + 1) * p) == 2 * q * p
    ensures InvertLowestOne((2 * q + 1) * (2 * p)) == 2 * q * (2 * p)
  {
    hide *;
    Doubled(q, p);
    InvertDouble((2 * q + 1) * p);
  }

  lemma Doubled(q: nat, p: nat)
    requires p > 0
    ensures (2 * q + 1) * (2 * p) == 2 * ((2 * q + 1) * p) && 2 * q * (2 * p) == 2 * (2 * q * p) && (2 * q + 1) * p > 0
  {
  }

  lemma InvertDouble(n: nat)
    requires n > 0
    ensures InvertLowestOne(2 * n) == 2 * InvertLowestOne(n)
  {
  }

  lemma {:induction false} InvertLess(n: nat)
    ensures InvertLowestOne(n) <= n && (n > 0 ==> InvertLowestOne(n) < n)
  {
    if n > 0 {
      if n % 2 == 1 { AndSelf(n / 2); } else { InvertLess(n / 2); }
    }
  }

  lemma SkipLess(height: nat)
    requires height > 0
    ensures GetSkipHeight(height) < height
  {
    InvertLess(height);
    InvertLess(height - 1);
    InvertLess(InvertLowestOne(height - 1));
  }

  // The walk

  /** Where GetAncestor goes next, on its way from height `w` to height `t`. */
  function NextHeight(w: nat, t: nat): nat
    requires w > t
  {
    var skip, before := GetSkipHeight(w), GetSkipHeight(w - 1);
    if skip == t || (skip > t && !(before < skip - 2 && before >= t)) then skip else w - 1
  }

  lemma NextBetween(w: nat, t: nat)
    requires w > t
    ensures t <= NextHeight(w, t) < w
  {
    SkipLess(w);
  }

  /** The number of links it follows. */
  ghost function Steps(w: nat, t: nat): nat
    requires w >= t
    decreases w
  {
    if w == t then 0 else NextBetween(w, t); 1 + Steps(NextHeight(w, t), t)
  }

  /** The number of ones in binary. */
  function Ones(n: nat): nat { if n == 0 then 0 else n % 2 + Ones(n / 2) }

  lemma {:induction false} OnesInvert(n: nat)
    requires n > 0
    ensures Ones(InvertLowestOne(n)) == Ones(n) - 1
  {
    hide InvertLowestOne, Ones;
    var a := n / 2;
    OnesDouble(a);
    if n % 2 == 1 {
      InvertOdd(a);
    } else {
      InvertDouble(a);
      OnesInvert(a);
      OnesDouble(InvertLowestOne(a));
    }
  }

  lemma InvertOdd(a: nat)
    ensures InvertLowestOne(2 * a + 1) == 2 * a
  {
    hide And;
    AndSelf(a);
    AndEven(a);
  }

  lemma AndEven(a: nat)
    ensures And(2 * a + 1, 2 * a) == 2 * And(a, a)
  {
    assert (2 * a + 1) / 2 == a && (2 * a) / 2 == a && (2 * a) % 2 == 0;
  }

  lemma {:induction false} OnesBound(n: nat, j: nat)
    requires n < Pow2(j)
    ensures Ones(n) <= j && (n % 2 == 0 && j > 0 ==> Ones(n) <= j - 1)
  {
    if n > 0 { OnesBound(n / 2, j - 1); }
  }

  lemma {:induction false} OneOne(n: nat)
    requires Ones(n) == 1
    ensures n > 0 && InvertLowestOne(n) == 0
  {
    OnesInvert(n);
    OnesZero(InvertLowestOne(n));
  }

  lemma {:induction false} OnesZero(n: nat)
    requires Ones(n) == 0
    ensures n == 0
  {
    if n > 0 { OnesZero(n / 2); }
  }

  /** The lowest one of a number is that of its lower part, unless that is 0. */
  lemma {:induction false} InvertLower(q: nat, k: nat, low: nat)
    requires 0 < low < Pow2(k)
    ensures InvertLowestOne(q * Pow2(k) + low) == q * Pow2(k) + InvertLowestOne(low)
  {
    hide InvertLowestOne;
    var n := q * Pow2(k) + low;
    assert q * Pow2(k) == 2 * (q * Pow2(k - 1)) by { Twice(q, Pow2(k - 1)); }
    if low % 2 == 1 {
      InvertOdd(n / 2);
      InvertOdd(low / 2);
    } else {
      InvertLower(q, k - 1, low / 2);
      InvertDouble(n / 2);
      InvertDouble(low / 2);
    }
  }

  lemma Twice(q: nat, m: nat)
    ensures q * (2 * m) == 2 * (q * m)
  {
  }

  /** Low numbers under a common higher part: `base` is a multiple of 2^(j+1) plus 2^j, and the target lies below it. */
  ghost predicate Under(q: nat, j: nat, t: nat) { Common(q, j) <= t < Common(q, j) + Pow2(j) }

  ghost function Common(q: nat, j: nat): nat { 2 * q * Pow2(j) }

  ghost function Base(q: nat, j: nat): nat { (2 * q + 1) * Pow2(j) }

  lemma BaseIs(q: nat, j: nat)
    ensures Base(q, j) == Common(q, j) + Pow2(j) && InvertLowestOne(Base(q, j)) == Common(q, j)
  {
    LowestOne(q, j);
    hide InvertLowestOne, Pow2;
  }

  lemma CommonInvert(q: nat, j: nat)
    ensures q > 0 ==> InvertLowestOne(Common(q, j)) + 2 * Pow2(j) <= Common(q, j)
    ensures q == 0 ==> Common(q, j) == 0
  {
    hide InvertLowestOne;
    if q > 0 {
      InvertScaled(q, j + 1);
      InvertLess(q);
      CommonIs(q, j);
      hide Pow2;
      Scaled(InvertLowestOne(q) + 1, q, Pow2(j + 1));
    }
  }

  lemma CommonIs(q: nat, j: nat)
    ensures Common(q, j) == q * Pow2(j + 1) && Pow2(j + 1) == 2 * Pow2(j)
  {
    Twice(q, Pow2(j));
  }

  lemma {:induction false} InvertScaled(q: nat, k: nat)
    requires q > 0
    ensures InvertLowestOne(q * Pow2(k)) == InvertLowestOne(q) * Pow2(k)
  {
    hide InvertLowestOne;
    if k > 0 {
      InvertScaled(q, k - 1);
      Twice(q, Pow2(k - 1));
      Twice(InvertLowestOne(q), Pow2(k - 1));
      Above(q, Pow2(k - 1));
      InvertDouble(q * Pow2(k - 1));
    }
  }

  lemma SkipIs(h: nat)
    requires h >= 2
    ensures GetSkipHeight(h)
         == if h % 2 == 1 then InvertLowestOne(InvertLowestOne(h - 1)) + 1 else InvertLowestOne(h)
  {
  }

  /** The skip height from an even number above the base. */
  lemma SkipEven(q: nat, j: nat, u: nat)
    requires 0 < u < Pow2(j) && u % 2 == 0
    ensures GetSkipHeight(Base(q, j) + u) == Base(q, j) + InvertLowestOne(u)
  {
    hide GetSkipHeight, InvertLowestOne, Pow2;
    BaseEven(q, j);
    SkipIs(Base(q, j) + u);
    InvertLower(2 * q + 1, j, u);
  }

  lemma BaseEven(q: nat, j: nat)
    requires Pow2(j) > 1
    ensures j >= 1 && Base(q, j) % 2 == 0 && Base(q, j) >= 2
  {
    Twice(2 * q + 1, Pow2(j - 1));
    Above(2 * q + 1, Pow2(j));
  }

  /** The skip height from an odd number above the base: it keeps the one at the end and clears two before it. */
  lemma SkipOdd(q: nat, j: nat, u: nat)
    requires u < Pow2(j) && u % 2 == 1 && Pow2(j) > 1
    ensures var e := u - 1;
      GetSkipHeight(Base(q, j) + u) ==
        if Ones(e) >= 2 then Base(q, j) + InvertLowestOne(InvertLowestOne(e)) + 1
        else if Ones(e) == 1 then Common(q, j) + 1
        else InvertLowestOne(Common(q, j)) + 1
  {
    hide *;
    var e := u - 1;
    BaseEven(q, j);
    BaseIs(q, j);
    SkipIs(Base(q, j) + u);
    NoOnes();
    if e > 0 {
      LowerInvert(q, j, e);
      InvertLess(e);
      OnesInvert(e);
      if Ones(e) >= 2 {
        SomeOnes(InvertLowestOne(e));
        LowerInvert(q, j, InvertLowestOne(e));
      } else {
        SomeOnes(e);
        OneOne(e);
      }
    }
  }

  lemma LowerInvert(q: nat, j: nat, e: nat)
    requires 0 < e < Pow2(j)
    ensures InvertLowestOne(Base(q, j) + e) == Base(q, j) + InvertLowestOne(e)
  {
    InvertLower(2 * q + 1, j, e);
  }

  lemma NoOnes()
    ensures Ones(0) == 0
  {
  }

  lemma SomeOnes(n: nat)
    ensures Ones(n) > 0 <==> n > 0
  {
    if Ones(n) == 0 { OnesZero(n); }
  }

  /** How many more links it takes to get below the base, at most; `near` tells that the target is at most one above
      the common part. */
  ghost function ToGo(u: nat, near: bool): nat {
    if u % 2 == 1 then Ones(u - 1) + 2
    else if Ones(u) == 0 then 1
    else if Ones(u) == 1 then if near then 4 else 2
    else Ones(u) + 3
  }

  lemma ToGoBound(u: nat, j: nat, near: bool)
    requires u < Pow2(j)
    ensures 1 <= ToGo(u, near) <= j + 2
  {
    OnesBound(u, j);
    if u % 2 == 1 { OnesBound(u - 1, j); }
    if j == 0 { OnesZero(0); }
    if j == 1 && u % 2 == 0 { assert u == 0; }
  }

  // The bound

  /** The bound for numbers that agree above bit `j`. */
  ghost function MaxSteps(j: nat): nat { if j == 0 then 0 else MaxSteps(j - 1) + j + 1 }

  lemma {:induction false} MaxStepsIs(j: nat)
    ensures 2 * MaxSteps(j) == j * (j + 3)
  {
    if j > 0 { MaxStepsIs(j - 1); }
  }

  /** The next height from an odd number with two further ones. */
  lemma FromOdd(q: nat, j: nat, u: nat, t: nat)
    requires u < Pow2(j) && u % 2 == 1 && Pow2(j) > 1 && Under(q, j, t) && Ones(u - 1) >= 2
    ensures var e, w := u - 1, Base(q, j) + u;
      w > t && NextHeight(w, t) == Base(q, j) + InvertLowestOne(InvertLowestOne(e)) + 1
  {
    hide *;
    var e := u - 1;
    UnderFacts(q, j, t);
    SomeOnes(e);
    OnesInvert(e);
    SomeOnes(InvertLowestOne(e));
    InvertLess(InvertLowestOne(e));
    SkipOdd(q, j, u);
    SkipEven(q, j, e);
    NextIs(Base(q, j) + u, t);
  }

  /** From an odd number with one further one, just above the common part or one down. */
  lemma FromOdd1(q: nat, j: nat, u: nat, t: nat)
    requires u < Pow2(j) && u % 2 == 1 && Pow2(j) > 1 && Under(q, j, t) && Ones(u - 1) == 1
    ensures var w := Base(q, j) + u;
      w > t && NextHeight(w, t) == if Common(q, j) + 1 >= t then Common(q, j) + 1 else w - 1
  {
    hide *;
    UnderFacts(q, j, t);
    BaseIs(q, j);
    SomeOnes(u - 1);
    OneOne(u - 1);
    SkipOdd(q, j, u);
    SkipEven(q, j, u - 1);
    NextIs(Base(q, j) + u, t);
  }

  /** From the number after the base: down by one, or to 1 if the common part is 0. */
  lemma FromOdd0(q: nat, j: nat, t: nat)
    requires Pow2(j) > 1 && Under(q, j, t)
    ensures var w := Base(q, j) + 1;
      w > t && NextHeight(w, t) == if q == 0 && t <= 1 then 1 else w - 1
  {
    hide *;
    UnderFacts(q, j, t);
    BaseIs(q, j);
    BaseEven(q, j);
    NoOnes();
    SkipOdd(q, j, 1);
    NextIs(Base(q, j) + 1, t);
    SkipIs(Base(q, j));
    CommonInvert(q, j);
    InvertZero();
  }

  lemma InvertZero()
    ensures InvertLowestOne(0) == 0
  {
  }

  /** From the base: to the common part, or down by one. */
  lemma FromBase(q: nat, j: nat, t: nat)
    requires Under(q, j, t)
    ensures Base(q, j) > t
    ensures NextHeight(Base(q, j), t) < Base(q, j)
  {
    BaseIs(q, j);
    NextBetween(Base(q, j), t);
  }

  lemma Halves(a: nat)
    ensures Ones(2 * a) == Ones(a) && Ones(4 * a) == Ones(a) && Ones(4 * a + 2) == Ones(a) + 1
    ensures Ones(8 * a + 2) == Ones(a) + 1 && Ones(8 * a + 4) == Ones(a) + 1 && Ones(8 * a + 6) == Ones(a) + 2
  {
    hide Ones;
    OnesDouble(a);
    OnesDouble(2 * a);
    OnesDouble(2 * a + 1);
    OnesDouble(4 * a);
    OnesDouble(4 * a + 1);
    OnesDouble(4 * a + 2);
    OnesDouble(4 * a + 3);
  }

  lemma OnesDouble(n: nat)
    ensures Ones(2 * n) == Ones(n) && Ones(2 * n + 1) == Ones(n) + 1
  {
  }

  lemma ClearSix(a: nat)
    ensures InvertLowestOne(InvertLowestOne(8 * a + 6)) == 8 * a
  {
    hide InvertLowestOne;
    InvertDouble(4 * a + 3);
    InvertOdd(2 * a + 1);
    InvertDouble(4 * a + 2);
    InvertDouble(2 * a + 1);
    InvertOdd(a);
  }

  lemma ClearEight(a: nat)
    requires a > 0
    ensures InvertLowestOne(8 * a) <= 8 * a - 8
  {
    hide InvertLowestOne;
    InvertDouble(a);
    InvertDouble(2 * a);
    InvertDouble(4 * a);
    InvertLess(a);
  }

  /** Going one down from an even number is only better than its skip link if that does not add to the ones. */
  ghost predicate DownFrom(q: nat, j: nat, u: nat, t: nat)
    requires u >= 2
  {
    Ones(u - 2) <= Ones(u) && (Ones(u) == 1 ==> t <= Common(q, j) + 1)
  }

  /** From an even number above the base: its lowest one is cleared, or it goes one down. */
  lemma FromEven(q: nat, j: nat, u: nat, t: nat)
    requires 0 < u < Pow2(j) && u % 2 == 0 && Under(q, j, t)
    ensures Base(q, j) + u > t
    ensures var next := NextHeight(Base(q, j) + u, t);
      next == Base(q, j) + InvertLowestOne(u) || (next == Base(q, j) + u - 1 && DownFrom(q, j, u, t))
  {
    hide *;
    var r, a := LastBits(u);
    if r == 2 {
      FromEvenTwo(q, j, a, t);
    } else if r == 4 {
      FromEvenFour(q, j, a, t);
    } else {
      FromEvenEight(q, j, a, t);
    }
  }

  /** An even number ends in 10, 100 or 000. */
  lemma LastBits(u: nat) returns (r: nat, a: nat)
    requires u % 2 == 0 && u > 0
    ensures (r == 2 && u == 4 * a + 2) || (r == 4 && u == 8 * a + 4) || (r == 8 && u == 8 * a + 8)
  {
    var b := u / 2;
    assert u == 2 * b;
    if b % 2 == 1 {
      a := b / 2;
      assert b == 2 * a + 1;
      return 2, a;
    }
    var c := b / 2;
    assert b == 2 * c;
    if c % 2 == 1 {
      a := c / 2;
      assert c == 2 * a + 1;
      return 4, a;
    }
    a := c / 2 - 1;
    assert c == 2 * (a + 1);
    return 8, a;
  }

  lemma Even(b: nat)
    requires b > 0
    ensures (2 * b) % 2 == 0 && (2 * b - 1) % 2 == 1
  {
  }

  /** The skip heights around an even number. */
  lemma AroundEven(q: nat, j: nat, u: nat, t: nat)
    requires 0 < u < Pow2(j) && u % 2 == 0 && (u - 1) % 2 == 1 && Under(q, j, t)
    ensures Base(q, j) + u > t
    ensures var w, before := Base(q, j) + u, GetSkipHeight(Base(q, j) + (u - 1));
      && (Ones(u - 1 - 1) >= 2 ==> before == Base(q, j) + InvertLowestOne(InvertLowestOne(u - 1 - 1)) + 1)
      && (Ones(u - 1 - 1) == 1 ==> before == Common(q, j) + 1)
      && (Ones(u - 1 - 1) == 0 ==> before == InvertLowestOne(Common(q, j)) + 1)
      && (NextHeight(w, t) != Base(q, j) + InvertLowestOne(u) ==>
            NextHeight(w, t) == w - 1 && before < Base(q, j) + InvertLowestOne(u) - 2 && before >= t)
  {
    hide *;
    UnderFacts(q, j, t);
    SkipEven(q, j, u);
    SkipOdd(q, j, u - 1);
    var w := Base(q, j) + u;
    assert w - 1 == Base(q, j) + (u - 1);
    NextIs(w, t);
  }

  lemma FromEvenTwo(q: nat, j: nat, a: nat, t: nat)
    requires 4 * a + 2 < Pow2(j) && Under(q, j, t)
    ensures var u := 4 * a + 2;
      && Base(q, j) + u > t
      && var next := NextHeight(Base(q, j) + u, t);
         next == Base(q, j) + InvertLowestOne(u) || (next == Base(q, j) + u - 1 && DownFrom(q, j, u, t))
  {
    hide *;
    var u := 4 * a + 2;
    Even(2 * a + 1);
    AroundEven(q, j, u, t);
    if GetSkipHeight(Base(q, j) + (u - 1)) >= t { FromTwo(q, j, a, t); }
  }

  lemma FromEvenFour(q: nat, j: nat, a: nat, t: nat)
    requires 8 * a + 4 < Pow2(j) && Under(q, j, t)
    ensures var u := 8 * a + 4;
      && Base(q, j) + u > t
      && var next := NextHeight(Base(q, j) + u, t);
         next == Base(q, j) + InvertLowestOne(u) || (next == Base(q, j) + u - 1 && DownFrom(q, j, u, t))
  {
    hide *;
    var u := 8 * a + 4;
    Even(4 * a + 2);
    AroundEven(q, j, u, t);
    if GetSkipHeight(Base(q, j) + (u - 1)) >= t { FromFour(q, j, a, t); }
  }

  lemma FromEvenEight(q: nat, j: nat, a: nat, t: nat)
    requires 8 * a + 8 < Pow2(j) && Under(q, j, t)
    ensures var u := 8 * a + 8;
      Base(q, j) + u > t && NextHeight(Base(q, j) + u, t) == Base(q, j) + InvertLowestOne(u)
  {
    hide *;
    var u := 8 * a + 8;
    Even(4 * a + 4);
    AroundEven(q, j, u, t);
    FromEight(a);
  }

  lemma UnderFacts(q: nat, j: nat, t: nat)
    requires Under(q, j, t)
    ensures Common(q, j) <= t < Base(q, j)
  {
    BaseIs(q, j);
  }

  lemma NextIs(w: nat, t: nat)
    requires w > t
    ensures var skip, before := GetSkipHeight(w), GetSkipHeight(w - 1);
      NextHeight(w, t) == if skip == t || (skip > t && !(before < skip - 2 && before >= t)) then skip else w - 1
  {
    hide GetSkipHeight;
  }

  lemma FromTwo(q: nat, j: nat, a: nat, t: nat)
    requires Under(q, j, t) && (Ones(4 * a) == 0 ==> t <= InvertLowestOne(Common(q, j)) + 1)
    ensures DownFrom(q, j, 4 * a + 2, t)
  {
    hide GetSkipHeight, InvertLowestOne, Pow2, Common, Base, Ones;
    Halves(a);
    assert 4 * a + 2 - 2 == 4 * a;
    CommonInvert(q, j);
    InvertZero();
  }

  lemma FromFour(q: nat, j: nat, a: nat, t: nat)
    requires Under(q, j, t) && (Ones(8 * a + 2) == 1 ==> t <= Common(q, j) + 1)
    ensures DownFrom(q, j, 8 * a + 4, t)
  {
    hide GetSkipHeight, InvertLowestOne, Pow2, Common, Base, Ones;
    Halves(a);
    assert 8 * a + 4 - 2 == 8 * a + 2;
  }

  lemma FromEight(a: nat)
    ensures Ones(8 * a + 6) >= 2
    ensures InvertLowestOne(InvertLowestOne(8 * a + 6)) == 8 * a && InvertLowestOne(8 * a + 8) <= 8 * a
  {
    hide InvertLowestOne, Ones;
    Halves(a);
    ClearSix(a);
    ClearEight(a + 1);
  }

  /** Numbers that agree above bit `j` are at most MaxSteps(j) links apart. */
  lemma {:induction false} Within(p: nat, j: nat, a: nat, v: nat)
    requires v <= a < Pow2(j)
    ensures p * Pow2(j) + v <= p * Pow2(j) + a
    ensures Steps(p * Pow2(j) + a, p * Pow2(j) + v) <= MaxSteps(j)
    decreases j, 0, a
  {
    hide *;
    MaxStepsNext(j);
    if j == 0 {
      PowFacts(0);
      NoSteps(p * Pow2(j) + a);
    } else {
      PowFacts(j - 1);
      var half := Pow2(j - 1);
      Halved(p, half);
      CommonBase(p, j - 1);
      if a < half {
        Within(2 * p, j - 1, a, v);
      } else if v >= half {
        Within(2 * p + 1, j - 1, a - half, v - half);
      } else {
        Through(p, j - 1, a - half, v);
        ToGoBound(a - half, j - 1, v <= 1);
      }
    }
  }

  lemma MaxStepsNext(j: nat)
    ensures MaxSteps(0) == 0 && (j > 0 ==> MaxSteps(j) == MaxSteps(j - 1) + j + 1)
  {
  }

  lemma CommonBase(q: nat, j: nat)
    ensures Common(q, j) == (2 * q) * Pow2(j) && Base(q, j) == (2 * q + 1) * Pow2(j)
  {
  }

  lemma PowFacts(j: nat)
    ensures Pow2(0) == 1 && Pow2(j + 1) == 2 * Pow2(j)
  {
  }

  lemma Halved(p: nat, half: nat)
    ensures (2 * p) * half == p * (2 * half) && (2 * p + 1) * half == p * (2 * half) + half
  {
  }

  lemma NoSteps(w: nat)
    ensures Steps(w, w) == 0
  {
  }

  lemma OneStep(w: nat, t: nat)
    requires w > t
    ensures t <= NextHeight(w, t) < w && Steps(w, t) == 1 + Steps(NextHeight(w, t), t)
  {
    NextBetween(w, t);
  }

  /** From above the base to a target below it. */
  lemma {:induction false} Through(q: nat, j: nat, u: nat, v: nat)
    requires u < Pow2(j) && v < Pow2(j)
    ensures Common(q, j) + v <= Base(q, j) + u
    ensures Steps(Base(q, j) + u, Common(q, j) + v) <= MaxSteps(j) + ToGo(u, v <= 1)
    decreases j, 1, u
  {
    hide *;
    BaseIs(q, j);
    var w, t := Base(q, j) + u, Common(q, j) + v;
    UnderIs(q, j, v);
    OneStep(w, t);
    ToGoBound(u, j, v <= 1);
    var next := NextHeight(w, t);
    if next < Base(q, j) {
      Lands(q, j, next - Common(q, j), v);
    } else {
      Nearer(q, j, u, v);
      Through(q, j, next - Base(q, j), v);
    }
  }

  lemma UnderIs(q: nat, j: nat, v: nat)
    requires v < Pow2(j)
    ensures Under(q, j, Common(q, j) + v)
  {
  }

  lemma {:induction false} Lands(q: nat, j: nat, a: nat, v: nat)
    requires v <= a < Pow2(j)
    ensures Steps(Common(q, j) + a, Common(q, j) + v) <= MaxSteps(j)
    decreases j, 0, a + 1
  {
    hide Steps, MaxSteps;
    Within(2 * q, j, a, v);
  }

  /** A step that stays above the base gets nearer to it. */
  lemma Nearer(q: nat, j: nat, u: nat, v: nat)
    requires u < Pow2(j) && v < Pow2(j)
    ensures Base(q, j) + u > Common(q, j) + v
    ensures var next := NextHeight(Base(q, j) + u, Common(q, j) + v);
      next >= Base(q, j) ==> next - Base(q, j) < u && ToGo(next - Base(q, j), v <= 1) < ToGo(u, v <= 1)
  {
    hide GetSkipHeight, InvertLowestOne, Pow2, Common, Base, Ones, NextHeight;
    var t := Common(q, j) + v;
    UnderIs(q, j, v);
    BaseIs(q, j);
    NoOnes();
    if u == 0 {
      FromBase(q, j, t);
    } else if u % 2 == 1 {
      NearerOdd(q, j, u, v);
    } else {
      NearerEven(q, j, u, v);
    }
  }

  lemma NearerOdd(q: nat, j: nat, u: nat, v: nat)
    requires u < Pow2(j) && v < Pow2(j) && u % 2 == 1
    ensures Base(q, j) + u > Common(q, j) + v
    ensures var next := NextHeight(Base(q, j) + u, Common(q, j) + v);
      next >= Base(q, j) ==> next - Base(q, j) < u && ToGo(next - Base(q, j), v <= 1) < ToGo(u, v <= 1)
  {
    hide GetSkipHeight, InvertLowestOne, Pow2, Common, Base, Ones, NextHeight;
    var t, e := Common(q, j) + v, u - 1;
    UnderIs(q, j, v);
    BaseIs(q, j);
    NoOnes();
    if Ones(e) >= 2 {
      FromOdd(q, j, u, t);
      TwoCleared(e);
    } else if Ones(e) == 1 {
      FromOdd1(q, j, u, t);
    } else {
      SomeOnes(e);
      FromOdd0(q, j, t);
    }
  }

  lemma TwoCleared(e: nat)
    requires Ones(e) >= 2 && e % 2 == 0
    ensures var c := InvertLowestOne(InvertLowestOne(e)); c % 2 == 0 && c + 1 < e && Ones(c) == Ones(e) - 2
  {
    hide InvertLowestOne, Ones;
    SomeOnes(e);
    OnesInvert(e);
    SomeOnes(InvertLowestOne(e));
    OnesInvert(InvertLowestOne(e));
    InvertEven(e);
    InvertLess(e);
    InvertEven(InvertLowestOne(e));
    InvertLess(InvertLowestOne(e));
  }

  lemma InvertEven(e: nat)
    requires e % 2 == 0
    ensures InvertLowestOne(e) % 2 == 0
  {
    if e > 0 { InvertDouble(e / 2); }
  }

  lemma NearerEven(q: nat, j: nat, u: nat, v: nat)
    requires 0 < u < Pow2(j) && v < Pow2(j) && u % 2 == 0
    ensures Base(q, j) + u > Common(q, j) + v
    ensures var next := NextHeight(Base(q, j) + u, Common(q, j) + v);
      next >= Base(q, j) ==> next - Base(q, j) < u && ToGo(next - Base(q, j), v <= 1) < ToGo(u, v <= 1)
  {
    hide GetSkipHeight, InvertLowestOne, Pow2, Common, Base, Ones, NextHeight;
    UnderIs(q, j, v);
    BaseIs(q, j);
    FromEven(q, j, u, Common(q, j) + v);
    EvenGets(u, v <= 1);
  }

  lemma EvenGets(u: nat, near: bool)
    requires 0 < u && u % 2 == 0
    ensures var c := InvertLowestOne(u); c < u && ToGo(c, near) < ToGo(u, near)
    ensures Ones(u - 2) <= Ones(u) && (Ones(u) == 1 ==> near) ==> ToGo(u - 1, near) < ToGo(u, near)
  {
    hide InvertLowestOne, Ones;
    SomeOnes(u);
    OnesInvert(u);
    InvertLess(u);
    InvertEven(u);
    assert u - 1 - 1 == u - 2;
  }

  /** From a height below 2^k every ancestor is at most k * (k + 3) / 2 links away. */
  lemma FewSteps(w: nat, t: nat, k: nat)
    requires t <= w < Pow2(k)
    ensures 2 * Steps(w, t) <= k * (k + 3)
  {
    hide Steps, MaxSteps;
    Within(0, k, w, t);
    MaxStepsIs(k);
    assert 0 * Pow2(k) == 0;
  }
}
