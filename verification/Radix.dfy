/** Digits of a number in a base, most significant first, and the loop that appends a digit of another base. */
module Radix {
  import opened Bits

  function Power(b: nat, k: nat): nat { if k == 0 then 1 else b * Power(b, k - 1) }

  lemma Associate(x: int, y: int, z: int)
    ensures x * (y * z) == x * y * z
  {
  }

  lemma {:induction false} PowerAdd(b: nat, j: nat, k: nat)
    ensures Power(b, j + k) == Power(b, j) * Power(b, k)
  {
    if j > 0 {
      PowerAdd(b, j - 1, k);
      Associate(b, Power(b, j - 1), Power(b, k));
    }
  }

  lemma {:induction false} PowerMul(b: nat, j: nat, k: nat)
    ensures Power(Power(b, j), k) == Power(b, j * k)
  {
    if k == 0 {
      assert j * k == 0;
    } else {
      PowerMul(b, j, k - 1);
      PowerAdd(b, j, j * (k - 1));
      assert j + j * (k - 1) == j * k;
    }
  }

  lemma {:induction false} PowerMore(b: nat, j: nat, k: nat)
    requires b > 0 && j <= k
    ensures Power(b, j) <= Power(b, k)
  {
    if j < k {
      PowerMore(b, j, k - 1);
      Scaled(1, b, Power(b, k - 1));
    }
  }

  lemma {:induction false} PowerStrict(a: nat, b: nat, k: nat)
    requires a < b && k > 0
    ensures Power(a, k) < Power(b, k)
  {
    if k > 1 {
      PowerStrict(a, b, k - 1);
      Scaled(Power(a, k - 1) + 1, Power(b, k - 1), b);
      Scaled(a, b, Power(a, k - 1));
      Products(a, b, Power(a, k - 1), Power(b, k - 1));
    }
  }

  lemma Products(a: nat, b: nat, x: nat, y: nat)
    requires a < b && (x + 1) * b <= y * b && a * x <= b * x
    ensures a * x < b * y
  {
    assert (x + 1) * b == x * b + b;
  }

  lemma {:induction false} PowerWeak(a: nat, b: nat, k: nat)
    requires a <= b
    ensures Power(a, k) <= Power(b, k)
  {
    if a < b && k > 0 { PowerStrict(a, b, k); }
  }

  /** If `p` digits of one base never exceed `q` of another, `n` of the first fit into `m` of the other as soon as
      `m / n` is at least `q / p`. */
  lemma Fits(a: nat, b: nat, p: nat, q: nat, n: nat, m: nat)
    requires a > 0 && b > 0 && p > 0 && Power(a, p) <= Power(b, q) && q * n <= p * m
    ensures Power(a, n) <= Power(b, m)
  {
    hide *;
    Swapped(a, n, p);
    PowerWeak(Power(a, p), Power(b, q), n);
    PowerMul(b, q, n);
    PowerMore(b, q * n, p * m);
    PowerMul(b, p, m);
    Swapped(b, m, p);
    RootOrder(Power(a, n), Power(b, m), p);
  }

  lemma Swapped(b: nat, j: nat, k: nat)
    ensures Power(Power(b, j), k) == Power(Power(b, k), j)
  {
    hide *;
    PowerMul(b, j, k);
    PowerMul(b, k, j);
    assert j * k == k * j;
  }

  lemma RootOrder(x: nat, y: nat, k: nat)
    requires k > 0 && Power(x, k) <= Power(y, k)
    ensures x <= y
  {
    hide *;
    if y < x { PowerStrict(y, x, k); }
  }

  // Digits

  function Value(s: seq<nat>, b: nat): nat { if s == [] then 0 else Value(s[..|s| - 1], b) * b + s[|s| - 1] }

  ghost predicate AreDigits(s: seq<nat>, b: nat) { forall i | 0 <= i < |s| :: s[i] < b }

  lemma {:induction false} ValueConcat(s: seq<nat>, t: seq<nat>, b: nat)
    ensures Value(s + t, b) == Value(s, b) * Power(b, |t|) + Value(t, b)
  {
    if t == [] {
      assert s + t == s;
    } else {
      var n := |t| - 1;
      assert (s + t)[..|s + t| - 1] == s + t[..n];
      ValueConcat(s, t[..n], b);
      Shifted(Value(s, b), Power(b, n), Value(t[..n], b), b);
    }
  }

  lemma Shifted(x: nat, p: nat, y: nat, b: nat)
    ensures (x * p + y) * b == x * (b * p) + y * b
  {
    assert (x * p + y) * b == x * p * b + y * b;
    assert x * p * b == x * (b * p);
  }

  lemma {:induction false} ValueBound(s: seq<nat>, b: nat)
    requires AreDigits(s, b) && b > 0
    ensures Value(s, b) < Power(b, |s|)
  {
    if s != [] {
      var n := |s| - 1;
      ValueBound(s[..n], b);
      Scaled(Value(s[..n], b) + 1, Power(b, n), b);
      assert (Value(s[..n], b) + 1) * b == Value(s[..n], b) * b + b;
    }
  }

  lemma {:induction false} ValueZeros(s: seq<nat>, b: nat)
    requires forall i | 0 <= i < |s| :: s[i] == 0
    ensures Value(s, b) == 0
  {
    if s != [] { ValueZeros(s[..|s| - 1], b); }
  }

  lemma QuotientSmaller(v: nat, b: nat)
    requires v > 0 && b > 1
    ensures 0 <= v / b < v && v == v / b * b + v % b
  {
    DivNonNegative(v, b);
    if v / b >= v {
      Scaled(v, v / b, b);
      Scaled(2, b, v);
    }
  }

  lemma LeadingZeros(s: seq<nat>, n: nat, b: nat)
    requires n <= |s| && forall i | 0 <= i < n :: s[i] == 0
    ensures Value(s, b) == Value(s[n..], b)
  {
    hide Value, Power;
    assert s == s[..n] + s[n..];
    ValueConcat(s[..n], s[n..], b);
    ValueZeros(s[..n], b);
  }

  /** The digits of a number, without leading zeros. */
  function Digits(v: nat, b: nat): seq<nat>
    requires b > 1
  {
    if v == 0 then [] else
      QuotientSmaller(v, b);
      Digits(v / b, b) + [v % b]
  }

  lemma OneDigitMore(d: seq<nat>, r: nat, b: nat)
    requires r < b && AreDigits(d, b)
    ensures Value(d + [r], b) == Value(d, b) * b + r && AreDigits(d + [r], b)
  {
    assert (d + [r])[..|d|] == d;
  }

  lemma DigitBelow(v: nat, b: nat)
    requires b > 1
    ensures 0 <= v % b < b
  {
  }

  lemma SmallQuotient(v: nat, b: nat)
    requires v > 0 && b > 1
    ensures v / b == 0 ==> v % b == v
  {
    QuotientSmaller(v, b);
  }

  lemma {:induction false} DigitsAre(v: nat, b: nat)
    requires b > 1
    ensures Value(Digits(v, b), b) == v && AreDigits(Digits(v, b), b)
    ensures v > 0 ==> Digits(v, b) != [] && Digits(v, b)[0] != 0
    ensures v == 0 ==> Digits(v, b) == []
  {
    if v > 0 {
      QuotientSmaller(v, b);
      var q, r := v / b, v % b;
      DigitsAre(q, b);
      assert Digits(v, b) == Digits(q, b) + [r];
      hide *;
      DigitBelow(v, b);
      OneDigitMore(Digits(q, b), r, b);
      SmallQuotient(v, b);
    }
  }

  /** There is only one way to write a number without leading zeros. */
  lemma {:induction false} DigitsUnique(s: seq<nat>, b: nat)
    requires b > 1 && AreDigits(s, b) && (s != [] ==> s[0] != 0)
    ensures Digits(Value(s, b), b) == s
  {
    if s != [] {
      var n := |s| - 1;
      var q, r := Value(s[..n], b), s[n];
      DivisionUnique(q * b + r, b, q, r);
      DigitsUnique(s[..n], b);
      if n == 0 { assert q == 0; } else { DigitsAre(q, b); assert q > 0; assert q * b > 0; }
      assert s == s[..n] + [r];
    }
  }

  // Appending a digit of another base

  /** The last `i` digits of `t` and a carry are those of `s`, times `mult`, plus `digit`. */
  ghost predicate Carried(s: seq<nat>, t: seq<nat>, i: nat, carry: nat, base: nat, mult: nat, digit: nat) {
    && |t| == |s| && i <= |s| && t[..|s| - i] == s[..|s| - i] && AreDigits(t, base)
    && Value(t[|s| - i..], base) + carry * Power(base, i) == Value(s[|s| - i..], base) * mult + digit
  }

  lemma CarriedNone(s: seq<nat>, base: nat, mult: nat, digit: nat)
    requires AreDigits(s, base)
    ensures Carried(s, s, 0, digit, base, mult, digit)
  {
  }

  lemma CarriedNext(s: seq<nat>, t: seq<nat>, i: nat, carry: nat, base: nat, mult: nat, digit: nat)
    requires Carried(s, t, i, carry, base, mult, digit) && i < |s| && base > 1
    ensures var k := |s| - 1 - i; var c := carry + mult * t[k];
      0 <= c / base && Carried(s, t[k := c % base], i + 1, c / base, base, mult, digit)
  {
    var k := |s| - 1 - i;
    assert t[k] == t[..k + 1][k] == s[..k + 1][k] == s[k];
    var c: nat := carry + mult * t[k];
    DivNonNegative(c, base);
    var u := t[k := c % base];
    assert u[k..] == [c % base] + t[k + 1..];
    assert s[k..] == [s[k]] + s[k + 1..];
    ValueConcat([c % base], t[k + 1..], base);
    ValueConcat([s[k]], s[k + 1..], base);
    One(c % base, base);
    One(s[k], base);
    assert u[..k] == s[..k] by { assert u[..k] == t[..k + 1][..k] && s[..k] == s[..k + 1][..k]; }
    assert Power(base, i + 1) == base * Power(base, i);
    hide *;
    CarryStep(Power(base, i), carry, c, Value(t[k + 1..], base), Value(s[k + 1..], base), s[k], base, mult, digit);
  }

  lemma One(x: nat, b: nat)
    ensures Value([x], b) == x
  {
    assert [x][..0] == [];
  }

  lemma CarryStep(p: nat, carry: nat, c: nat, l: nat, r: nat, x: nat, base: nat, mult: nat, digit: nat)
    requires base > 1 && c == carry + mult * x && l + carry * p == r * mult + digit
    ensures (c % base) * p + l + (c / base) * (base * p) == (x * p + r) * mult + digit
  {
    assert c == (c / base) * base + c % base;
    calc {
      (c % base) * p + l + (c / base) * (base * p);
      { assert (c / base) * (base * p) == ((c / base) * base) * p; }
      (c % base) * p + ((c / base) * base) * p + l;
      { assert (c % base) * p + ((c / base) * base) * p == c * p; }
      (carry + mult * x) * p + l;
      { assert (carry + mult * x) * p == carry * p + (mult * x) * p; }
      r * mult + digit + (mult * x) * p;
      { assert (mult * x) * p == (x * p) * mult; }
      (x * p + r) * mult + digit;
    }
  }

  lemma CarriedAll(s: seq<nat>, t: seq<nat>, i: nat, carry: nat, base: nat, mult: nat, digit: nat)
    requires Carried(s, t, i, carry, base, mult, digit)
    requires i == |s| || (carry == 0 && forall k | 0 <= k < |s| - i :: s[k] == 0)
    ensures carry * Power(base, |s|) + Value(t, base) == Value(s, base) * mult + digit
  {
    hide Value, Power;
    var n := |s| - i;
    if i == |s| {
      assert t[n..] == t && s[n..] == s;
    } else {
      assert forall k | 0 <= k < n :: t[k] == t[..n][k] == s[..n][k];
      LeadingZeros(t, n, base);
      LeadingZeros(s, n, base);
    }
  }

  /** Multiplies the number in a buffer by `mult` and adds `digit`, from the last digit up. Digits before the last
      `length` are zero. */
  method MulAdd(buf: array<nat>, base: nat, mult: nat, digit: nat, length: nat) returns (carry: nat, newLength: nat)
    requires base > 1 && length <= buf.Length && AreDigits(buf[..], base)
    requires forall i | 0 <= i < buf.Length - length :: buf[i] == 0
    modifies buf
    ensures newLength <= buf.Length && AreDigits(buf[..], base)
    ensures forall i | 0 <= i < buf.Length - newLength :: buf[i] == 0
    ensures carry * Power(base, buf.Length) + Value(buf[..], base) == old(Value(buf[..], base)) * mult + digit
  {
    ghost var s := buf[..];
    carry := digit;
    var i := 0;
    CarriedNone(s, base, mult, digit);
    while (carry != 0 || i < length) && i < buf.Length
      invariant 0 <= i <= buf.Length && Carried(s, buf[..], i, carry, base, mult, digit)
    {
      hide Carried;
      ghost var t := buf[..];
      CarriedNext(s, t, i, carry, base, mult, digit);
      carry := carry + mult * buf[buf.Length - 1 - i];
      var rest: nat := carry % base;
      buf[buf.Length - 1 - i] := rest;
      assert buf[..] == t[buf.Length - 1 - i := rest];
      carry := carry / base;
      i := i + 1;
    }
    newLength := i;
    CarriedAll(s, buf[..], i, carry, base, mult, digit);
    assert forall k | 0 <= k < |s| - i :: buf[k] == buf[..][..|s| - i][k] == s[..|s| - i][k];
  }
}
