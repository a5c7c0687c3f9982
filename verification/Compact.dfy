/** Compact targets (arith_uint256::SetCompact, GetCompact) and the work of a block (GetBlockProof). */
module Compact {
  import opened Bits
  import opened Limbs
  import opened ArithUint
  import opened ArithShift
  import opened ArithDiv

  const WIDTH: nat := 8
  const SIGN: nat := 0x0080_0000

  /** 256^k */
  function Bytes(k: nat): nat { Pow2(8 * k) }

  lemma BytesAdd(j: nat, k: nat)
    ensures Bytes(j + k) == Bytes(j) * Bytes(k)
  {
    Pow2Add(8 * j, 8 * k);
  }

  lemma SmallBytes()
    ensures Bytes(0) == 1 && Bytes(1) == 256 && Bytes(2) == 0x1_0000 && Bytes(3) == 0x100_0000
  {
    assert Pow2(8) == 256;
    Pow2Add(8, 8);
    Pow2Add(16, 8);
  }

  /** 2^256 */
  function Modulus(): nat { Bytes(32) }

  lemma ModulusIs()
    ensures Modulus() == BasePow(WIDTH) && Modulus() > 1
  {
    BasePowIsPow2(8);
    Pow2Monotone(1, 256);
  }

  /** The number that an exponent and a mantissa stand for, however large. */
  function Expand(size: nat, word: nat): nat {
    if size <= 3 then Shr(word, 8 * (3 - size)) else word * Bytes(size - 3)
  }

  /** The tests SetCompact makes for overflow are exactly the question whether the number is too large. */
  lemma OverflowIff(size: nat, word: nat)
    requires word < SIGN
    ensures var shifted := if size <= 3 then Shr(word, 8 * (3 - size)) else word;
      Expand(size, word) >= Modulus() <==>
        shifted != 0 && (size > 34 || (shifted > 0xff && size > 33) || (shifted > 0xffff && size > 32))
  {
    hide Bytes, Pow2;
    SmallBytes();
    ModulusIs();
    if size <= 3 {
      BytesUp(1, 32);
      ShrSmaller(word, 8 * (3 - size));
      BytesUp(3, 32);
    } else if size >= 35 {
      BytesAdd(size - 35, 32);
      BytesPositive(size - 35);
      AtLeast(word, Bytes(size - 35), Bytes(32));
    } else if size == 34 {
      BytesAdd(1, 31);
      Tops(word, 256, Bytes(31));
    } else if size == 33 {
      BytesAdd(2, 30);
      Tops(word, 0x1_0000, Bytes(30));
    } else {
      BytesUp(size - 3, 29);
      BytesAdd(3, 29);
      NeverTops(word, Bytes(size - 3), Bytes(29));
    }
  }

  lemma BytesPositive(k: nat)
    ensures Bytes(k) > 0
  {
  }

  lemma BytesUp(j: nat, k: nat)
    requires j <= k
    ensures Bytes(j) <= Bytes(k)
  {
    Pow2Monotone(8 * j, 8 * k);
  }

  lemma ShrSmaller(a: nat, k: nat)
    ensures Shr(a, k) <= a
  {
    DivNonNegative(a, Pow2(k));
    if a / Pow2(k) > 0 { Above(Pow2(k), a / Pow2(k)); Comm(Pow2(k), a / Pow2(k)); }
  }

  lemma AtLeast(w: nat, a: nat, m: nat)
    requires a > 0 && m > 0
    ensures w * (a * m) >= m <==> w != 0
  {
    if w != 0 {
      Assoc(w, a, m);
      Above(w, a);
      Above(w * a, m);
    }
  }

  lemma Tops(w: nat, k: nat, m: nat)
    requires m > 0
    ensures w * m >= k * m <==> w >= k
  {
    if w >= k { Scaled(k, w, m); } else { Smaller(w, k, m); }
  }

  lemma NeverTops(w: nat, a: nat, m: nat)
    requires w < SIGN && a <= m && m > 0
    ensures w * a < 0x100_0000 * m
  {
    Scaled(a, m, w);
    Comm(w, a);
    Comm(w, m);
    Smaller(w, 0x100_0000, m);
  }

  method FromWord(word: Limb) returns (pn: array<Limb>)
    ensures fresh(pn) && pn.Length == WIDTH && Value(pn) == word
  {
    pn := new Limb[WIDTH](i => if i == 0 then word else 0);
    hide BasePow;
    Padded(pn[..], 1);
    assert pn[..1] == [word];
  }

  /** Decodes a compact target: the sign bit of a non-zero number, whether the number exceeds 256 bits, and
      the number modulo 2^256. */
  method SetCompact(nCompact: Limb) returns (pn: array<Limb>, negative: bool, overflow: bool)
    ensures fresh(pn) && pn.Length == WIDTH
    ensures var size, word := nCompact / 0x100_0000, nCompact % SIGN;
      && (overflow <==> Expand(size, word) >= Modulus())
      && Value(pn) == Expand(size, word) % Modulus()
      && (negative <==> Bit(nCompact, 23) && if size <= 3 then Expand(size, word) != 0 else word != 0)
  {
    hide Val, BasePow, Pow2, Bytes, Modulus, Bit;
    var nSize, nWord := nCompact / 0x100_0000, nCompact % SIGN;
    ghost var word := nWord;
    OverflowIff(nSize, nWord);
    ModulusIs();
    if nSize <= 3 {
      ShrSmaller(nWord, 8 * (3 - nSize));
      nWord := Shr(nWord, 8 * (3 - nSize));
      pn := FromWord(nWord);
    } else {
      pn := FromWord(nWord);
      ShiftLeftAssign(pn, 8 * (nSize - 3));
    }
    negative := nWord != 0 && Bit(nCompact, 23);
    overflow := nWord != 0 && (nSize > 34 || (nWord > 0xff && nSize > 33) || (nWord > 0xffff && nSize > 32));
    if nSize <= 3 { SmallResidue(nWord); } else { ExpandIs(nSize, word); }
  }

  lemma SmallResidue(w: nat)
    requires w < SIGN
    ensures w % Modulus() == w
  {
    hide Bytes;
    SmallBytes();
    BytesUp(3, 32);
    DivisionUnique(w, Modulus(), 0, w);
  }

  lemma ExpandIs(size: nat, word: nat)
    requires size > 3
    ensures Expand(size, word) == word * Pow2(8 * (size - 3))
  {
  }

  // Encoding

  function ByteLength(x: nat): nat { if x == 0 then 0 else 1 + ByteLength(x / 256) }

  lemma {:induction false} ByteLengthIff(x: nat, s: nat)
    ensures ByteLength(x) == s <==> x < Bytes(s) && (s == 0 || Bytes(s - 1) <= x)
  {
    hide Bytes;
    SmallBytes();
    BytesPositive(s);
    if s > 0 {
      BytesAdd(1, s - 1);
      BytesPositive(s - 1);
      if x > 0 {
        ByteLengthIff(x / 256, s - 1);
        if s > 1 { BytesAdd(1, s - 2); }
      }
    }
  }

  /** The exponent and the mantissa GetCompact arrives at: the three leading bytes, or two of them with a
      larger exponent when the sign bit would be set. */
  function CompactOf(x: nat): (nat, nat) {
    var s := ByteLength(x);
    var w := if s <= 3 then x * Bytes(3 - s) else Shr(x, 8 * (s - 3));
    if w >= SIGN then (s + 1, w / 256) else (s, w)
  }

  /** Encoding and decoding a target loses at most one part in 2^15, never makes it larger, and encoding
      what was decoded gives the same code. */
  lemma CompactRoundTrip(x: nat)
    ensures var (size, word) := CompactOf(x);
      && word < SIGN && (x < Modulus() ==> size <= 33)
      && Expand(size, word) <= x && 0x8000 * (x - Expand(size, word)) <= x
      && CompactOf(Expand(size, word)) == (size, word)
  {
    var s := ByteLength(x);
    ByteLengthIff(x, s);
    SizeBound(x);
    if s <= 3 { RoundTripSmall(x, s); } else { RoundTripLarge(x, s); }
  }

  lemma SizeBound(x: nat)
    ensures x < Modulus() ==> ByteLength(x) <= 32
  {
    var s := ByteLength(x);
    ByteLengthIff(x, s);
    if s > 32 { BytesUp(32, s - 1); }
  }

  lemma RoundTripSmall(x: nat, s: nat)
    requires s <= 3 && ByteLength(x) == s && x < Bytes(s) && (s == 0 || Bytes(s - 1) <= x)
    ensures var (size, word) := CompactOf(x);
      && word < SIGN && size <= 4
      && Expand(size, word) <= x && 0x8000 * (x - Expand(size, word)) <= x
      && CompactOf(Expand(size, word)) == (size, word)
  {
    hide Bytes, ByteLength, Expand, CompactOf;
    SmallBytes();
    CodeSmall(x, s);
    if s == 1 {
      ExpandSmall(x * 0x1_0000);
      ExpandSmall(x * 0x100);
    } else if s == 2 {
      ExpandSmall(x * 0x100);
      ExpandSmall(x);
    } else {
      ExpandSmall(x);
      ExpandSmall(x / 256);
      if s == 3 && x >= SIGN {
        ByteLengthIff(x / 256 * 256, 3);
        CodeSmall(x / 256 * 256, 3);
      }
    }
  }

  /** The codes of numbers of at most three bytes. */
  lemma CodeSmall(x: nat, s: nat)
    requires s <= 3 && ByteLength(x) == s && x < Bytes(s)
    ensures s == 0 ==> CompactOf(x) == (0, 0) && x == 0
    ensures s == 1 ==> CompactOf(x) == if x >= 0x80 then (2, x * 0x100) else (1, x * 0x1_0000)
    ensures s == 2 ==> CompactOf(x) == if x >= 0x8000 then (3, x) else (2, x * 0x100)
    ensures s == 3 ==> CompactOf(x) == if x >= SIGN then (4, x / 256) else (3, x)
  {
    hide Bytes, ByteLength;
    SmallBytes();
  }

  lemma ExpandSmall(w: nat)
    ensures Expand(0, 0) == 0 && Expand(1, w) == w / 0x1_0000 && Expand(2, w) == w / 256
    ensures Expand(3, w) == w && Expand(4, w) == w * 256
  {
    SmallBytes();
    hide Pow2;
  }

  lemma RoundTripLarge(x: nat, s: nat)
    requires s > 3 && ByteLength(x) == s && x < Bytes(s) && Bytes(s - 1) <= x
    ensures var (size, word) := CompactOf(x);
      && word < SIGN && size <= s + 1
      && Expand(size, word) <= x && 0x8000 * (x - Expand(size, word)) <= x
      && CompactOf(Expand(size, word)) == (size, word)
  {
    hide Pow2, ByteLength, CompactOf, Expand, Bytes, Shr;
    var k, b, w := s - 3, Bytes(s - 3), Shr(x, 8 * (s - 3));
    SmallBytes();
    BytesPositive(k);
    BytesAdd(3, k);
    BytesAdd(2, k);
    BytesAdd(1, k);
    CodeLarge(x, s);
    LeadingBytes(x, w, b);
    var v := if w >= SIGN then w / 256 * 256 else w;
    Kept(x, w, v, b);
    SameCode(v, s);
    Assoc(w / 256, 256, b);
    ExpandLarge(s, w);
    ExpandLarge(s + 1, w / 256);
  }

  /** The codes of longer numbers. */
  lemma CodeLarge(x: nat, s: nat)
    requires s > 3 && ByteLength(x) == s
    ensures var w := Shr(x, 8 * (s - 3));
      w == x / Bytes(s - 3) && CompactOf(x) == if w >= SIGN then (s + 1, w / 256) else (s, w)
  {
    hide Pow2, ByteLength;
  }

  lemma ExpandLarge(size: nat, word: nat)
    requires size > 3
    ensures Expand(size, word) == word * Bytes(size - 3)
  {
    hide Bytes;
  }

  lemma LeadingBytes(x: nat, w: nat, b: nat)
    requires b > 0 && w == x / b && 0x1_0000 * b <= x < 0x100_0000 * b
    ensures w * b <= x < w * b + b && 0x1_0000 <= w < 0x100_0000
  {
    assert x == w * b + x % b;
    Below(w, 0x100_0000, b, x);
    if w < 0x1_0000 { Scaled(w + 1, 0x1_0000, b); Dist(w, 1, b); }
  }

  lemma Kept(x: nat, w: nat, v: nat, b: nat)
    requires w * b <= x < w * b + b && 0x1_0000 <= w < 0x100_0000
    requires v == if w >= SIGN then w / 256 * 256 else w
    ensures v * b <= x && 0x8000 * (x - v * b) <= x
  {
    Scaled(v, w, b);
    Dist(v, w - v, b);
    if w >= SIGN {
      Scaled(w - v, 255, b);
      Scaled(SIGN, w, b);
    } else {
      Scaled(0x1_0000, w, b);
    }
  }

  lemma SameCode(v: nat, s: nat)
    requires s > 3 && 0x1_0000 <= v < 0x100_0000
    ensures CompactOf(v * Bytes(s - 3)) == if v >= SIGN then (s + 1, v / 256) else (s, v)
  {
    var k, b := s - 3, Bytes(s - 3);
    SmallBytes();
    BytesPositive(k);
    BytesAdd(3, k);
    BytesAdd(2, k);
    Scaled(0x1_0000, v, b);
    Smaller(v, 0x100_0000, b);
    ByteLengthIff(v * b, s);
    MultipleOf(v, b);
  }

  // The methods

  method GetLow64(pn: array<Limb>) returns (low: U64)
    requires pn.Length == WIDTH
    ensures Value(pn) < BASE2 ==> low == Value(pn)
  {
    low := pn[0] + pn[1] * BASE;
    LowLimbs(pn[..]);
  }

  lemma LowLimbs(x: seq<Limb>)
    requires |x| >= 2
    ensures Val(x) < BASE2 ==> x[0] + x[1] * BASE == Val(x)
  {
    assert x[1..][0] == x[1];
    assert Val(x) == x[0] + BASE * (x[1] + BASE * Val(x[1..][1..]));
  }

  /** Encodes a target; both assertions of the source hold, whatever the number. */
  method GetCompact(pn: array<Limb>, fNegative: bool) returns (nCompact: nat)
    requires pn.Length == WIDTH
    ensures var (size, word) := CompactOf(Value(pn));
      && word < SIGN && size < 256
      && nCompact == size * 0x100_0000 + word + if fNegative && word != 0 then SIGN else 0
  {
    hide Val, BasePow, Pow2, Bytes, Or, Bit, ByteLength, Modulus;
    ghost var x := Value(pn);
    var bits := BitLength(pn);
    var nSize := (bits + 7) / 8;
    SizeFromBits(x, bits);
    CompactRoundTrip(x);
    ValBound(pn[..]);
    ModulusIs();
    Leading(x);
    if nSize <= 3 {
      var low := GetLow64(pn);
      nCompact := low * Pow2(8 * (3 - nSize));
    } else {
      var bn := Copy(pn);
      ShiftRightAssign(bn, 8 * (nSize - 3));
      nCompact := GetLow64(bn);
    }
    SignBit(nCompact);
    if Bit(nCompact, 23) {
      nCompact := nCompact / 256;
      nSize := nSize + 1;
    }
    assert (nSize, nCompact) == CompactOf(x);
    PutSize(nSize, nCompact);
    var word := nCompact;
    nCompact := Or(nCompact, nSize * 0x100_0000);
    if fNegative && word != 0 {
      PutSign(nSize, word);
      nCompact := Or(nCompact, SIGN);
    }
  }

  /** The leading three bytes, as GetCompact reads them, are less than 2^24 and all in the low word. */
  lemma Leading(x: nat)
    ensures var s := ByteLength(x);
      && (s <= 3 ==> x < BASE2 && x * Pow2(8 * (3 - s)) == x * Bytes(3 - s) < 0x100_0000)
      && (s > 3 ==> Shr(x, 8 * (s - 3)) < 0x100_0000)
  {
    var s := ByteLength(x);
    ByteLengthIff(x, s);
    SmallBytes();
    if s > 3 {
      BytesAdd(3, s - 3);
      BytesAdd(2, s - 3);
      hide Bytes;
      LeadingBytes(x, Shr(x, 8 * (s - 3)), Bytes(s - 3));
    } else {
      hide Bytes, ByteLength;
    }
  }

  lemma SizeFromBits(x: nat, bits: nat)
    requires x < Pow2(bits) && (bits > 0 ==> Pow2(bits - 1) <= x)
    ensures (bits + 7) / 8 == ByteLength(x)
  {
    var s := (bits + 7) / 8;
    Pow2Monotone(bits, 8 * s);
    if bits > 0 { Pow2Monotone(8 * (s - 1), bits - 1); }
    ByteLengthIff(x, s);
  }

  lemma SignIs()
    ensures Pow2(23) == SIGN && Pow2(24) == 0x100_0000
  {
    assert Pow2(8) == 256 && Pow2(7) == 128;
    Pow2Add(8, 8);
    Pow2Add(16, 7);
    Pow2Add(16, 8);
  }

  lemma SignBit(w: nat)
    requires w < 0x100_0000
    ensures Bit(w, 23) <==> w >= SIGN
  {
    SignIs();
    hide Pow2;
    TopBit(w, 23);
  }

  lemma PutSize(size: nat, word: nat)
    requires word < SIGN
    ensures Or(word, size * 0x100_0000) == size * 0x100_0000 + word
  {
    SmallBytes();
    hide Pow2, Or;
    MultipleOf(size, 0x100_0000);
    OrDisjoint(size * 0x100_0000, word, 24);
  }

  lemma PutSign(size: nat, word: nat)
    requires word < SIGN
    ensures Or(size * 0x100_0000 + word, SIGN) == size * 0x100_0000 + word + SIGN
  {
    SignIs();
    hide Pow2, Or, Bit;
    GapBit(size, word, 23);
    OrPow2(size * 0x100_0000 + word, 23);
  }

  // Work

  /** The target a compact code stands for, or 0 when the code is negative or too large. */
  function Target(nCompact: nat): nat {
    var t := Expand(nCompact / 0x100_0000, nCompact % SIGN);
    if Bit(nCompact, 23) || t >= Modulus() then 0 else t
  }

  /** The code of a target stands for the target up to one part in 2^15, and is the code of what it stands for. */
  lemma EncodedTarget(x: nat)
    requires x < Modulus()
    ensures var (size, word) := CompactOf(x); var t := Target(size * 0x100_0000 + word);
      t <= x && 0x8000 * (x - t) <= x && CompactOf(t) == (size, word)
  {
    var (size, word) := CompactOf(x);
    CompactRoundTrip(x);
    hide Pow2, Bytes, Bit, Expand, CompactOf, Modulus;
    SignIs();
    GapBit(size, word, 23);
  }

  /** GetBlockProof: the number of hashes a target asks for, 2^256 / (target + 1) rounded down, although
      2^256 itself does not fit into the numbers it is computed with. */
  method GetBlockProof(nBits: Limb) returns (work: array<Limb>)
    ensures work.Length == WIDTH
    ensures Value(work) == if Target(nBits) == 0 then 0 else Modulus() / (Target(nBits) + 1)
  {
    hide Val, BasePow, Pow2, Bytes, Modulus, Bit, Expand;
    var bnTarget, fNegative, fOverflow := SetCompact(nBits);
    ghost var t := Target(nBits);
    var zero := FromWord(0);
    var c := CompareTo(bnTarget, zero);
    Meaning(nBits / 0x100_0000, nBits % SIGN);
    if fNegative || fOverflow || c == 0 { return zero; }
    assert Value(bnTarget) == t;
    Rounded(t, Modulus());
    ModulusIs();
    work := Complement(bnTarget);
    var one := FromWord(1);
    AddAssign(bnTarget, one);
    SmallMod(t + 1, Modulus());
    var _ := DivAssign(work, bnTarget);
    AddAssign(work, one);
    SmallMod(Modulus() / (t + 1), Modulus());
  }

  lemma SmallMod(a: nat, m: nat)
    requires a < m
    ensures a % m == a
  {
    DivisionUnique(a, m, 0, a);
  }

  /** A target that fits is never the largest number, so that adding one to it does not wrap around. */
  lemma Meaning(size: nat, word: nat)
    requires word < SIGN
    ensures Expand(size, word) < Modulus() ==> Expand(size, word) % Modulus() == Expand(size, word) < Modulus() - 1
    ensures Expand(size, word) == 0 <==> if size <= 3 then Shr(word, 8 * (3 - size)) == 0 else word == 0
  {
    hide Bytes, Pow2;
    var x := Expand(size, word);
    SmallBytes();
    if size <= 3 {
      ShrSmaller(word, 8 * (3 - size));
      BytesUp(3, 32);
    } else {
      BytesPositive(size - 3);
      BytesAdd(1, size - 4);
      BytesAdd(1, 31);
      if word > 0 { Above(word, Bytes(size - 3)); }
      Assoc(word, 256, Bytes(size - 4));
      Assoc(256, word, Bytes(size - 4));
      assert x == 256 * (word * Bytes(size - 4));
      Apart(word * Bytes(size - 4), Bytes(31));
    }
    if x < Modulus() { SmallMod(x, Modulus()); }
  }

  lemma Apart(a: nat, b: nat)
    ensures 256 * a < 256 * b ==> 256 * a < 256 * b - 1
  {
  }

  lemma Rounded(t: nat, m: nat)
    requires 0 < t < m - 1
    ensures (m - 1 - t) / (t + 1) + 1 == m / (t + 1) && 0 <= m / (t + 1) < m
  {
    var d := t + 1;
    var q, r := m / d, m % d;
    assert m == q * d + r;
    DivNonNegative(m, d);
    assert m - d == (q - 1) * d + r;
    DivisionUnique(m - d, d, q - 1, r);
    if q >= m { Scaled(m, q, d); Comm(m, d); Scaled(2, d, m); }
  }
}
