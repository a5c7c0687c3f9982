/** Base58 strings, with and without a checksum (src/base58.cpp). */
module Base58 {
  import opened Bits
  import opened Options
  import opened Radix

  type Bytes = seq<nat>

  // The alphabet

  /** The characters in order: digits, upper case and lower case letters, without 0, I, O and l. */
  function CharOf(d: nat): char
    requires d < 58
  {
    (if d < 9 then d + 49
     else if d < 17 then d + 56
     else if d < 22 then d + 57
     else if d < 33 then d + 58
     else if d < 44 then d + 64
     else d + 65) as char
  }

  /** The place of a character in the alphabet, or 58. */
  function DigitOf(c: char): (d: nat)
    ensures d <= 58 && (d < 58 ==> CharOf(d) == c)
  {
    var x := c as int;
    if 49 <= x <= 57 then x - 49
    else if 65 <= x <= 72 then x - 56
    else if 74 <= x <= 78 then x - 57
    else if 80 <= x <= 90 then x - 58
    else if 97 <= x <= 107 then x - 64
    else if 109 <= x <= 122 then x - 65
    else 58
  }

  lemma DigitOfChar(d: nat)
    requires d < 58
    ensures DigitOf(CharOf(d)) == d && !IsSpace(CharOf(d)) && CharOf(d) != '\0'
  {
  }

  predicate IsSpace(c: char) { c == ' ' || 9 <= c as int <= 13 }

  // What the two functions compute

  /** The number of leading elements that are `x`. */
  function Leading<T(==)>(s: seq<T>, x: T): (n: nat)
    ensures n <= |s| && (n < |s| ==> s[n] != x) && forall i | 0 <= i < n :: s[i] == x
  {
    if s == [] || s[0] != x then 0 else 1 + Leading(s[1..], x)
  }

  function Text(d: seq<nat>): (t: string)
    requires AreDigits(d, 58)
    ensures |t| == |d| && forall i | 0 <= i < |d| :: t[i] == CharOf(d[i])
  {
    seq(|d|, i requires 0 <= i < |d| => CharOf(d[i]))
  }

  /** One '1' for each leading zero byte, then the number in base 58. */
  ghost function Encoded(b: Bytes): string {
    var z := Leading(b, 0);
    DigitsAre(Value(b[z..], 256), 58);
    seq(z, _ => '1') + Text(Digits(Value(b[z..], 256), 58))
  }

  /** A C string ends at the first zero character. */
  function CString(s: string): (t: string)
    ensures |t| <= |s| && t == s[..|t|] && '\0' !in t && (|t| < |s| ==> s[|t|] == '\0')
  {
    if s == [] || s[0] == '\0' then [] else [s[0]] + CString(s[1..])
  }

  /** Without spaces at the start. */
  function TrimLeft(s: string): (t: string)
    ensures |t| <= |s| && t == s[|s| - |t|..] && (t != [] ==> !IsSpace(t[0]))
  {
    if s == [] || !IsSpace(s[0]) then s else TrimLeft(s[1..])
  }

  /** The characters before the first space. */
  function Word(s: string): (w: string)
    ensures |w| <= |s| && w == s[..|w|] && (|w| < |s| ==> IsSpace(s[|w|])) && forall i | 0 <= i < |w| :: !IsSpace(w[i])
  {
    if s == [] || IsSpace(s[0]) then [] else [s[0]] + Word(s[1..])
  }

  /** A single word of the alphabet, with spaces around it. */
  ghost predicate Decodable(s: string) {
    var t := TrimLeft(CString(s));
    var w := Word(t);
    TrimLeft(t[|w|..]) == [] && forall i | 0 <= i < |w| :: DigitOf(w[i]) < 58
  }

  /** The characters of the word between the spaces. */
  ghost function Trimmed(s: string): string { Word(TrimLeft(CString(s))) }

  /** A zero byte for each leading '1' of a word, then its number in base 256. */
  ghost function WordBytes(w: string): Bytes {
    var z := Leading(w, '1');
    seq(z, _ => 0) + Digits(Value(DigitSeq(w[z..]), 58), 256)
  }

  ghost predicate Decodes(s: string, b: Bytes) { Decodable(s) && b == WordBytes(Trimmed(s)) }

  function DigitSeq(w: string): (d: seq<nat>)
    ensures |d| == |w| && forall i | 0 <= i < |w| :: d[i] == DigitOf(w[i])
  {
    seq(|w|, i requires 0 <= i < |w| => DigitOf(w[i]))
  }

  ghost predicate AreBytes(b: Bytes) { AreDigits(b, 256) }

  // Round trips

  lemma EncodedText(b: Bytes)
    ensures var z := Leading(b, 0); var t := Encoded(b); var v := Value(b[z..], 256);
      && |t| >= z && Leading(t, '1') == z && DigitSeq(t[z..]) == Digits(v, 58)
      && forall i | 0 <= i < |t| :: DigitOf(t[i]) < 58 && !IsSpace(t[i]) && t[i] != '\0'
  {
    hide IsSpace, DigitOf, CharOf, Digits, Value, Leading;
    var z := Leading(b, 0);
    var v := Value(b[z..], 256);
    var t, d := Encoded(b), Digits(v, 58);
    DigitsAre(v, 58);
    One();
    forall i | 0 <= i < |t| ensures DigitOf(t[i]) < 58 && !IsSpace(t[i]) && t[i] != '\0' {
      if i >= z { DigitOfChar(d[i - z]); } else { DigitOfChar(0); }
    }
    forall i | 0 <= i < |d| ensures DigitSeq(t[z..])[i] == d[i] { DigitOfChar(d[i]); }
    if d != [] { DigitOfChar(d[0]); }
    DigitOfChar(0);
    LeadingIs(t, '1', z);
  }

  lemma One()
    ensures CharOf(0) == '1'
  {
  }

  lemma LeadingIs<T>(s: seq<T>, x: T, n: nat)
    requires n <= |s| && (n < |s| ==> s[n] != x) && forall i | 0 <= i < n :: s[i] == x
    ensures Leading(s, x) == n
  {
    hide Leading;
  }

  /** Text without spaces or zero characters is one word. */
  lemma PlainText(t: string)
    requires forall i | 0 <= i < |t| :: !IsSpace(t[i]) && t[i] != '\0'
    ensures CString(t) == t && TrimLeft(t) == t && Word(t) == t
  {
    hide IsSpace, CString, Word;
    assert |CString(t)| == |t| && |Word(t)| == |t|;
  }

  lemma TextOfDigits(w: string)
    requires forall i | 0 <= i < |w| :: DigitOf(w[i]) < 58
    ensures AreDigits(DigitSeq(w), 58) && Text(DigitSeq(w)) == w
  {
    hide DigitOf, CharOf;
  }

  /** Decoding what was encoded gives the same bytes. */
  lemma DecodeEncoded(b: Bytes)
    requires AreBytes(b)
    ensures Decodes(Encoded(b), b)
  {
    hide Encoded, IsSpace, DigitOf, CString, TrimLeft, Word, Leading, Digits, Value, DigitSeq;
    var z, t := Leading(b, 0), Encoded(b);
    var v := Value(b[z..], 256);
    EncodedText(b);
    PlainText(t);
    assert Word(TrimLeft(CString(t))) == t && t[|t|..] == [] && TrimLeft([]) == [];
    DigitsAre(v, 58);
    assert Value(DigitSeq(t[z..]), 58) == v;
    DigitsUnique(b[z..], 256);
    assert b == seq(z, _ => 0) + b[z..];
  }

  /** Encoding what was decoded gives the text without the spaces around it. */
  lemma EncodeDecoded(s: string, b: Bytes)
    requires Decodes(s, b)
    ensures Encoded(b) == Trimmed(s) && AreBytes(b)
  {
    hide IsSpace, DigitOf, CharOf, CString, TrimLeft, Word, Leading, Digits, Value, DigitSeq, Text;
    var w := Trimmed(s);
    var z := Leading(w, '1');
    var d := DigitSeq(w[z..]);
    DigitsAre(Value(d, 58), 256);
    First(w, z);
    DigitsUnique(d, 58);
    LeadingIs(b, 0, z);
    assert b[z..] == Digits(Value(d, 58), 256);
    TextOfDigits(w[z..]);
    assert w == seq(z, _ => '1') + w[z..];
  }

  lemma First(w: string, z: nat)
    requires z <= |w| && (z < |w| ==> w[z] != '1')
    ensures DigitSeq(w[z..]) != [] ==> DigitSeq(w[z..])[0] != 0
  {
  }

  // The buffers are large enough

  /** Eight bytes fit into eleven digits. */
  lemma EightBytes()
    ensures Power(256, 8) <= Power(58, 11)
  {
    hide Power;
    Squares();
    PowerAdd(256, 2, 2);
    PowerAdd(256, 4, 4);
    PowerAdd(58, 2, 2);
    PowerAdd(58, 4, 4);
    PowerAdd(58, 8, 2);
    PowerAdd(58, 10, 1);
  }

  /** Seventy-one digits fit into fifty-two bytes. */
  lemma SeventyOneDigits()
    ensures Power(58, 71) <= Power(256, 52)
  {
    hide Power;
    Squares();
    PowerAdd(58, 2, 2);
    PowerAdd(58, 4, 4);
    PowerAdd(58, 8, 8);
    PowerAdd(58, 16, 16);
    PowerAdd(58, 32, 32);
    PowerAdd(58, 64, 4);
    PowerAdd(58, 68, 2);
    PowerAdd(58, 70, 1);
    PowerAdd(256, 2, 2);
    PowerAdd(256, 4, 4);
    PowerAdd(256, 8, 8);
    PowerAdd(256, 16, 16);
    PowerAdd(256, 32, 16);
    PowerAdd(256, 48, 4);
  }

  lemma Squares()
    ensures Power(58, 1) == 58 && Power(58, 2) == 3364 && Power(256, 2) == 65536
  {
  }

  lemma EncodeSize(n: nat)
    ensures Power(256, n) <= Power(58, n * 138 / 100 + 1)
  {
    hide Power;
    EightBytes();
    Fits(256, 58, 8, 11, n, n * 138 / 100 + 1);
  }

  lemma DecodeSize(n: nat)
    ensures Power(58, n) <= Power(256, n * 733 / 1000 + 1)
  {
    hide Power;
    SeventyOneDigits();
    Fits(58, 256, 71, 52, n, n * 733 / 1000 + 1);
  }

  // The loops

  /** The buffer holds a number, with zeros before its last `length` digits. */
  ghost predicate Holding(buf: seq<nat>, base: nat, length: nat, v: nat) {
    && length <= |buf| && AreDigits(buf, base) && Value(buf, base) == v
    && forall i | 0 <= i < |buf| - length :: buf[i] == 0
  }

  /** One step of a conversion; the assertion that no carry is left holds while the number fits the buffer. */
  method Append(buf: array<nat>, base: nat, mult: nat, digit: nat, length: nat, ghost v: nat) returns (newLength: nat)
    requires base > 1 && Holding(buf[..], base, length, v) && v * mult + digit < Power(base, buf.Length)
    modifies buf
    ensures Holding(buf[..], base, newLength, v * mult + digit)
  {
    hide Value, Power;
    var carry;
    carry, newLength := MulAdd(buf, base, mult, digit, length);
    assert carry == 0 by { if carry > 0 { Scaled(1, carry, Power(base, buf.Length)); } }
  }

  /** The digits of the number in a buffer. */
  method Significant(buf: array<nat>, base: nat, length: nat, ghost v: nat) returns (d: seq<nat>)
    requires base > 1 && Holding(buf[..], base, length, v)
    ensures d == Digits(v, base)
  {
    hide Value, Digits;
    var it := buf.Length - length;
    while it != buf.Length && buf[it] == 0
      invariant 0 <= it <= buf.Length && forall i | 0 <= i < it :: buf[i] == 0
    {
      it := it + 1;
    }
    d := buf[it..];
    assert buf[..][it..] == d;
    LeadingZeros(buf[..], it, base);
    DigitsUnique(d, base);
  }

  lemma NextByte(b: seq<nat>, from: nat, k: nat, base: nat, size: nat)
    requires from <= k < |b| && AreDigits(b, base) && base > 0 && Power(base, |b| - from) <= size
    ensures Value(b[from..k + 1], base) == Value(b[from..k], base) * base + b[k] < size
  {
    var s := b[from..k + 1];
    assert s[..|s| - 1] == b[from..k];
    ValueBound(s, base);
    PowerMore(base, |s|, |b| - from);
  }

  method EncodeBase58(b: Bytes) returns (str: string)
    requires AreBytes(b)
    ensures str == Encoded(b)
  {
    hide Value, Digits, Leading;
    var zeroes := 0;
    while zeroes < |b| && b[zeroes] == 0
      invariant zeroes <= |b| && forall i | 0 <= i < zeroes :: b[i] == 0
    {
      zeroes := zeroes + 1;
    }
    LeadingIs(b, 0, zeroes);
    var d := ToBase58(b, zeroes);
    DigitsAre(Value(b[zeroes..], 256), 58);
    str := seq(zeroes, _ => '1') + Text(d);
  }

  method ToBase58(b: Bytes, zeroes: nat) returns (d: seq<nat>)
    requires AreBytes(b) && zeroes <= |b|
    ensures d == Digits(Value(b[zeroes..], 256), 58)
  {
    hide Holding, Value, Power, Digits;
    var size := (|b| - zeroes) * 138 / 100 + 1;
    EncodeSize(|b| - zeroes);
    var b58 := new nat[size](_ => 0);
    var length := 0;
    NothingHeld(b58[..], b, zeroes);
    for k := zeroes to |b|
      invariant b58.Length == size && Holding(b58[..], 58, length, Value(b[zeroes..k], 256))
    {
      NextByte(b, zeroes, k, 256, Power(58, size));
      length := Append(b58, 58, 256, b[k], length, Value(b[zeroes..k], 256));
    }
    assert b[zeroes..|b|] == b[zeroes..];
    d := Significant(b58, 58, length, Value(b[zeroes..], 256));
  }

  lemma NothingHeld(buf: seq<nat>, b: Bytes, from: nat)
    requires (forall i | 0 <= i < |buf| :: buf[i] == 0) && from <= |b|
    ensures Holding(buf, 58, 0, Value(b[from..from], 256))
  {
    ValueZeros(buf, 58);
  }

  // Scanning text

  lemma {:induction false} TrimLeftIs(s: string, n: nat)
    requires n <= |s| && (forall i | 0 <= i < n :: IsSpace(s[i])) && (n < |s| ==> !IsSpace(s[n]))
    ensures TrimLeft(s) == s[n..]
  {
    hide IsSpace;
    if n > 0 {
      TrimLeftIs(s[1..], n - 1);
      assert s[1..][n - 1..] == s[n..];
    }
  }

  lemma WordIs(s: string, n: nat)
    requires n <= |s| && (forall i | 0 <= i < n :: !IsSpace(s[i])) && (n < |s| ==> IsSpace(s[n]))
    ensures Word(s) == s[..n]
  {
    hide IsSpace, Word;
    var w := Word(s);
    assert forall i | 0 <= i < |w| :: w[i] == s[i];
    assert |w| == n;
  }

  lemma InWord(s: string, n: nat)
    requires n < |s| && forall i | 0 <= i <= n :: !IsSpace(s[i])
    ensures n < |Word(s)| && Word(s)[n] == s[n]
  {
    hide IsSpace, Word;
  }

  /** Skips characters of one kind. */
  method SkipSpaces(t: string, from: nat) returns (i: nat)
    requires from <= |t|
    ensures from <= i <= |t| && TrimLeft(t[from..]) == t[i..]
  {
    hide IsSpace;
    i := from;
    while i < |t| && IsSpace(t[i])
      invariant from <= i <= |t| && forall k | from <= k < i :: IsSpace(t[k])
    {
      i := i + 1;
    }
    TrimLeftIs(t[from..], i - from);
  }

  /** What a scan has found: spaces, a '1' for each position up to `ones`, and a word up to `end`. */
  lemma Scanned(str: string, t: string, start: nat, ones: nat, end: nat)
    requires t == CString(str) && start <= ones <= end <= |t| && TrimLeft(t) == t[start..]
    requires (forall k | start <= k < ones :: t[k] == '1') && (ones < |t| ==> t[ones] != '1')
    requires (forall k | start <= k < end :: !IsSpace(t[k])) && (end < |t| ==> IsSpace(t[end]))
    requires forall k | ones <= k < end :: DigitOf(t[k]) < 58
    ensures Trimmed(str) == t[start..end] && (Decodable(str) <==> TrimLeft(t[end..]) == [])
    ensures WordBytes(Trimmed(str)) == seq(ones - start, _ => 0) + Digits(Value(DigitSeq(t[ones..end]), 58), 256)
  {
    hide IsSpace, DigitOf, CString, TrimLeft, Word, WordBytes, Digits, Value, Trimmed, Decodable;
    OneIsZero();
    assert forall k | start <= k < end :: DigitOf(t[k]) < 58;
    ScannedWord(str, t, start, end);
    var w := t[start..end];
    BytesOfWord(w, ones - start);
    assert w[ones - start..] == t[ones..end];
  }

  lemma OneIsZero()
    ensures DigitOf('1') == 0
  {
  }

  lemma ScannedWord(str: string, t: string, start: nat, end: nat)
    requires t == CString(str) && start <= end <= |t| && TrimLeft(t) == t[start..]
    requires (forall k | start <= k < end :: !IsSpace(t[k]) && DigitOf(t[k]) < 58) && (end < |t| ==> IsSpace(t[end]))
    ensures Trimmed(str) == t[start..end] && (Decodable(str) <==> TrimLeft(t[end..]) == [])
  {
    hide IsSpace, DigitOf, CString, TrimLeft, Word;
    var u, w := t[start..], t[start..end];
    WordIs(u, end - start);
    assert u[..end - start] == w && u[|w|..] == t[end..];
  }

  lemma BytesOfWord(w: string, z: nat)
    requires z <= |w| && (forall k | 0 <= k < z :: w[k] == '1') && (z < |w| ==> w[z] != '1')
    ensures WordBytes(w) == seq(z, _ => 0) + Digits(Value(DigitSeq(w[z..]), 58), 256)
  {
    hide Digits, Value, DigitSeq;
    LeadingIs(w, '1', z);
  }

  lemma ScannedBad(str: string, t: string, start: nat, i: nat)
    requires t == CString(str) && start <= i < |t| && TrimLeft(t) == t[start..]
    requires (forall k | start <= k <= i :: !IsSpace(t[k])) && DigitOf(t[i]) == 58
    ensures !Decodable(str)
  {
    hide IsSpace, DigitOf, CString, TrimLeft, Word;
    var w := t[start..];
    assert forall k | 0 <= k <= i - start :: w[k] == t[start + k];
    InWord(w, i - start);
  }

  lemma OneIsNoSpace()
    ensures !IsSpace('1')
  {
  }

  method SkipOnes(t: string, from: nat) returns (i: nat)
    requires from <= |t|
    ensures from <= i <= |t| && (forall k | from <= k < i :: t[k] == '1') && (i < |t| ==> t[i] != '1')
  {
    i := from;
    while i < |t| && t[i] == '1'
      invariant from <= i <= |t| && forall k | from <= k < i :: t[k] == '1'
    {
      i := i + 1;
    }
  }

  method DecodeBase58(str: string) returns (r: Option<Bytes>)
    ensures r == if Decodable(str) then Some(WordBytes(Trimmed(str))) else None
  {
    hide *;
    var t := CString(str);
    var start := SkipSpaces(t, 0);
    assert t[0..] == t;
    OneIsNoSpace();
    var i := SkipOnes(t, start);
    var d, end := ScanDigits(t, i);
    if d.None? {
      ScannedBad(str, t, start, end);
      return None;
    }
    Scanned(str, t, start, i, end);
    var rest := SkipSpaces(t, end);
    r := if rest != |t| then None else Some(seq(i - start, _ => 0) + d.value);
  }

  /** Reads the characters from `from` up to a space as a number. */
  method ScanDigits(t: string, from: nat) returns (r: Option<Bytes>, i: nat)
    requires from <= |t|
    ensures from <= i <= |t|
    ensures r.Some? ==>
      && (i < |t| ==> IsSpace(t[i])) && (forall k | from <= k < i :: !IsSpace(t[k]) && DigitOf(t[k]) < 58)
      && r.value == Digits(Value(DigitSeq(t[from..i]), 58), 256)
    ensures r.None? ==> i < |t| && DigitOf(t[i]) == 58 && forall k | from <= k <= i :: !IsSpace(t[k])
  {
    hide IsSpace, DigitOf, Value, Digits, Power, Holding;
    var size := (|t| - from) * 733 / 1000 + 1;
    DecodeSize(|t| - from);
    var b256 := new nat[size](_ => 0);
    var length := 0;
    EmptyBuffer(b256[..], 256);
    i := from;
    while i < |t| && !IsSpace(t[i])
      invariant from <= i <= |t| && b256.Length == size
      invariant forall k | from <= k < i :: !IsSpace(t[k]) && DigitOf(t[k]) < 58
      invariant Holding(b256[..], 256, length, Value(DigitSeq(t[from..i]), 58))
    {
      if DigitOf(t[i]) == 58 { return None, i; }
      NextDigit(t, from, i, size);
      length := Append(b256, 256, 58, DigitOf(t[i]), length, Value(DigitSeq(t[from..i]), 58));
      i := i + 1;
    }
    var d := Significant(b256, 256, length, Value(DigitSeq(t[from..i]), 58));
    r := Some(d);
  }

  lemma EmptyBuffer(buf: seq<nat>, base: nat)
    requires base > 0 && forall i | 0 <= i < |buf| :: buf[i] == 0
    ensures Holding(buf, base, 0, Value(DigitSeq([]), 58))
  {
    ValueZeros(buf, base);
  }

  lemma NextDigit(t: string, from: nat, i: nat, size: nat)
    requires from <= i < |t| && (forall k | from <= k <= i :: DigitOf(t[k]) < 58)
    requires Power(58, |t| - from) <= Power(256, size)
    ensures var v := Value(DigitSeq(t[from..i]), 58);
      Value(DigitSeq(t[from..i + 1]), 58) == v * 58 + DigitOf(t[i]) < Power(256, size)
  {
    hide DigitOf, Power;
    var s := DigitSeq(t[from..i + 1]);
    assert s[..|s| - 1] == DigitSeq(t[from..i]);
    ValueBound(s, 58);
    PowerMore(58, |s|, |t| - from);
  }
}
