/**
 Numbers as text in a base and as big-endian bytes. Serial numbers pass through all three
 forms, and comparing them as text is right only because each number has exactly one
 canonical numeral.
 */
module Numerals {
  import opened Arithmetic

  type Byte = n: nat | n < 256

  predicate IsDigit(c: char, base: nat) {
    ('0' <= c <= '9' && (c as int - '0' as int) < base) || ('a' <= c <= 'f' && (c as int - 'a' as int) + 10 < base)
  }

  function DigitValue(c: char): nat
    requires IsDigit(c, 16)
  {
    if c <= '9' then c as int - '0' as int else c as int - 'a' as int + 10
  }

  function DigitChar(d: nat): (c: char)
    requires d < 16
    ensures IsDigit(c, 16) && DigitValue(c) == d
    ensures forall base: nat | d < base :: IsDigit(c, base)
  {
    if d < 10 then ('0' as int + d) as char else ('a' as int + (d - 10)) as char
  }

  /** The digits, spelled out. */
  lemma DigitsSpelled(d: nat)
    requires d < 16
    ensures DigitChar(d) == "0123456789abcdef"[d]
  {
  }

  predicate AllDigits(s: string, base: nat) {
    forall i | 0 <= i < |s| :: IsDigit(s[i], base)
  }

  /** Reads a numeral; the empty one reads as zero. */
  function ValueOf(s: string, base: nat): nat
    requires base <= 16 && AllDigits(s, base)
  {
    if s == [] then 0 else ValueOf(s[..|s| - 1], base) * base + DigitValue(s[|s| - 1])
  }

  /** `n.toString(base)` */
  function ToBase(n: nat, base: nat): string
    requires 2 <= base <= 16
  {
    if n < base then [DigitChar(n)] else ToBase(n / base, base) + [DigitChar(n % base)]
  }

  /** Non-empty, and no leading zero unless it is the only digit. */
  predicate Canonical(s: string, base: nat) {
    AllDigits(s, base) && s != [] && (|s| > 1 ==> s[0] != '0')
  }

  lemma ValueOfSnoc(s: string, c: char, base: nat)
    requires base <= 16 && AllDigits(s, base) && IsDigit(c, base)
    ensures AllDigits(s + [c], base)
    ensures ValueOf(s + [c], base) == ValueOf(s, base) * base + DigitValue(c)
  {
    assert (s + [c])[..|s|] == s;
  }

  lemma {:induction false} ToBaseCanonical(n: nat, base: nat)
    requires 2 <= base <= 16
    ensures Canonical(ToBase(n, base), base)
    ensures ValueOf(ToBase(n, base), base) == n
    ensures ToBase(n, base)[0] == '0' <==> n == 0
  {
    if n < base {
      ValueOfSnoc([], DigitChar(n), base);
      assert [] + [DigitChar(n)] == [DigitChar(n)];
    } else {
      var q, d := Quotient(n, base);
      ToBaseCanonical(q, base);
      OneMoreDigit(ToBase(q, base), q, d, n, base);
    }
  }

  lemma Quotient(n: nat, base: nat) returns (q: nat, d: nat)
    requires 2 <= base <= n
    ensures q == n / base && d == n % base && 0 < q < n && d < base && q * base + d == n
  {
    q, d := n / base, n % base;
    QuotientPositive(n, base);
  }

  lemma OneMoreDigit(s: string, q: nat, d: nat, n: nat, base: nat)
    requires 2 <= base <= 16 && d < base && Canonical(s, base) && s[0] != '0'
    ensures Canonical(s + [DigitChar(d)], base) && (s + [DigitChar(d)])[0] == s[0]
    ensures ValueOf(s, base) == q && q * base + d == n ==> ValueOf(s + [DigitChar(d)], base) == n
  {
    ValueOfSnoc(s, DigitChar(d), base);
  }

  lemma QuotientPositive(n: nat, base: nat)
    requires 0 < base <= n
    ensures n / base > 0
    ensures n / base * base + n % base == n
  {
  }

  lemma {:induction false} PositiveValue(s: string, base: nat)
    requires 2 <= base <= 16 && Canonical(s, base) && s[0] != '0'
    ensures ValueOf(s, base) > 0
  {
    if |s| > 1 {
      PositiveValue(s[..|s| - 1], base);
      AtLeastFactor(ValueOf(s[..|s| - 1], base), base);
    } else {
      ValueOfSnoc([], s[0], base);
      assert [] + [s[0]] == s;
    }
  }

  lemma AtLeastFactor(q: nat, d: nat)
    requires q > 0
    ensures q * d >= d
  {
    assert (q - 1) * d >= 0;
  }

  lemma ToBaseSnoc(q: nat, d: nat, base: nat)
    requires 2 <= base <= 16 && q > 0 && d < base
    ensures ToBase(q * base + d, base) == ToBase(q, base) + [DigitChar(d)]
  {
    DivModUnique(q, d, base);
    AtLeastFactor(q, base);
  }

  /** The canonical numeral of a number is unique. */
  lemma {:induction false} CanonicalUnique(s: string, base: nat)
    requires 2 <= base <= 16 && Canonical(s, base)
    ensures ToBase(ValueOf(s, base), base) == s
  {
    var front, last := s[..|s| - 1], s[|s| - 1];
    DigitCharOf(last, base);
    assert s == front + [last];
    if front == [] {
      ValueOfSnoc(front, last, base);
    } else {
      FrontCanonical(s, base);
      CanonicalUnique(front, base);
      SnocUnique(front, last, base);
    }
  }

  lemma SnocUnique(front: string, last: char, base: nat)
    requires 2 <= base <= 16 && Canonical(front, base) && front[0] != '0' && IsDigit(last, base)
    requires ToBase(ValueOf(front, base), base) == front
    ensures AllDigits(front + [last], base) && ToBase(ValueOf(front + [last], base), base) == front + [last]
  {
    DigitCharOf(last, base);
    PositiveValue(front, base);
    var q, d := ValueOf(front, base), DigitValue(last);
    ToBaseSnoc(q, d, base);
    OneMoreDigit(front, q, d, q * base + d, base);
  }

  lemma FrontCanonical(s: string, base: nat)
    requires Canonical(s, base) && |s| > 1
    ensures Canonical(s[..|s| - 1], base) && s[..|s| - 1][0] != '0'
  {
  }

  lemma DigitCharOf(c: char, base: nat)
    requires base <= 16 && IsDigit(c, base)
    ensures DigitValue(c) < base && DigitChar(DigitValue(c)) == c
  {
  }

  lemma ToBaseInjective(a: nat, b: nat, base: nat)
    requires 2 <= base <= 16
    requires ToBase(a, base) == ToBase(b, base)
    ensures a == b
  {
    ToBaseCanonical(a, base);
    ToBaseCanonical(b, base);
  }

  // ---------------------------------------------------------------------------
  // Leading zeros
  // ---------------------------------------------------------------------------

  /** `s.replace(/^0+(?=.)/, "")`: the leading zeros, but never the last character. */
  function StripZeros(s: string): string {
    if |s| > 1 && s[0] == '0' then StripZeros(s[1..]) else s
  }

  lemma {:induction false} ValueWithoutLeadingZero(s: string, base: nat)
    requires 2 <= base <= 16 && AllDigits(s, base) && s != [] && s[0] == '0'
    ensures ValueOf(s[1..], base) == ValueOf(s, base)
  {
    if |s| > 1 {
      var front := s[..|s| - 1];
      ValueWithoutLeadingZero(front, base);
      assert s[1..][..|s| - 2] == front[1..];
    } else {
      assert s[..0] == [];
    }
  }

  lemma {:induction false} StripZerosCanonical(s: string, base: nat)
    requires 2 <= base <= 16 && AllDigits(s, base) && s != []
    ensures Canonical(StripZeros(s), base)
    ensures ValueOf(StripZeros(s), base) == ValueOf(s, base)
  {
    if |s| > 1 && s[0] == '0' {
      StripZerosCanonical(s[1..], base);
      ValueWithoutLeadingZero(s, base);
    }
  }

  // ---------------------------------------------------------------------------
  // Big-endian bytes
  // ---------------------------------------------------------------------------

  function BytesValue(bytes: seq<Byte>): nat {
    if bytes == [] then 0 else BytesValue(bytes[..|bytes| - 1]) * 256 + bytes[|bytes| - 1]
  }

  /** Two hex digits, zero-padded. */
  function HexByte(b: Byte): (s: string)
    ensures |s| == 2 && AllDigits(s, 16)
  {
    [DigitChar(b / 16), DigitChar(b % 16)]
  }

  function HexBytes(bytes: seq<Byte>): (s: string)
    ensures AllDigits(s, 16) && |s| == 2 * |bytes|
  {
    if bytes == [] then [] else HexBytes(bytes[..|bytes| - 1]) + HexByte(bytes[|bytes| - 1])
  }

  lemma {:induction false} HexBytesValue(bytes: seq<Byte>)
    ensures ValueOf(HexBytes(bytes), 16) == BytesValue(bytes)
  {
    if bytes != [] {
      var s, front, b := HexBytes(bytes), bytes[..|bytes| - 1], bytes[|bytes| - 1];
      HexBytesValue(front);
      assert s[..|s| - 1] == HexBytes(front) + [DigitChar(b / 16)];
      assert s[..|s| - 1][..|s| - 2] == HexBytes(front);
    }
  }

  lemma {:induction false} HexBytesInjective(a: seq<Byte>, b: seq<Byte>)
    requires HexBytes(a) == HexBytes(b)
    ensures a == b
  {
    if a != [] {
      var a', b' := a[..|a| - 1], b[..|b| - 1];
      var n := |HexBytes(a')|;
      assert HexBytes(a)[..n] == HexBytes(a') && HexBytes(b)[..n] == HexBytes(b');
      HexBytesInjective(a', b');
      assert HexBytes(a)[n..] == HexByte(a[|a| - 1]) && HexBytes(b)[n..] == HexByte(b[|b| - 1]);
      HexByteInjective(a[|a| - 1], b[|b| - 1]);
      assert a == a' + [a[|a| - 1]] && b == b' + [b[|b| - 1]];
    }
  }

  lemma HexByteInjective(a: Byte, b: Byte)
    requires HexByte(a) == HexByte(b)
    ensures a == b
  {
    assert DigitValue(HexByte(a)[0]) == a / 16 && DigitValue(HexByte(a)[1]) == a % 16;
    assert DigitValue(HexByte(b)[0]) == b / 16 && DigitValue(HexByte(b)[1]) == b % 16;
  }

  function Pow256(n: nat): nat {
    if n == 0 then 1 else 256 * Pow256(n - 1)
  }

  lemma {:induction false} BytesValueAppend(a: seq<Byte>, b: seq<Byte>)
    ensures BytesValue(a + b) == BytesValue(a) * Pow256(|b|) + BytesValue(b)
  {
    if b == [] {
      assert a + b == a;
    } else {
      var b' := b[..|b| - 1];
      BytesValueAppend(a, b');
      assert (a + b)[..|a + b| - 1] == a + b';
      assert BytesValue(a + b) == (BytesValue(a) * Pow256(|b'|) + BytesValue(b')) * 256 + b[|b| - 1];
      assert BytesValue(a) * Pow256(|b'|) * 256 == BytesValue(a) * Pow256(|b|);
    }
  }

  /** Zero bytes in front do not change the number. */
  lemma {:induction false} ZeroPadding(zeros: seq<Byte>, bytes: seq<Byte>)
    requires forall i | 0 <= i < |zeros| :: zeros[i] == 0
    ensures BytesValue(zeros + bytes) == BytesValue(bytes)
  {
    BytesValueAppend(zeros, bytes);
    ZeroBytes(zeros);
  }

  lemma {:induction false} ZeroBytes(zeros: seq<Byte>)
    requires forall i | 0 <= i < |zeros| :: zeros[i] == 0
    ensures BytesValue(zeros) == 0
  {
    if zeros != [] {
      ZeroBytes(zeros[..|zeros| - 1]);
    }
  }

  lemma {:induction false} LeadingByte(bytes: seq<Byte>)
    requires bytes != []
    ensures BytesValue(bytes) >= bytes[0]
  {
    if |bytes| == 1 {
      assert bytes[..0] == [];
    } else {
      LeadingByte(bytes[..|bytes| - 1]);
    }
  }

  /** Byte strings without a leading zero are their numbers, whatever their lengths. */
  lemma {:induction false} MinimalInjective(a: seq<Byte>, b: seq<Byte>)
    requires (a != [] ==> a[0] != 0) && (b != [] ==> b[0] != 0)
    requires BytesValue(a) == BytesValue(b)
    ensures a == b
  {
    if a == [] && b != [] {
      LeadingByte(b);
    } else if a != [] && b == [] {
      LeadingByte(a);
    } else if a != [] {
      var a', b' := a[..|a| - 1], b[..|b| - 1];
      DivModUnique(BytesValue(a'), a[|a| - 1], 256);
      DivModUnique(BytesValue(b'), b[|b| - 1], 256);
      MinimalInjective(a', b');
      assert a == a' + [a[|a| - 1]] && b == b' + [b[|b| - 1]];
    }
  }
}
