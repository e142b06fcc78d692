/**
 Numbers and addresses as text: the conversions of printf that the modules
 use, and how a decimal prefix of a number relates to it.
 */
module Text {

  predicate IsDigit(c: char) {
    '0' <= c <= '9'
  }

  predicate AllDigits(s: string) {
    forall i: nat | i < |s| :: IsDigit(s[i])
  }

  /** The conversions %u, %d, %zu and %llu of a non-negative number. */
  function Decimal(n: nat): (s: string)
    ensures |s| > 0 && AllDigits(s)
  {
    if n < 10 then [DigitChar(n)] else Decimal(n / 10) + [DigitChar(n % 10)]
  }

  function DigitChar(d: nat): (c: char)
    requires d < 10
    ensures IsDigit(c) && DigitOf(c) == d
  {
    '0' + d as char
  }

  function DigitOf(c: char): nat
    requires IsDigit(c)
  {
    c as int - '0' as int
  }

  function DigitsValue(s: string): nat
    requires AllDigits(s)
  {
    if s == [] then 0 else DigitsValue(s[..|s| - 1]) * 10 + DigitOf(s[|s| - 1])
  }

  lemma {:induction false} DecimalValue(n: nat)
    ensures DigitsValue(Decimal(n)) == n
  {
    if n >= 10 {
      DecimalValue(n / 10);
      assert Decimal(n)[..|Decimal(n)| - 1] == Decimal(n / 10);
    } else {
      assert Decimal(n)[..0] == [];
    }
  }

  lemma DecimalInjective(m: nat, n: nat)
    requires Decimal(m) == Decimal(n)
    ensures m == n
  {
    DecimalValue(m);
    DecimalValue(n);
  }

  /** A decimal prefix never denotes a larger number. */
  lemma {:induction false} PrefixValue(s: string, k: nat)
    requires AllDigits(s) && k <= |s|
    ensures DigitsValue(s[..k]) <= DigitsValue(s)
  {
    if k < |s| {
      PrefixValue(s[..|s| - 1], k);
      assert s[..|s| - 1][..k] == s[..k];
    } else {
      assert s[..k] == s;
    }
  }

  /** Cutting digits off a printed number makes it smaller. */
  lemma {:induction false} StrictPrefix(n: nat, k: nat)
    requires 0 < k < |Decimal(n)|
    ensures DigitsValue(Decimal(n)[..k]) < n
  {
    var d := Decimal(n / 10);
    assert Decimal(n)[..k] == d[..k];
    if k < |d| {
      StrictPrefix(n / 10, k);
    } else {
      assert d[..k] == d;
      DecimalValue(n / 10);
    }
  }

  function Pow10(k: nat): nat {
    if k == 0 then 1 else 10 * Pow10(k - 1)
  }

  lemma {:induction false} DecimalLength(n: nat, k: nat)
    requires n < Pow10(k) && k > 0
    ensures |Decimal(n)| <= k
  {
    assert Pow10(1) == 10;
    if n >= 10 {
      DecimalLength(n / 10, k - 1);
    }
  }

  lemma {:induction false} DecimalLongerThan(n: nat, k: nat)
    requires n >= Pow10(k)
    ensures |Decimal(n)| > k
  {
    if k > 0 {
      assert n / 10 >= Pow10(k - 1);
      DecimalLongerThan(n / 10, k - 1);
    }
  }

  /** u64 and size_t, whose arithmetic is modulo 2^64. */
  const WORD64: nat := 0x1_0000_0000_0000_0000

  type Word = n: nat | n < WORD64

  lemma Word64Digits(n: nat)
    requires n < WORD64
    ensures |Decimal(n)| <= 20
  {
    assert Pow10(4) == 10000;
    assert Pow10(8) == 1_0000_0000;
    assert Pow10(12) == 1_0000_0000_0000;
    assert Pow10(16) == 1_0000_0000_0000_0000;
    assert Pow10(20) == 1_0000_0000_0000_0000_0000;
    DecimalLength(n, 20);
  }

  /** The conversion %px: sixteen hexadecimal digits. */
  function Pointer(n: nat): string {
    HexDigits(n, 16)
  }

  function HexDigits(n: nat, k: nat): (s: string)
    ensures |s| == k
  {
    if k == 0 then "" else HexDigits(n / 16, k - 1) + ["0123456789abcdef"[n % 16]]
  }

  lemma {:induction false} HexChars(n: nat, k: nat)
    ensures forall i: nat | i < k :: HexDigits(n, k)[i] in "0123456789abcdef"
  {
    if k > 0 {
      HexChars(n / 16, k - 1);
    }
  }

  /** Words with a blank between each and the next. */
  function Spaced(words: seq<string>): string {
    if words == [] then ""
    else if |words| == 1 then words[0]
    else words[0] + (" " + Spaced(words[1..]))
  }

  // ---- addresses

  type Byte = b: nat | b < 256

  /** An IPv4 address: its four bytes in memory order, which is network order. */
  datatype Ipv4 = Ipv4(b0: Byte, b1: Byte, b2: Byte, b3: Byte)

  /** The conversion %pI4. */
  function Dotted(ip: Ipv4): string {
    Decimal(ip.b0) + ("." + (Decimal(ip.b1) + ("." + (Decimal(ip.b2) + ("." + Decimal(ip.b3))))))
  }

  predicate AddressChar(c: char) {
    IsDigit(c) || c == '.'
  }

  lemma DottedShape(ip: Ipv4)
    ensures 0 < |Dotted(ip)| <= 15
    ensures forall i: nat | i < |Dotted(ip)| :: AddressChar(Dotted(ip)[i])
  {
    assert Pow10(2) == 100;
    assert Pow10(3) == 1000;
    DecimalLength(ip.b0, 3);
    DecimalLength(ip.b1, 3);
    DecimalLength(ip.b2, 3);
    DecimalLength(ip.b3, 3);
  }

  lemma SplitAtDot(p: string, q: string, x: string, y: string)
    requires AllDigits(p) && AllDigits(q)
    requires p + ("." + x) == q + ("." + y)
    ensures p == q && x == y
  {
    var s := p + ("." + x);
    assert s[|p|] == '.' && s[|q|] == '.';
    assert forall i: nat | i < |p| :: s[i] == p[i];
    assert forall i: nat | i < |q| :: s[i] == q[i];
    assert |p| == |q|;
    assert s[..|p|] == p && s[..|q|] == q;
    assert s[|p| + 1..] == x && s[|q| + 1..] == y;
  }

  /** Different addresses print differently. */
  lemma DottedInjective(u: Ipv4, v: Ipv4)
    requires Dotted(u) == Dotted(v)
    ensures u == v
  {
    var u2, v2 := Decimal(u.b2) + ("." + Decimal(u.b3)), Decimal(v.b2) + ("." + Decimal(v.b3));
    var u1, v1 := Decimal(u.b1) + ("." + u2), Decimal(v.b1) + ("." + v2);
    SplitAtDot(Decimal(u.b0), Decimal(v.b0), u1, v1);
    SplitAtDot(Decimal(u.b1), Decimal(v.b1), u2, v2);
    SplitAtDot(Decimal(u.b2), Decimal(v.b2), Decimal(u.b3), Decimal(v.b3));
    DecimalInjective(u.b0, v.b0);
    DecimalInjective(u.b1, v.b1);
    DecimalInjective(u.b2, v.b2);
    DecimalInjective(u.b3, v.b3);
  }
}
