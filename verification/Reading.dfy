/**
 A reader of printed text that knows nothing of the printing: it splits a text
 at a character and reads numbers, addresses and pointers digit by digit.
 */
module Reading {
  import opened Text
  import opened Maps

  // ---- splitting

  /** The parts of a text between the occurrences of a character. */
  function Split(s: string, sep: char): (parts: seq<string>)
    ensures |parts| > 0 && forall i: nat | i < |parts| :: sep !in parts[i]
  {
    if s == "" then [""]
    else
      var rest := Split(s[1..], sep);
      if s[0] == sep then [""] + rest else [[s[0]] + rest[0]] + rest[1..]
  }

  /** The parts with the character between them. */
  function Glued(parts: seq<string>, sep: char): string
    requires |parts| > 0
  {
    if |parts| == 1 then parts[0] else parts[0] + ([sep] + Glued(parts[1..], sep))
  }

  /** Splitting loses nothing. */
  lemma {:induction false} GluedSplit(s: string, sep: char)
    ensures Glued(Split(s, sep), sep) == s
  {
    if s != "" {
      GluedSplit(s[1..], sep);
      var rest := Split(s[1..], sep);
      if s[0] == sep {
        assert ([""] + rest)[1..] == rest;
        assert "" + ([sep] + s[1..]) == s;
      } else {
        var parts := [[s[0]] + rest[0]] + rest[1..];
        assert parts[1..] == rest[1..];
        if |rest| > 1 {
          assert ([s[0]] + rest[0]) + ([sep] + Glued(rest[1..], sep))
              == [s[0]] + (rest[0] + ([sep] + Glued(rest[1..], sep)));
        }
      }
    }
  }

  lemma {:induction false} OnePart(s: string, sep: char)
    requires sep !in s
    ensures Split(s, sep) == [s]
  {
    if s != "" {
      assert s == [s[0]] + s[1..] && s[0] in s;
      OnePart(s[1..], sep);
    }
  }

  lemma PutFirst(c: char, a: seq<string>, b: seq<string>)
    requires a != []
    ensures [[c] + (a + b)[0]] + (a + b)[1..] == ([[c] + a[0]] + a[1..]) + b
    ensures [""] + (a + b) == ([""] + a) + b
  {
  }

  lemma {:induction false} TwoTexts(a: string, b: string, sep: char)
    ensures Split(a + ([sep] + b), sep) == Split(a, sep) + Split(b, sep)
  {
    var s := a + ([sep] + b);
    if a == "" {
      assert s[0] == sep && s[1..] == b;
    } else {
      assert s[0] == a[0] && s[1..] == a[1..] + ([sep] + b);
      TwoTexts(a[1..], b, sep);
      PutFirst(a[0], Split(a[1..], sep), Split(b, sep));
    }
  }

  /** Words printed with blanks between them are the words that are read. */
  lemma {:induction false} SpacedRead(words: seq<string>)
    requires words != [] && forall i: nat | i < |words| :: ' ' !in words[i]
    ensures Split(Spaced(words), ' ') == words
  {
    OnePart(words[0], ' ');
    if |words| > 1 {
      SpacedRead(words[1..]);
      TwoTexts(words[0], Spaced(words[1..]), ' ');
    }
  }

  lemma {:induction false} SpacedWithout(words: seq<string>, c: char)
    requires c != ' ' && forall i: nat | i < |words| :: c !in words[i]
    ensures c !in Spaced(words)
  {
    if |words| > 1 {
      SpacedWithout(words[1..], c);
    }
  }

  lemma OneMorePart(a: string, p: string, sep: char)
    requires sep !in p
    ensures Split(a + ([sep] + p), sep) == Split(a, sep) + [p]
  {
    TwoTexts(a, p, sep);
    OnePart(p, sep);
  }

  /** The text without its last character. */
  function Front(s: string): string {
    if s == "" then "" else s[..|s| - 1]
  }

  predicate EndsIn(s: string, c: char) {
    s != "" && s[|s| - 1] == c
  }

  /** A text that ends in the character, and another one behind it. */
  lemma AfterEnd(a: string, b: string, sep: char)
    requires EndsIn(a, sep)
    ensures Split(a, sep) == Split(Front(a), sep) + [""]
    ensures Split(a + b, sep) == Split(Front(a), sep) + Split(b, sep)
  {
    var c := Front(a);
    assert a == c + ([sep] + "") && a + b == c + ([sep] + b);
    TwoTexts(c, "", sep);
    TwoTexts(c, b, sep);
  }

  lemma WordBehind(text: string, word: string, sep: char)
    requires EndsIn(text, sep) && sep !in word
    ensures Split(text + word, sep) == Split(Front(text), sep) + [word]
  {
    AfterEnd(text, word, sep);
    OnePart(word, sep);
  }

  // ---- lines

  predicate IsLine(s: string) {
    EndsIn(s, '\n') && '\n' !in Front(s)
  }

  /** Some texts one after another. */
  function Concat(texts: seq<string>): string {
    if texts == [] then "" else Concat(texts[..|texts| - 1]) + texts[|texts| - 1]
  }

  lemma {:induction false} ConcatBoth(a: seq<string>, b: seq<string>)
    ensures Concat(a + b) == Concat(a) + Concat(b)
  {
    if b == [] {
      assert a + b == a;
    } else {
      var last := |b| - 1;
      ConcatBoth(a, b[..last]);
      assert (a + b)[..|a + b| - 1] == a + b[..last];
      assert (Concat(a) + Concat(b[..last])) + b[last] == Concat(a) + (Concat(b[..last]) + b[last]);
    }
  }

  lemma MoreLines(text: string, line: string, parts: seq<string>)
    requires Split(text, '\n') == parts + [""] && (text == "" || EndsIn(text, '\n'))
    requires IsLine(line)
    ensures EndsIn(text + line, '\n')
    ensures Split(text + line, '\n') == (parts + [Front(line)]) + [""]
  {
    AfterEnd(line, "", '\n');
    OnePart(Front(line), '\n');
    if text == "" {
      assert text + line == line;
    } else {
      AfterEnd(text, line, '\n');
      assert parts == (parts + [""])[..|parts|];
      assert Split(Front(text), '\n') == (Split(Front(text), '\n') + [""])[..|parts|];
    }
  }

  /** Lines printed one after another are the lines that are read. */
  lemma {:induction false} LinesRead(lines: seq<string>)
    requires forall i: nat | i < |lines| :: IsLine(lines[i])
    ensures Split(Concat(lines), '\n') == Map(Front, lines) + [""]
    ensures lines != [] ==> EndsIn(Concat(lines), '\n')
  {
    if lines != [] {
      var before, line := lines[..|lines| - 1], lines[|lines| - 1];
      LinesRead(before);
      MoreLines(Concat(before), line, Map(Front, before));
      assert Map(Front, lines) == Map(Front, before) + [Front(line)];
    }
  }

  // ---- numbers

  /** A decimal number without leading zeros. */
  predicate IsNumber(s: string, n: nat) {
    s != "" && AllDigits(s) && DigitsValue(s) == n && (|s| > 1 ==> s[0] != '0')
  }

  lemma {:induction false} DecimalReads(n: nat)
    ensures IsNumber(Decimal(n), n)
    ensures forall i: nat | i < |Decimal(n)| :: IsDigit(Decimal(n)[i])
    ensures n > 0 ==> Decimal(n)[0] != '0'
  {
    DecimalValue(n);
    if n >= 10 {
      DecimalReads(n / 10);
    }
  }

  // ---- addresses

  /** Four numbers with dots between them: the bytes of the address in order. */
  predicate IsAddress(s: string, ip: Ipv4) {
    var parts := Split(s, '.');
    && |parts| == 4
    && IsNumber(parts[0], ip.b0) && IsNumber(parts[1], ip.b1)
    && IsNumber(parts[2], ip.b2) && IsNumber(parts[3], ip.b3)
  }

  lemma DottedReads(ip: Ipv4)
    ensures IsAddress(Dotted(ip), ip)
  {
    var d0, d1, d2, d3 := Decimal(ip.b0), Decimal(ip.b1), Decimal(ip.b2), Decimal(ip.b3);
    DecimalReads(ip.b0);
    DecimalReads(ip.b1);
    DecimalReads(ip.b2);
    DecimalReads(ip.b3);
    OnePart(d0, '.');
    OnePart(d1, '.');
    OnePart(d2, '.');
    OnePart(d3, '.');
    TwoTexts(d2, d3, '.');
    TwoTexts(d1, d2 + ("." + d3), '.');
    TwoTexts(d0, d1 + ("." + (d2 + ("." + d3))), '.');
  }

  // ---- pointers

  predicate IsHexDigit(c: char) {
    '0' <= c <= '9' || 'a' <= c <= 'f'
  }

  function HexDigit(c: char): nat
    requires IsHexDigit(c)
  {
    if c <= '9' then c as int - '0' as int else c as int - 'a' as int + 10
  }

  function HexValue(s: string): nat
    requires forall i: nat | i < |s| :: IsHexDigit(s[i])
  {
    if s == "" then 0 else HexValue(s[..|s| - 1]) * 16 + HexDigit(s[|s| - 1])
  }

  /** Sixteen hexadecimal digits. */
  predicate IsPointer(s: string, n: nat) {
    |s| == 16 && (forall i: nat | i < |s| :: IsHexDigit(s[i])) && HexValue(s) == n
  }

  function Pow16(k: nat): nat {
    if k == 0 then 1 else 16 * Pow16(k - 1)
  }

  lemma HexDigitReads(d: nat)
    requires d < 16
    ensures var c := "0123456789abcdef"[d]; IsHexDigit(c) && HexDigit(c) == d
  {
  }

  lemma {:induction false} HexReads(n: nat, k: nat)
    requires n < Pow16(k)
    ensures forall i: nat | i < k :: IsHexDigit(HexDigits(n, k)[i])
    ensures HexValue(HexDigits(n, k)) == n
  {
    if k > 0 {
      HexReads(n / 16, k - 1);
      HexDigitReads(n % 16);
      var before, s := HexDigits(n / 16, k - 1), HexDigits(n, k);
      assert s[..k - 1] == before;
      assert forall i: nat | i < k - 1 :: s[i] == before[i];
    }
  }

  lemma PointerReads(n: nat)
    requires n < WORD64
    ensures IsPointer(Pointer(n), n)
  {
    assert Pow16(4) == 0x1_0000;
    assert Pow16(8) == 0x1_0000_0000;
    assert Pow16(12) == 0x1_0000_0000_0000;
    assert Pow16(16) == WORD64;
    HexReads(n, 16);
  }
}
