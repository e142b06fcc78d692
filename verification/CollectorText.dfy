/**
 What the collector makes of any text at all, printed by the module or not:
 the library functions it calls, and its scanning loop, against the reader that
 knows only splitting and digits.
 */
module CollectorText {
  import opened Text
  import opened Reading
  import opened GoStrings
  import C = Collector

  lemma Around(t: string, n: nat)
    requires n < |t|
    ensures t == t[..n] + ([t[n]] + t[n + 1..])
  {
  }

  /** A text split at the first occurrence of the character. */
  lemma SplitAround(t: string, n: nat, sep: char, first: string, rest: string)
    requires n < |t| && t[n] == sep && t[..n] == first && t[n + 1..] == rest && sep !in first
    ensures Split(t, sep) == [first] + Split(rest, sep)
  {
    Around(t, n);
    OnePart(first, sep);
    TwoTexts(first, rest, sep);
  }

  // ---- strings.TrimSpace

  /** What is left is the text between its first and last character that is no space. */
  lemma TrimSpaceMeaning(s: string) returns (i: nat, j: nat)
    ensures i <= j <= |s| && TrimSpace(s) == s[i..j]
    ensures forall k: nat | k < i || j <= k < |s| :: IsSpace(s[k])
    ensures i < j ==> !IsSpace(s[i]) && !IsSpace(s[j - 1])
  {
    i := TrimLeftMeaning(s);
    var n := TrimRightMeaning(s[i..]);
    j := i + n;
    assert s[i..][..n] == s[i..j];
    forall k: nat | j <= k < |s|
      ensures IsSpace(s[k])
    {
      assert s[k] == s[i..][k - i];
    }
  }

  lemma {:induction false} TrimLeftMeaning(s: string) returns (i: nat)
    ensures i <= |s| && TrimLeft(s) == s[i..]
    ensures forall k: nat | k < i :: IsSpace(s[k])
    ensures i < |s| ==> !IsSpace(s[i])
  {
    if s != "" && IsSpace(s[0]) {
      var r := TrimLeftMeaning(s[1..]);
      i := r + 1;
      assert s[1..][r..] == s[i..];
      assert forall k: nat | 0 < k < i :: s[k] == s[1..][k - 1];
    } else {
      i := 0;
      assert s[0..] == s;
    }
  }

  lemma {:induction false} TrimRightMeaning(s: string) returns (n: nat)
    ensures n <= |s| && TrimRight(s) == s[..n]
    ensures forall k: nat | n <= k < |s| :: IsSpace(s[k])
    ensures n > 0 ==> !IsSpace(s[n - 1])
  {
    if s != "" && IsSpace(s[|s| - 1]) {
      n := TrimRightMeaning(s[..|s| - 1]);
      assert s[..|s| - 1][..n] == s[..n];
      assert forall k: nat | k < |s| - 1 :: s[k] == s[..|s| - 1][k];
    } else {
      n := |s|;
      assert s[..n] == s;
    }
  }

  // ---- strings.SplitN

  /** The parts with the separator between them. */
  function Rejoined(parts: seq<string>, sep: string): string
    requires parts != []
  {
    if |parts| == 1 then parts[0] else parts[0] + (sep + Rejoined(parts[1..], sep))
  }

  ghost predicate Occurs(sep: string, s: string) {
    exists i: nat :: MatchAt(s, sep, i)
  }

  lemma CutAt(s: string, sep: string, i: nat)
    requires MatchAt(s, sep, i)
    ensures s == s[..i] + (sep + s[i + |sep|..])
  {
    assert s[i..i + |sep|] == sep;
  }

  lemma NoEarlierMatch(s: string, sep: string, i: nat)
    requires i <= |s| && forall j: nat | j < i :: !MatchAt(s, sep, j)
    requires sep != ""
    ensures !Occurs(sep, s[..i])
  {
    forall j: nat
      ensures !MatchAt(s[..i], sep, j)
    {
      if MatchAt(s[..i], sep, j) {
        assert s[..i][j..j + |sep|] == s[j..j + |sep|];
        assert MatchAt(s, sep, j);
        assert false;
      }
    }
  }

  lemma FirstCut(s: string, sep: string, n: nat) returns (first: string, rest: string)
    requires n > 1 && sep != "" && Index(s, sep) >= 0
    ensures s == first + (sep + rest) && !Occurs(sep, first)
    ensures SplitN(s, sep, n) == [first] + SplitN(rest, sep, n - 1)
  {
    var i := Index(s, sep);
    first, rest := s[..i], s[i + |sep|..];
    CutAt(s, sep, i);
    NoEarlierMatch(s, sep, i);
  }

  lemma NoCut(s: string, sep: string, n: nat)
    requires n == 1 || (n > 1 && Index(s, sep) < 0)
    ensures SplitN(s, sep, n) == [s]
    ensures n > 1 ==> !Occurs(sep, s)
  {
  }

  /** The text in at most n parts, of which only the last of n can still hold
      the separator. */
  ghost predicate Parted(parts: seq<string>, sep: string, s: string, n: nat) {
    && 0 < |parts| <= n && Rejoined(parts, sep) == s
    && forall k: nat | k < |parts| && (k < |parts| - 1 || |parts| < n) :: !Occurs(sep, parts[k])
  }

  lemma PartedMore(first: string, more: seq<string>, sep: string, rest: string, n: nat)
    requires n > 1 && Parted(more, sep, rest, n - 1) && !Occurs(sep, first)
    ensures Parted([first] + more, sep, first + (sep + rest), n)
  {
    var parts := [first] + more;
    assert parts[1..] == more;
    assert forall k: nat | 0 < k < |parts| :: parts[k] == more[k - 1];
  }

  /** A splitting goes on behind the first separator, or there is none to look for. */
  ghost predicate Cuts(split: (string, nat) -> seq<string>, sep: string, s: string, n: nat) {
    || (split(s, n) == [s] && (n == 1 || !Occurs(sep, s)))
    || (n > 1 && exists first, rest :: Cut(split, sep, s, n, first, rest))
  }

  ghost predicate Cut(split: (string, nat) -> seq<string>, sep: string, s: string, n: nat,
                      first: string, rest: string)
    requires n > 1
  {
    s == first + (sep + rest) && !Occurs(sep, first) && split(s, n) == [first] + split(rest, n - 1)
  }

  lemma {:induction false} CutsParted(split: (string, nat) -> seq<string>, sep: string, s: string, n: nat)
    requires n > 0 && forall t, k: nat | k > 0 :: Cuts(split, sep, t, k)
    ensures Parted(split(s, n), sep, s, n)
    decreases n
  {
    assert Cuts(split, sep, s, n);
    if !(split(s, n) == [s] && (n == 1 || !Occurs(sep, s))) {
      var first, rest :| Cut(split, sep, s, n, first, rest);
      CutsParted(split, sep, rest, n - 1);
      PartedMore(first, split(rest, n - 1), sep, rest, n);
    }
  }

  /** Nothing is lost, and no separator is overlooked. */
  lemma SplitNMeaning(s: string, sep: string, n: nat)
    requires n > 0 && sep != ""
    ensures Parted(SplitN(s, sep, n), sep, s, n)
  {
    var split := (t: string, k: nat) => if k > 0 then SplitN(t, sep, k) else [];
    forall t, k: nat | k > 0
      ensures Cuts(split, sep, t, k)
    {
      if k == 1 || Index(t, sep) < 0 {
        NoCut(t, sep, k);
      } else {
        var first, rest := FirstCut(t, sep, k);
        assert Cut(split, sep, t, k, first, rest);
      }
    }
    CutsParted(split, sep, s, n);
  }

  // ---- strings.Fields

  /** Every space character as a blank. */
  function Blanked(space: char -> bool, s: string): (t: string)
    ensures |t| == |s|
    ensures forall i: nat | i < |s| :: t[i] == if space(s[i]) then ' ' else s[i]
  {
    seq(|s|, i requires 0 <= i < |s| => if space(s[i]) then ' ' else s[i])
  }

  function NonEmpty(parts: seq<string>): seq<string> {
    if parts == [] then []
    else (if parts[0] == "" then [] else [parts[0]]) + NonEmpty(parts[1..])
  }

  lemma WordBlanked(space: char -> bool, s: string, n: nat)
    requires space(' ') && n <= |s| && forall k: nat | k < n :: !space(s[k])
    ensures Blanked(space, s)[..n] == s[..n] && ' ' !in s[..n]
    ensures n < |s| ==> Blanked(space, s)[n + 1..] == Blanked(space, s[n + 1..])
  {
  }

  lemma WordThenBlank(space: char -> bool, s: string, n: nat)
    requires space(' ') && n < |s| && space(s[n]) && forall k: nat | k < n :: !space(s[k])
    ensures Split(Blanked(space, s), ' ') == [s[..n]] + Split(Blanked(space, s[n + 1..]), ' ')
  {
    WordBlanked(space, s, n);
    SplitAround(Blanked(space, s), n, ' ', s[..n], Blanked(space, s[n + 1..]));
  }

  lemma {:induction false} WordLengthMeaning(s: string)
    ensures var n := WordLength(s);
      (forall k: nat | k < n :: !IsSpace(s[k])) && (n < |s| ==> IsSpace(s[n]))
  {
    if s != "" && !IsSpace(s[0]) {
      WordLengthMeaning(s[1..]);
      assert forall k: nat | 0 < k < |s| :: s[k] == s[1..][k - 1];
    }
  }

  lemma AfterWord(s: string)
    requires s != "" && IsSpace(s[0])
    ensures Fields(s) == Fields(s[1..])
  {
  }

  lemma FieldsStep(s: string)
    requires s != ""
    ensures var n := WordLength(s);
      Fields(s) == (if n == 0 then [] else [s[..n]]) + (if n == |s| then [] else Fields(s[n + 1..]))
  {
    var n := WordLength(s);
    WordLengthMeaning(s);
    if n < |s| {
      AfterWord(s[n..]);
      assert s[n..][1..] == s[n + 1..];
      assert s[0..] == s;
    }
  }

  /** The fields are the parts between the spaces, empty ones left out. */
  lemma {:induction false} FieldsMeaning(s: string)
    ensures Fields(s) == NonEmpty(Split(Blanked(IsSpace, s), ' '))
    decreases |s|
  {
    if s == "" {
      assert Blanked(IsSpace, s) == "";
    } else {
      var n := WordLength(s);
      FieldsStep(s);
      WordLengthMeaning(s);
      if n == |s| {
        WordBlanked(IsSpace, s, n);
        assert s[..n] == s && Blanked(IsSpace, s)[..n] == Blanked(IsSpace, s);
        OnePart(s, ' ');
        assert [s][1..] == [];
      } else {
        FieldsMeaning(s[n + 1..]);
        WordThenBlank(IsSpace, s, n);
        NonEmptyMore(s[..n], Split(Blanked(IsSpace, s[n + 1..]), ' '));
      }
    }
  }

  lemma NonEmptyMore(first: string, rest: seq<string>)
    ensures NonEmpty([first] + rest) == (if first == "" then [] else [first]) + NonEmpty(rest)
  {
    assert ([first] + rest)[1..] == rest;
  }

  // ---- strconv.ParseUint

  /** A decimal number without leading zeros is the printed one. */
  lemma {:induction false} NumberIsDecimal(s: string, n: nat)
    requires IsNumber(s, n)
    ensures s == Decimal(n)
  {
    var d := DigitOf(s[|s| - 1]);
    if |s| == 1 {
      assert s[..0] == "";
    } else {
      var front := s[..|s| - 1];
      PositiveNumber(front);
      NumberIsDecimal(front, DigitsValue(front));
      assert n / 10 == DigitsValue(front) && n % 10 == d;
    }
  }

  lemma {:induction false} PositiveNumber(s: string)
    requires s != "" && AllDigits(s) && s[0] != '0'
    ensures DigitsValue(s) > 0
  {
    if |s| > 1 {
      PositiveNumber(s[..|s| - 1]);
    } else {
      assert s[..0] == "";
    }
  }

  function Zeros(z: nat): (s: string)
    ensures |s| == z && forall i: nat | i < z :: s[i] == '0'
  {
    if z == 0 then "" else "0" + Zeros(z - 1)
  }

  lemma {:induction false} LeadingZero(s: string)
    requires AllDigits(s)
    ensures DigitsValue("0" + s) == DigitsValue(s)
  {
    var t := "0" + s;
    if s == "" {
      assert t[..0] == "";
    } else {
      LeadingZero(s[..|s| - 1]);
      assert t[..|t| - 1] == "0" + s[..|s| - 1];
    }
  }

  lemma Associative(a: string, b: string, c: string)
    ensures (a + b) + c == a + (b + c)
  {
  }

  lemma {:induction false} ZerosBefore(z: nat, n: nat)
    ensures AllDigits(Zeros(z) + Decimal(n)) && DigitsValue(Zeros(z) + Decimal(n)) == n
  {
    if z == 0 {
      assert Zeros(0) + Decimal(n) == Decimal(n);
      DecimalValue(n);
    } else {
      ZerosBefore(z - 1, n);
      LeadingZero(Zeros(z - 1) + Decimal(n));
      Associative("0", Zeros(z - 1), Decimal(n));
    }
  }

  lemma {:induction false} StripZeros(s: string) returns (z: nat)
    requires s != "" && AllDigits(s)
    ensures s == Zeros(z) + Decimal(DigitsValue(s))
  {
    if |s| > 1 && s[0] == '0' {
      var y := StripZeros(s[1..]);
      z := y + 1;
      assert s == "0" + s[1..];
      LeadingZero(s[1..]);
      Associative("0", Zeros(y), Decimal(DigitsValue(s)));
    } else {
      z := 0;
      NumberIsDecimal(s, DigitsValue(s));
      assert Zeros(0) + s == s;
    }
  }

  /** It accepts exactly the printed 64-bit numbers, leading zeros allowed. */
  lemma ParseUintMeaning(s: string, n: nat)
    ensures ParseUint(s) == Some(n) <==> IsCount(s, n)
  {
    if ParseUint(s) == Some(n) {
      var z := StripZeros(s);
    }
    if z: nat :| s == Zeros(z) + Decimal(n) {
      ZerosBefore(z, n);
    }
  }

  // ---- one line

  /** The line is source, destination and counts, with ": " between them; the
      counts are two words, each a 64-bit number. */
  ghost predicate Means(text: string, e: C.Entry, parts: seq<string>, counts: seq<string>) {
    && Parted(parts, ": ", TrimSpace(text), 3) && |parts| == 3
    && e.src == TrimSpace(parts[0]) && e.dst == TrimSpace(parts[1])
    && counts == NonEmpty(Split(Blanked(IsSpace, parts[2]), ' ')) && |counts| == 2
    && IsCount(counts[0], e.recvBytes) && IsCount(counts[1], e.sendBytes)
  }

  /** A printed 64-bit number, leading zeros allowed. */
  ghost predicate IsCount(s: string, n: nat) {
    n < WORD64 && exists z: nat :: s == Zeros(z) + Decimal(n)
  }

  lemma ParseCountsMeaning(src: string, dst: string, counts: seq<string>, e: C.Entry)
    ensures C.ParseCounts(src, dst, counts) == Some(e)
       <==> e.src == src && e.dst == dst && |counts| == 2
            && IsCount(counts[0], e.recvBytes) && IsCount(counts[1], e.sendBytes)
  {
    if |counts| == 2 {
      ParseUintMeaning(counts[0], e.recvBytes);
      ParseUintMeaning(counts[1], e.sendBytes);
    }
  }

  lemma ThreeParts(line: string)
    ensures var parts := SplitN(line, ": ", 3);
      Parted(parts, ": ", line, 3) && (line == "" ==> |parts| == 1)
  {
    SplitNMeaning(line, ": ", 3);
    if line == "" {
      assert Index(line, ": ") < 0;
    }
  }

  /** An entry is made of a line exactly when the line's parts mean that entry. */
  lemma ParseLineMeaning(text: string, e: C.Entry)
    ensures var parts := SplitN(TrimSpace(text), ": ", 3);
      && Parted(parts, ": ", TrimSpace(text), 3)
      && (C.ParseLine(text) == Some(e)
          <==> |parts| == 3 && Means(text, e, parts, NonEmpty(Split(Blanked(IsSpace, parts[2]), ' '))))
  {
    var line := TrimSpace(text);
    var parts := SplitN(line, ": ", 3);
    ThreeParts(line);
    if |parts| == 3 {
      FieldsMeaning(parts[2]);
      ParseCountsMeaning(TrimSpace(parts[0]), TrimSpace(parts[1]), Fields(parts[2]), e);
    }
  }

  // ---- the scanning loop

  /** A line as the scanner hands it on: without a carriage return at its end. */
  function Scanned(line: string): string {
    if EndsIn(line, '\r') then Front(line) else line
  }

  function LineEntries(parse: string -> Option<C.Entry>, lines: seq<string>): seq<C.Entry> {
    if lines == [] then [] else C.Prepend(parse(Scanned(lines[0])), LineEntries(parse, lines[1..]))
  }

  ghost predicate TooLong(lines: seq<string>) {
    exists i: nat :: i < |lines| && |lines[i]| >= MAX_TOKEN
  }

  lemma FirstLine(text: string)
    ensures var lines, n := Split(text, '\n'), NewlineAt(text);
      if n < |text| then lines == [text[..n]] + Split(text[n + 1..], '\n') else lines == [text]
  {
    var n := NewlineAt(text);
    if n < |text| {
      SplitAround(text, n, '\n', text[..n], text[n + 1..]);
    } else {
      OnePart(text, '\n');
    }
  }

  lemma LineIs(text: string)
    requires text != ""
    ensures var n := NewlineAt(text);
      Line(text) == Scanned(text[..n]) && AfterLine(text) == if n < |text| then text[n + 1..] else ""
  {
  }

  lemma OnlyLine(parse: string -> Option<C.Entry>, line: string)
    ensures LineEntries(parse, [line]) == C.Prepend(parse(Scanned(line)), [])
    ensures TooLong([line]) <==> |line| >= MAX_TOKEN
  {
    assert [line][1..] == [];
    assert [line][0] == line;
  }

  lemma OneMoreLine(parse: string -> Option<C.Entry>, first: string, rest: seq<string>)
    ensures LineEntries(parse, [first] + rest) == C.Prepend(parse(Scanned(first)), LineEntries(parse, rest))
    ensures TooLong([first] + rest) <==> |first| >= MAX_TOKEN || TooLong(rest)
  {
    var lines := [first] + rest;
    assert lines[1..] == rest;
    assert forall i: nat | i < |rest| :: lines[i + 1] == rest[i];
    assert lines[0] == first;
  }

  lemma {:induction false} ReadsLines(read: string -> C.Result<seq<C.Entry>>, parse: string -> Option<C.Entry>,
                                      text: string)
    requires parse("") == None && read("") == C.Ok([])
    requires forall t | t != "" && LineTooLong(t) :: read(t) == C.Err(C.TokenTooLong)
    requires forall t | t != "" && !LineTooLong(t) && read(AfterLine(t)).Err? :: read(t) == read(AfterLine(t))
    requires forall t | t != "" && !LineTooLong(t) && read(AfterLine(t)).Ok? ::
               read(t) == C.Ok(C.Prepend(parse(Line(t)), read(AfterLine(t)).value))
    ensures var lines := Split(text, '\n');
      read(text) == if TooLong(lines) then C.Err(C.TokenTooLong) else C.Ok(LineEntries(parse, lines))
    decreases |text|
  {
    var n := NewlineAt(text);
    FirstLine(text);
    if text == "" {
      OnlyLine(parse, "");
    } else if n < |text| {
      var rest := text[n + 1..];
      ReadsLines(read, parse, rest);
      OneMoreLine(parse, text[..n], Split(rest, '\n'));
      LineIs(text);
    } else {
      OnlyLine(parse, text);
      LineIs(text);
      assert text[..n] == text;
    }
  }

  /** Any text is read line by line: what every line gives, in order, or an
      error when the scanner cannot hold one of them. */
  lemma ParseReportMeaning(text: string)
    ensures var lines := Split(text, '\n');
      C.ParseReport(text)
      == if TooLong(lines) then C.Err(C.TokenTooLong) else C.Ok(LineEntries(C.ParseLine, lines))
  {
    ReadsLines(C.ParseReport, C.ParseLine, text);
  }
}
