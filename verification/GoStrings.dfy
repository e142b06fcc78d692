/**
 The functions of Go's `strings`, `strconv` and `bufio` packages that the
 collector calls, on sequences of characters.
 */
module GoStrings {
  import opened Text

  datatype Option<+T> = None | Some(value: T)

  predicate IsSpace(c: char) {
    || c == ' ' || '\t' <= c <= '\r' || c == '\U{85}' || c == '\U{A0}' || c == '\U{1680}'
    || '\U{2000}' <= c <= '\U{200A}' || c == '\U{2028}' || c == '\U{2029}'
    || c == '\U{202F}' || c == '\U{205F}' || c == '\U{3000}'
  }

  predicate NoSpace(s: string) {
    forall i: nat | i < |s| :: !IsSpace(s[i])
  }

  // ---- strings.TrimSpace

  function TrimLeft(s: string): string {
    if s != "" && IsSpace(s[0]) then TrimLeft(s[1..]) else s
  }

  function TrimRight(s: string): (t: string)
    ensures t <= s
    ensures t != "" ==> !IsSpace(t[|t| - 1])
  {
    if s != "" && IsSpace(s[|s| - 1]) then TrimRight(s[..|s| - 1]) else s
  }

  function TrimSpace(s: string): (t: string)
    ensures t != "" ==> !IsSpace(t[|t| - 1])
  {
    TrimRight(TrimLeft(s))
  }

  // ---- strings.SplitN

  predicate MatchAt(s: string, sep: string, i: nat) {
    i + |sep| <= |s| && s[i..i + |sep|] == sep
  }

  lemma MatchesShift(s: string, sep: string)
    requires s != ""
    ensures forall i: nat | i > 0 :: MatchAt(s, sep, i) <==> MatchAt(s[1..], sep, i - 1)
  {
    forall i: nat | i > 0
      ensures MatchAt(s, sep, i) <==> MatchAt(s[1..], sep, i - 1)
    {
      if i + |sep| <= |s| {
        assert s[1..][i - 1..i - 1 + |sep|] == s[i..i + |sep|];
      }
    }
  }

  /** strings.Index: the least index of a match, -1 when there is none. */
  function Index(s: string, sep: string): (r: int)
    ensures r < 0 ==> forall i: nat :: !MatchAt(s, sep, i)
    ensures r >= 0 ==> MatchAt(s, sep, r) && forall i: nat | i < r :: !MatchAt(s, sep, i)
  {
    if |s| < |sep| then -1
    else if MatchAt(s, sep, 0) then 0
    else if s == "" then -1
    else
      MatchesShift(s, sep);
      var r := Index(s[1..], sep);
      if r < 0 then -1 else r + 1
  }

  function SplitN(s: string, sep: string, n: nat): (parts: seq<string>)
    requires n > 0
    ensures 1 <= |parts| <= n
    decreases n
  {
    var i := Index(s, sep);
    if n == 1 || i < 0 then [s]
    else [s[..i]] + SplitN(s[i + |sep|..], sep, n - 1)
  }

  // ---- strings.Fields

  function WordLength(s: string): (n: nat)
    ensures n <= |s|
  {
    if s == "" || IsSpace(s[0]) then 0 else 1 + WordLength(s[1..])
  }

  function Fields(s: string): seq<string>
    decreases |s|
  {
    if s == "" then []
    else if IsSpace(s[0]) then Fields(s[1..])
    else [s[..WordLength(s)]] + Fields(s[WordLength(s)..])
  }

  lemma {:induction false} WordLengthIs(w: string, rest: string)
    requires NoSpace(w) && (rest == "" || IsSpace(rest[0]))
    ensures WordLength(w + rest) == |w|
  {
    if w == "" {
      assert w + rest == rest;
    } else {
      assert (w + rest)[1..] == w[1..] + rest;
      WordLengthIs(w[1..], rest);
    }
  }

  lemma OneField(w: string)
    requires w != "" && NoSpace(w)
    ensures Fields(w) == [w]
  {
    assert w + "" == w;
    WordLengthIs(w, "");
  }

  lemma TwoFields(v: string, w: string)
    requires v != "" && NoSpace(v) && w != "" && NoSpace(w)
    ensures Fields(v + (" " + w)) == [v, w]
  {
    var s := v + (" " + w);
    WordLengthIs(v, " " + w);
    assert s[..|v|] == v && s[|v|..] == " " + w;
    assert (" " + w)[1..] == w;
    OneField(w);
  }

  // ---- strconv.ParseUint(s, 10, 64)

  function ParseUint(s: string): Option<nat> {
    if s == "" || !AllDigits(s) || DigitsValue(s) >= WORD64 then None else Some(DigitsValue(s))
  }

  // ---- bufio.Scanner with ScanLines

  const MAX_TOKEN: nat := 65536

  /** The index of the first newline, |s| when there is none. */
  function NewlineAt(s: string): (n: nat)
    ensures n <= |s|
    ensures n < |s| ==> s[n] == '\n'
    ensures forall i: nat | i < n :: s[i] != '\n'
  {
    if s == "" || s[0] == '\n' then 0 else 1 + NewlineAt(s[1..])
  }

  /** The next line of non-empty text, without its newline and one carriage return. */
  function Line(text: string): string {
    var raw := text[..NewlineAt(text)];
    if raw != "" && raw[|raw| - 1] == '\r' then raw[..|raw| - 1] else raw
  }

  function AfterLine(text: string): (rest: string)
    ensures text != "" ==> |rest| < |text|
  {
    var n := NewlineAt(text);
    if n == |text| then "" else text[n + 1..]
  }

  /** The scanner's buffer fills up before it meets the end of the line. */
  predicate LineTooLong(text: string) {
    NewlineAt(text) >= MAX_TOKEN
  }

  lemma NewlineIs(line: string, rest: string)
    requires '\n' !in line
    ensures NewlineAt(line) == |line|
    ensures NewlineAt(line + ("\n" + rest)) == |line|
  {
    var s := line + ("\n" + rest);
    assert s[|line|] == '\n';
    assert forall i: nat | i < |line| :: s[i] == line[i];
  }
}
