/**
 Reading back what was printed: the collector's parser applied to the report,
 whole or cut off anywhere by the size of the buffer.
 */
module RoundTrip {
  import opened Text
  import opened GoStrings
  import opened Maps
  import opened Buffer
  import R = ReportText
  import C = Collector

  // ---- one line

  /** What the collector makes of a whole line of this row. */
  function EntryOf(row: R.Row): C.Entry {
    C.Entry(Dotted(row.saddr), Dotted(row.daddr), row.recv, row.send)
  }

  /** What it makes of the first k characters of the line's body: nothing until
      a digit of the last number is there, and then that digit string's value. */
  function CutEntry(row: R.Row, k: nat): Option<C.Entry>
    requires k <= |R.Body(row)|
  {
    if k <= |R.Head(row)| then None
    else Some(EntryOf(row).(sendBytes := DigitsValue(Decimal(row.send)[..k - |R.Head(row)|])))
  }

  lemma DigitsNoSpace(s: string)
    requires AllDigits(s)
    ensures NoSpace(s)
  {
  }

  lemma AddressNoSpace(ip: Ipv4)
    ensures NoSpace(Dotted(ip)) && Dotted(ip) != "" && ':' !in Dotted(ip)
  {
    DottedShape(ip);
  }

  lemma TrimNothing(s: string)
    requires s != "" && !IsSpace(s[0]) && !IsSpace(s[|s| - 1])
    ensures TrimSpace(s) == s
  {
  }

  lemma TrimLastBlank(s: string)
    requires s != "" && !IsSpace(s[0]) && !IsSpace(s[|s| - 1])
    ensures TrimSpace(s + " ") == s
  {
    var t := s + " ";
    assert TrimLeft(t) == t;
    assert t[..|t| - 1] == s;
    assert TrimRight(t) == TrimRight(s) == s;
  }

  /** The first separator of a string that has none before it. */
  lemma SplitFirst(p: string, rest: string, n: nat)
    requires n > 1 && ':' !in p
    ensures SplitN(p + (": " + rest), ": ", n) == [p] + SplitN(rest, ": ", n - 1)
  {
    var s := p + (": " + rest);
    assert MatchAt(s, ": ", |p|);
    var i := Index(s, ": ");
    assert s[i] == s[i..i + 2][0] == ':';
    assert i == |p| by {
      assert forall j: nat | j < |p| :: s[j] == p[j];
    }
    assert s[..i] == p && s[i + 2..] == rest;
  }

  predicate Token(s: string) {
    s != "" && NoSpace(s) && ':' !in s
  }

  lemma SplitThree(src: string, dst: string, counts: string)
    requires ':' !in src && ':' !in dst
    ensures SplitN((src + " ") + (": " + (dst + (": " + counts))), ": ", 3) == [src + " ", dst, counts]
  {
    SplitFirst(src + " ", dst + (": " + counts), 3);
    SplitFirst(dst, counts, 2);
  }

  lemma ParseThree(src: string, dst: string, counts: string, line: string)
    requires Token(src) && Token(dst)
    requires line != "" && !IsSpace(line[0]) && !IsSpace(line[|line| - 1])
    requires SplitN(line, ": ", 3) == [src + " ", dst, counts]
    ensures C.ParseLine(line) == C.ParseCounts(src, dst, Fields(counts))
  {
    TrimNothing(line);
    TrimLastBlank(src);
    TrimNothing(dst);
  }

  lemma RouteShape(src: string, dst: string, counts: string)
    requires src != "" && counts != ""
    ensures var line := (src + (" : " + (dst + ": "))) + counts;
      && line == (src + " ") + (": " + (dst + (": " + counts)))
      && line[0] == src[0] && line[|line| - 1] == counts[|counts| - 1]
  {
  }

  /** A line of two addresses and some counts, as the collector splits it. */
  lemma ParseShaped(row: R.Row, counts: string)
    requires counts != "" && !IsSpace(counts[|counts| - 1])
    ensures C.ParseLine(R.Route(row) + counts)
         == C.ParseCounts(Dotted(row.saddr), Dotted(row.daddr), Fields(counts))
  {
    var src, dst := Dotted(row.saddr), Dotted(row.daddr);
    AddressNoSpace(row.saddr);
    AddressNoSpace(row.daddr);
    RouteShape(src, dst, counts);
    SplitThree(src, dst, counts);
    ParseThree(src, dst, counts, R.Route(row) + counts);
  }

  lemma ParseNumber(n: Word, k: nat)
    requires 0 < k <= |Decimal(n)|
    ensures ParseUint(Decimal(n)[..k]) == Some(DigitsValue(Decimal(n)[..k]))
  {
    DecimalValue(n);
    PrefixValue(Decimal(n), k);
  }

  lemma CutShape(route: string, recv: string, send: string, m: nat)
    requires m <= |send|
    ensures ((route + (recv + " ")) + send)[..|route + (recv + " ")| + m] == route + (recv + (" " + send[..m]))
  {
  }

  lemma ParseTwoCounts(row: R.Row, recv: string, send: string)
    requires recv != "" && AllDigits(recv) && send != "" && AllDigits(send)
    ensures C.ParseLine(R.Route(row) + (recv + (" " + send)))
         == C.ParseCounts(Dotted(row.saddr), Dotted(row.daddr), [recv, send])
  {
    var counts := recv + (" " + send);
    assert counts[|counts| - 1] == send[|send| - 1];
    ParseShaped(row, counts);
    DigitsNoSpace(recv);
    DigitsNoSpace(send);
    TwoFields(recv, send);
  }

  lemma CountsParsed(src: string, dst: string, recv: Word, send: Word, n: nat)
    requires 0 < n <= |Decimal(send)|
    ensures C.ParseCounts(src, dst, [Decimal(recv), Decimal(send)[..n]])
         == Some(C.Entry(src, dst, recv, DigitsValue(Decimal(send)[..n])))
  {
    var whole := Decimal(recv);
    assert whole[..|whole|] == whole;
    ParseNumber(recv, |whole|);
    DecimalValue(recv);
    ParseNumber(send, n);
  }

  /** Cut inside the last number: the entry is there, with a decimal prefix of the count. */
  lemma CutInSend(row: R.Row, k: nat)
    requires |R.Head(row)| < k <= |R.Body(row)|
    ensures C.ParseLine(R.Body(row)[..k]) == CutEntry(row, k)
  {
    var n := k - |R.Head(row)|;
    CutShape(R.Route(row), Decimal(row.recv), Decimal(row.send), n);
    assert R.Body(row)[..k] == R.Route(row) + (Decimal(row.recv) + (" " + Decimal(row.send)[..n]));
    ParseTwoCounts(row, Decimal(row.recv), Decimal(row.send)[..n]);
    CountsParsed(Dotted(row.saddr), Dotted(row.daddr), row.recv, row.send, n);
  }

  /** Cut inside the first number, or just after it: one count is not two. */
  lemma CutInRecv(row: R.Row, k: nat)
    requires |R.Route(row)| < k <= |R.Head(row)|
    ensures C.ParseLine(R.Body(row)[..k]) == None
  {
    var route := R.Route(row);
    var n := if k == |R.Head(row)| then |Decimal(row.recv)| else k - |route|;
    var recv := Decimal(row.recv)[..n];
    assert R.Body(row)[..k] == if k == |R.Head(row)| then (route + recv) + " " else route + recv;
    AddressNoSpace(row.saddr);
    DigitsNoSpace(recv);
    TrimNothing(route + recv);
    TrimLastBlank(route + recv);
    ParseShaped(row, recv);
    OneField(recv);
  }

  /** Cut inside the addresses: no second separator is left after trimming. */
  lemma CutInRoute(row: R.Row, k: nat)
    requires k <= |R.Route(row)|
    ensures C.ParseLine(R.Body(row)[..k]) == None
  {
    var route := R.Route(row);
    var cut := R.Body(row)[..k];
    assert cut == route[..k];
    AddressNoSpace(row.saddr);
    if cut != "" {
      assert cut[0] == Dotted(row.saddr)[0];
    }
    var line := TrimSpace(cut);
    assert line <= route && |line| < |route| by {
      assert TrimLeft(cut) == cut;
      assert route[|route| - 1] == ' ';
      assert |line| <= |cut|;
    }
    NoSecondSeparator(row, line);
  }

  /** Three parts need two separators, neither meeting the other. */
  lemma TwoSeparators(line: string) returns (i: nat, j: nat)
    requires |SplitN(line, ": ", 3)| == 3
    ensures i + 2 <= j && j + 2 <= |line|
    ensures line[i] == ':' && line[j] == ':'
  {
    i := Index(line, ": ");
    assert line[i] == line[i..i + 2][0];
    var rest := line[i + 2..];
    var k := Index(rest, ": ");
    assert rest[k] == rest[k..k + 2][0];
    j := i + 2 + k;
  }

  lemma NoSecondSeparator(row: R.Row, line: string)
    requires line <= R.Route(row) && |line| < |R.Route(row)|
    ensures |SplitN(line, ": ", 3)| < 3
  {
    var route := R.Route(row);
    AddressNoSpace(row.saddr);
    AddressNoSpace(row.daddr);
    assert forall i: nat | i < |route| && route[i] == ':' :: i == |Dotted(row.saddr)| + 1 || i == |route| - 2;
    if |SplitN(line, ": ", 3)| == 3 {
      var i, j := TwoSeparators(line);
    }
  }

  /** What the collector makes of any initial part of a line's body. */
  lemma ParseCut(row: R.Row, k: nat)
    requires k <= |R.Body(row)|
    ensures C.ParseLine(R.Body(row)[..k]) == CutEntry(row, k)
  {
    if k <= |R.Route(row)| {
      CutInRoute(row, k);
    } else if k <= |R.Head(row)| {
      CutInRecv(row, k);
    } else {
      CutInSend(row, k);
    }
  }

  /** A whole line is read back exactly. */
  lemma WholeLine(row: R.Row)
    ensures CutEntry(row, |R.Body(row)|) == Some(EntryOf(row))
  {
    assert Decimal(row.send)[..|Decimal(row.send)|] == Decimal(row.send);
    DecimalValue(row.send);
  }

  // ---- any lines, and a part of one

  predicate Clean(body: string) {
    '\n' !in body && '\r' !in body && |body| < MAX_TOKEN
  }

  function With(e: Option<C.Entry>, rest: C.Result<seq<C.Entry>>): C.Result<seq<C.Entry>> {
    match rest
    case Err(error) => C.Err(error)
    case Ok(es) => C.Ok(C.Prepend(e, es))
  }

  /** The collector's first step on a text that starts with a whole line. */
  lemma ReadLine(body: string, rest: string)
    requires Clean(body)
    ensures C.ParseReport(body + ("\n" + rest)) == With(C.ParseLine(body), C.ParseReport(rest))
  {
    var text := body + ("\n" + rest);
    NewlineIs(body, rest);
    assert text[..|body|] == body && text[|body| + 1..] == rest;
    assert Line(text) == body && AfterLine(text) == rest;
  }

  /** ... and on a text that is only a part of a line. */
  lemma ReadPart(body: string)
    requires Clean(body)
    ensures C.ParseReport(body) == C.Ok(C.Prepend(C.ParseLine(body), []))
  {
    NewlineIs(body, "");
    assert body[..|body|] == body;
    if body != "" {
      assert Line(body) == body && AfterLine(body) == "";
      assert C.ParseReport("") == C.Ok([]);
    }
  }

  lemma SplitFirstLine(first: string, rest: string, part: string)
    ensures (first + ("\n" + rest)) + part == first + ("\n" + (rest + part))
  {
  }

  /** Reading a text line by line: whole lines one after another, then a part. */
  lemma {:induction false} ReadLines(read: string -> C.Result<seq<C.Entry>>, parse: string -> Option<C.Entry>,
                                     bodies: seq<string>, entries: seq<C.Entry>, part: string)
    requires forall body, rest | Clean(body) :: read(body + ("\n" + rest)) == With(parse(body), read(rest))
    requires forall body | Clean(body) :: read(body) == C.Ok(C.Prepend(parse(body), []))
    requires |bodies| == |entries| && Clean(part)
    requires forall i: nat | i < |bodies| :: Clean(bodies[i]) && parse(bodies[i]) == Some(entries[i])
    ensures read(R.Joined(bodies) + part) == C.Ok(entries + C.Prepend(parse(part), []))
  {
    if bodies == [] {
      assert "" + part == part;
      assert entries + C.Prepend(parse(part), []) == C.Prepend(parse(part), []);
    } else {
      ReadLines(read, parse, bodies[1..], entries[1..], part);
      SplitFirstLine(bodies[0], R.Joined(bodies[1..]), part);
      EntriesFirst(entries, C.Prepend(parse(part), []));
    }
  }

  lemma EntriesFirst(entries: seq<C.Entry>, more: seq<C.Entry>)
    requires entries != []
    ensures C.Prepend(Some(entries[0]), entries[1..] + more) == entries + more
  {
  }

  lemma CleanPrefix(body: string, k: nat)
    requires Clean(body) && k <= |body|
    ensures Clean(body[..k])
  {
  }

  // ---- where a report is cut

  lemma ReportLast(rows: seq<R.Row>)
    requires rows != []
    ensures |R.Report(rows)| == |R.Report(rows[..|rows| - 1])| + |R.Body(rows[|rows| - 1])| + 1
  {
    var last := |rows| - 1;
    assert rows == rows[..last] + [rows[last]];
    R.ReportSnoc(rows[..last], rows[last]);
  }

  /** m rows are complete within the first `cut` characters of their report. */
  ghost predicate CompleteRows(rows: seq<R.Row>, cut: nat, m: nat) {
    && m <= |rows|
    && |R.Report(rows[..m])| <= cut <= |R.Report(rows)|
    && (m < |rows| ==> cut <= |R.Report(rows[..m])| + |R.Body(rows[m])|)
  }

  /** For every cut there is such a number of complete rows. */
  lemma {:induction false} CompleteRowsExist(rows: seq<R.Row>, cut: nat) returns (m: nat)
    requires cut <= |R.Report(rows)|
    ensures CompleteRows(rows, cut, m)
    decreases |rows|
  {
    assert rows[..|rows|] == rows;
    if rows == [] || cut == |R.Report(rows)| {
      m := |rows|;
    } else {
      var last := |rows| - 1;
      ReportLast(rows);
      if cut > |R.Report(rows[..last])| {
        m := last;
      } else {
        m := CompleteRowsExist(rows[..last], cut);
        assert rows[..last][..m] == rows[..m];
      }
    }
  }

  /** The text of the line that is cut. */
  ghost function LastPart(rows: seq<R.Row>, cut: nat, m: nat): string
    requires CompleteRows(rows, cut, m)
  {
    if m < |rows| then R.Body(rows[m])[..cut - |R.Report(rows[..m])|] else ""
  }

  lemma {:induction false} JoinedAppend(a: seq<string>, b: seq<string>)
    ensures R.Joined(a + b) == R.Joined(a) + R.Joined(b)
  {
    if a == [] {
      assert a + b == b;
    } else {
      JoinedAppend(a[1..], b);
      assert (a + b)[1..] == a[1..] + b;
      SplitFirstLine(a[0], R.Joined(a[1..]), R.Joined(b));
    }
  }

  lemma CutAfter(a: string, b: string, rest: string, cut: nat)
    requires |a| <= cut <= |a| + |b|
    ensures (a + (b + rest))[..cut] == a + b[..cut - |a|]
  {
  }

  lemma CutLines(bodies: seq<string>, m: nat, cut: nat)
    requires m < |bodies|
    requires |R.Joined(bodies[..m])| <= cut <= |R.Joined(bodies[..m])| + |bodies[m]|
    ensures cut <= |R.Joined(bodies)|
    ensures R.Joined(bodies)[..cut] == R.Joined(bodies[..m]) + bodies[m][..cut - |R.Joined(bodies[..m])|]
  {
    var whole, next := bodies[..m], bodies[m..];
    JoinedAppend(whole, next);
    assert bodies == whole + next;
    CutAfter(R.Joined(whole), next[0], "\n" + R.Joined(next[1..]), cut);
  }

  /** A report cut off is its complete lines and a part of the next. */
  lemma CutReport(rows: seq<R.Row>, cut: nat, m: nat)
    requires CompleteRows(rows, cut, m)
    ensures R.Report(rows)[..cut] == R.Report(rows[..m]) + LastPart(rows, cut, m)
  {
    if m < |rows| {
      MapPrefix(R.Body, rows, m);
      CutLines(R.Bodies(rows), m, cut);
    } else {
      assert rows[..m] == rows;
    }
  }

  // ---- the whole report

  function Entries(rows: seq<R.Row>): seq<C.Entry> {
    Map(EntryOf, rows)
  }

  lemma BodyClean(row: R.Row)
    ensures Clean(R.Body(row))
  {
    R.LineLength(row);
    DottedShape(row.saddr);
    DottedShape(row.daddr);
  }

  lemma ParseWhole(row: R.Row)
    ensures C.ParseLine(R.Body(row)) == Some(EntryOf(row))
  {
    var body := R.Body(row);
    assert body[..|body|] == body;
    ParseCut(row, |body|);
    WholeLine(row);
  }

  /** The collector on the lines of some rows and a part of a line. */
  lemma ReadRows(rows: seq<R.Row>, part: string)
    requires Clean(part)
    ensures C.ParseReport(R.Report(rows) + part) == C.Ok(Entries(rows) + C.Prepend(C.ParseLine(part), []))
  {
    forall body, rest | Clean(body)
      ensures C.ParseReport(body + ("\n" + rest)) == With(C.ParseLine(body), C.ParseReport(rest))
    {
      ReadLine(body, rest);
    }
    forall body | Clean(body)
      ensures C.ParseReport(body) == C.Ok(C.Prepend(C.ParseLine(body), []))
    {
      ReadPart(body);
    }
    var bodies, entries := R.Bodies(rows), Entries(rows);
    forall i: nat | i < |bodies|
      ensures Clean(bodies[i]) && C.ParseLine(bodies[i]) == Some(entries[i])
    {
      BodyClean(rows[i]);
      ParseWhole(rows[i]);
    }
    ReadLines(C.ParseReport, C.ParseLine, bodies, entries, part);
  }

  /** What is read from the incomplete line, if there is one. */
  ghost function LastEntry(rows: seq<R.Row>, cut: nat, m: nat): Option<C.Entry>
    requires CompleteRows(rows, cut, m)
  {
    if m < |rows| then CutEntry(rows[m], cut - |R.Report(rows[..m])|) else None
  }

  lemma LastEntryShows(rows: seq<R.Row>, cut: nat, m: nat)
    requires CompleteRows(rows, cut, m) && LastEntry(rows, cut, m).Some?
    ensures m < |rows|
    ensures var e := LastEntry(rows, cut, m).value;
      e.sendBytes <= rows[m].send && e == EntryOf(rows[m]).(sendBytes := e.sendBytes)
  {
    var k := cut - |R.Report(rows[..m])|;
    PrefixValue(Decimal(rows[m].send), k - |R.Head(rows[m])|);
    DecimalValue(rows[m].send);
  }

  lemma PartParsed(rows: seq<R.Row>, cut: nat, m: nat)
    requires CompleteRows(rows, cut, m)
    ensures Clean(LastPart(rows, cut, m))
    ensures C.ParseLine(LastPart(rows, cut, m)) == LastEntry(rows, cut, m)
  {
    if m < |rows| {
      var k := cut - |R.Report(rows[..m])|;
      BodyClean(rows[m]);
      CleanPrefix(R.Body(rows[m]), k);
      ParseCut(rows[m], k);
    }
  }

  /** Printing and reading back.  Of a report cut after any number of
      characters, with m complete lines left, the collector recovers those m
      rows exactly and in order, then at most one more entry: present exactly
      when a digit of that line's last number survived, with exact addresses
      and received count and a decimal prefix of the sent count. */
  lemma ReadBack(rows: seq<R.Row>, cut: nat, m: nat)
    requires CompleteRows(rows, cut, m)
    ensures C.ParseReport(R.Report(rows)[..cut])
         == C.Ok(Entries(rows[..m]) + C.Prepend(LastEntry(rows, cut, m), []))
  {
    PartParsed(rows, cut, m);
    CutReport(rows, cut, m);
    ReadRows(rows[..m], LastPart(rows, cut, m));
  }

  /** A report that fits is read back exactly. */
  lemma ReadBackWhole(rows: seq<R.Row>)
    ensures C.ParseReport(R.Report(rows)) == C.Ok(Entries(rows))
  {
    var text := R.Report(rows);
    assert rows[..|rows|] == rows;
    assert text[..|text|] == text;
    ReadBack(rows, |text|, |rows|);
    assert Entries(rows) + [] == Entries(rows);
  }

  /** What is missing from a report cut too short shows: either an entry is
      gone or the last one's sent count has become smaller. */
  lemma TooFew(rows: seq<R.Row>, cut: nat, m: nat)
    requires CompleteRows(rows, cut, m) && cut + 1 < |R.Report(rows)|
    ensures Entries(rows[..m]) + C.Prepend(LastEntry(rows, cut, m), []) != Entries(rows)
  {
    assert m < |rows| by {
      assert rows[..|rows|] == rows;
    }
    var part := LastEntry(rows, cut, m);
    var read := Entries(rows[..m]) + C.Prepend(part, []);
    if |read| == |rows| {
      assert m == |rows| - 1 && part.Some?;
      ReportLast(rows);
      var k := cut - |R.Report(rows[..m])|;
      StrictPrefix(rows[m].send, k - |R.Head(rows[m])|);
      assert read[m].sendBytes != rows[m].send && Entries(rows)[m].sendBytes == rows[m].send;
    }
  }

  lemma TooShort(rows: seq<R.Row>, cut: nat)
    requires cut + 1 < |R.Report(rows)|
    ensures C.ParseReport(R.Report(rows)[..cut]) != C.Ok(Entries(rows))
  {
    var m := CompleteRowsExist(rows, cut);
    ReadBack(rows, cut, m);
    TooFew(rows, cut, m);
  }

  lemma OnlyNewlineMissing(rows: seq<R.Row>, cut: nat)
    requires rows != [] && cut + 1 == |R.Report(rows)|
    ensures CompleteRows(rows, cut, |rows| - 1)
    ensures LastEntry(rows, cut, |rows| - 1) == Some(EntryOf(rows[|rows| - 1]))
  {
    ReportLast(rows);
    WholeLine(rows[|rows| - 1]);
  }

  lemma EntriesLast(rows: seq<R.Row>)
    requires rows != []
    ensures Entries(rows[..|rows| - 1]) + C.Prepend(Some(EntryOf(rows[|rows| - 1])), []) == Entries(rows)
  {
  }

  /** Cut just before its last newline, a report is still read back exactly. */
  lemma LastNewline(rows: seq<R.Row>, cut: nat)
    requires rows != [] && cut + 1 == |R.Report(rows)|
    ensures C.ParseReport(R.Report(rows)[..cut]) == C.Ok(Entries(rows))
  {
    OnlyNewlineMissing(rows, cut);
    ReadBack(rows, cut, |rows| - 1);
    EntriesLast(rows);
  }

  /** A report cut anywhere is read back exactly if and only if no more than
      its last newline is missing. */
  lemma ReadBackCut(rows: seq<R.Row>, cut: nat)
    requires cut <= |R.Report(rows)|
    ensures C.ParseReport(R.Report(rows)[..cut]) == C.Ok(Entries(rows)) <==> cut + 1 >= |R.Report(rows)|
  {
    if cut == |R.Report(rows)| {
      assert R.Report(rows)[..cut] == R.Report(rows);
      ReadBackWhole(rows);
    } else if cut + 1 == |R.Report(rows)| {
      assert rows != [];
      LastNewline(rows, cut);
    } else {
      TooShort(rows, cut);
    }
  }

  lemma ShownIs(text: string, size: nat)
    requires size > 0
    ensures Shown(text, size) == text[..if |text| < size then |text| else size - 1]
  {
  }

  /** Printed into a buffer of any size, a report is read back exactly if and
      only if its text, final newline included, is no longer than the buffer. */
  lemma ReadBackIff(rows: seq<R.Row>, size: nat)
    requires size > 0
    ensures C.ParseReport(Shown(R.Report(rows), size)) == C.Ok(Entries(rows)) <==> |R.Report(rows)| <= size
  {
    ShownIs(R.Report(rows), size);
    ReadBackCut(rows, if |R.Report(rows)| < size then |R.Report(rows)| else size - 1);
  }
}
