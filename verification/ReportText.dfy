/** The text of the top-addresses report (final_work_kprobe, stats.c). */
module ReportText {
  import opened Text
  import opened Maps
  import opened Reading

  /** What the report reads of one table entry. */
  datatype Row = Row(saddr: Ipv4, daddr: Ipv4, recv: Word, send: Word)

  function Route(row: Row): string {
    Dotted(row.saddr) + (" : " + (Dotted(row.daddr) + ": "))
  }

  /** The line up to and with the blank before its last number. */
  function Head(row: Row): string {
    Route(row) + (Decimal(row.recv) + " ")
  }

  function Body(row: Row): string {
    Head(row) + Decimal(row.send)
  }

  /** The format "%pI4 : %pI4: %llu %llu\n". */
  function Line(row: Row): string {
    Body(row) + "\n"
  }

  function Bodies(rows: seq<Row>): (r: seq<string>) {
    Map(Body, rows)
  }

  /** Some lines of text, each ended by a newline. */
  function Joined(bodies: seq<string>): string {
    if bodies == [] then "" else bodies[0] + ("\n" + Joined(bodies[1..]))
  }

  function Report(rows: seq<Row>): string {
    Joined(Bodies(rows))
  }

  lemma {:induction false} JoinedSnoc(bodies: seq<string>, body: string)
    ensures Joined(bodies + [body]) == Joined(bodies) + (body + "\n")
  {
    if bodies == [] {
      assert (bodies + [body])[1..] == [];
      assert body + ("\n" + "") == "" + (body + "\n");
    } else {
      JoinedSnoc(bodies[1..], body);
      assert (bodies + [body])[1..] == bodies[1..] + [body];
      var a, b, c := bodies[0], Joined(bodies[1..]), body + "\n";
      assert a + ("\n" + (b + c)) == (a + ("\n" + b)) + c;
    }
  }

  lemma ReportSnoc(rows: seq<Row>, row: Row)
    ensures Report(rows + [row]) == Report(rows) + Line(row)
  {
    MapAppend(Body, rows, [row]);
    assert Map(Body, [row]) == [Body(row)];
    JoinedSnoc(Bodies(rows), Body(row));
  }

  /** No line is longer than 77 characters. */
  lemma LineLength(row: Row)
    ensures 0 < |Line(row)| <= 77
  {
    DottedShape(row.saddr);
    DottedShape(row.daddr);
    Word64Digits(row.recv);
    Word64Digits(row.send);
  }

  lemma OneMoreLine(n: nat, line: nat)
    ensures (n + 1) * line == n * line + line
  {
  }

  lemma {:induction false} JoinedLength(bodies: seq<string>, line: nat)
    ensures (forall b | b in bodies :: |b| + 1 <= line) ==> |Joined(bodies)| <= |bodies| * line
    ensures (forall b | b in bodies :: |b| + 1 == line) ==> |Joined(bodies)| == |bodies| * line
  {
    if bodies != [] {
      JoinedLength(bodies[1..], line);
      OneMoreLine(|bodies[1..]|, line);
      assert bodies[0] in bodies && forall b | b in bodies[1..] :: b in bodies;
    }
  }

  lemma ReportLength(rows: seq<Row>, line: nat)
    ensures (forall row | row in rows :: |Line(row)| <= line) ==> |Report(rows)| <= |rows| * line
    ensures (forall row | row in rows :: |Line(row)| == line) ==> |Report(rows)| == |rows| * line
  {
    forall b | b in Bodies(rows)
      ensures exists row :: row in rows && |Line(row)| == |b| + 1
    {
      var i: nat :| i < |rows| && Bodies(rows)[i] == b;
      assert rows[i] in rows;
    }
    JoinedLength(Bodies(rows), line);
  }

  // ---- the report as a reader sees it

  /** Five words: the source address, a colon, the destination address with a
      colon behind it, the received and the sent bytes. */
  predicate LineShows(line: string, row: Row) {
    var words := Split(line, ' ');
    && |words| == 5
    && IsAddress(words[0], row.saddr) && words[1] == ":"
    && EndsIn(words[2], ':') && IsAddress(Front(words[2]), row.daddr)
    && IsNumber(words[3], row.recv) && IsNumber(words[4], row.send)
  }

  /** One such line a row, in order, and a newline behind each. */
  predicate ReportShows(text: string, rows: seq<Row>) {
    var lines := Split(text, '\n');
    && |lines| == |rows| + 1 && lines[|rows|] == ""
    && forall i: nat | i < |rows| :: LineShows(lines[i], rows[i])
  }

  lemma ThreeWords(src: string, dst: string)
    requires ' ' !in src && ' ' !in dst
    ensures Split(src + (" : " + (dst + ":")), ' ') == [src, ":", dst + ":"]
  {
    var tail := dst + ":";
    assert " : " + tail == " " + (":" + (" " + tail));
    OnePart(tail, ' ');
    OnePart(":", ' ');
    OnePart(src, ' ');
    TwoTexts(":", tail, ' ');
    TwoTexts(src, ":" + (" " + tail), ' ');
  }

  lemma RouteWords(row: Row)
    requires ' ' !in Dotted(row.saddr) && ' ' !in Dotted(row.daddr)
    ensures EndsIn(Route(row), ' ')
    ensures Split(Front(Route(row)), ' ') == [Dotted(row.saddr), ":", Dotted(row.daddr) + ":"]
  {
    ThreeWords(Dotted(row.saddr), Dotted(row.daddr));
    assert Front(Route(row)) == Dotted(row.saddr) + (" : " + (Dotted(row.daddr) + ":"));
  }

  lemma NextWord(text: string, word: string)
    requires EndsIn(text, ' ') && ' ' !in word
    ensures EndsIn(text + (word + " "), ' ')
    ensures Split(Front(text + (word + " ")), ' ') == Split(Front(text), ' ') + [word]
  {
    assert Front(text + (word + " ")) == text + word;
    WordBehind(text, word, ' ');
  }

  lemma FiveWords(row: Row)
    requires ' ' !in Dotted(row.saddr) && ' ' !in Dotted(row.daddr)
    ensures Split(Body(row), ' ')
         == [Dotted(row.saddr), ":", Dotted(row.daddr) + ":"] + [Decimal(row.recv)] + [Decimal(row.send)]
  {
    RouteWords(row);
    NextWord(Route(row), Decimal(row.recv));
    WordBehind(Head(row), Decimal(row.send), ' ');
  }

  lemma BodyReads(row: Row)
    ensures LineShows(Body(row), row)
  {
    DottedShape(row.saddr);
    DottedShape(row.daddr);
    FiveWords(row);
    DottedReads(row.saddr);
    DottedReads(row.daddr);
    DecimalReads(row.recv);
    DecimalReads(row.send);
    assert Front(Dotted(row.daddr) + ":") == Dotted(row.daddr);
  }

  lemma NoNewline(row: Row)
    ensures '\n' !in Body(row)
  {
    DottedShape(row.saddr);
    DottedShape(row.daddr);
  }

  lemma {:induction false} LinesOf(bodies: seq<string>)
    requires forall i: nat | i < |bodies| :: '\n' !in bodies[i]
    ensures Split(Joined(bodies), '\n') == bodies + [""]
  {
    if bodies != [] {
      LinesOf(bodies[1..]);
      TwoTexts(bodies[0], Joined(bodies[1..]), '\n');
      OnePart(bodies[0], '\n');
      assert [bodies[0]] + (bodies[1..] + [""]) == bodies + [""];
    }
  }

  /** The printed report shows exactly the rows it was printed from. */
  lemma ReportReads(rows: seq<Row>)
    ensures ReportShows(Report(rows), rows)
  {
    var bodies := Bodies(rows);
    forall i: nat | i < |rows|
      ensures LineShows(bodies[i], rows[i]) && '\n' !in bodies[i]
    {
      BodyReads(rows[i]);
      NoNewline(rows[i]);
    }
    LinesOf(bodies);
  }
}
