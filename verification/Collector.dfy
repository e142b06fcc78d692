/**
 The Prometheus exporter that reads the report back (collector.go): one gauge
 a direction and route, rebuilt on every update.
 */
module Collector {
  import opened GoStrings

  datatype Entry = Entry(src: string, dst: string, recvBytes: nat, sendBytes: nat)

  datatype ReadError = OpenFailed | TokenTooLong

  datatype Result<+T> = Ok(value: T) | Err(error: ReadError)

  /** What the loop body makes of one scanned line; None where it continues. */
  function ParseLine(text: string): Option<Entry> {
    var line := TrimSpace(text);
    if line == "" then None
    else
      var parts := SplitN(line, ": ", 3);
      if |parts| != 3 then None
      else ParseCounts(TrimSpace(parts[0]), TrimSpace(parts[1]), Fields(parts[2]))
  }

  function ParseCounts(src: string, dst: string, counts: seq<string>): Option<Entry> {
    if |counts| != 2 then None
    else
      var recv, send := ParseUint(counts[0]), ParseUint(counts[1]);
      if recv.None? || send.None? then None
      else Some(Entry(src, dst, recv.value, send.value))
  }

  function Prepend(e: Option<Entry>, rest: seq<Entry>): seq<Entry> {
    if e.Some? then [e.value] + rest else rest
  }

  /** All entries of a text: a line the scanner cannot hold loses everything. */
  function ParseReport(text: string): Result<seq<Entry>>
    decreases |text|
  {
    if text == "" then Ok([])
    else if LineTooLong(text) then Err(TokenTooLong)
    else
      match ParseReport(AfterLine(text))
      case Err(e) => Err(e)
      case Ok(rest) => Ok(Prepend(ParseLine(Line(text)), rest))
  }

  /** The outcome once `before` has been read and `text` is still to come. */
  function Resumed(before: seq<Entry>, text: string): Result<seq<Entry>> {
    match ParseReport(text)
    case Err(e) => Err(e)
    case Ok(rest) => Ok(before + rest)
  }

  lemma ResumedStep(before: seq<Entry>, text: string)
    requires text != "" && !LineTooLong(text)
    ensures Resumed(before, text)
         == Resumed(before + Prepend(ParseLine(Line(text)), []), AfterLine(text))
  {
    var rest := ParseReport(AfterLine(text));
    if rest.Ok? {
      PrependAppend(before, ParseLine(Line(text)), rest.value);
    }
  }

  lemma PrependAppend(before: seq<Entry>, e: Option<Entry>, rest: seq<Entry>)
    ensures before + Prepend(e, rest) == (before + Prepend(e, [])) + rest
  {
  }

  lemma NextEntries(before: seq<Entry>, e: Option<Entry>)
    ensures before + Prepend(e, []) == if e.Some? then before + [e.value] else before
  {
  }

  lemma ResumedEnds(before: seq<Entry>, text: string)
    ensures Resumed([], text) == ParseReport(text)
    ensures Resumed(before, "") == Ok(before)
  {
    assert before + [] == before;
    var r := ParseReport(text);
    assert r.Ok? ==> [] + r.value == r.value;
  }

  /** `file` is None when the report cannot be opened. */
  method ReadTopAddrs(file: Option<string>) returns (r: Result<seq<Entry>>)
    ensures r == if file.None? then Err(OpenFailed) else ParseReport(file.value)
  {
    if file.None? {
      return Err(OpenFailed);
    }
    var entries: seq<Entry> := [];
    var text := file.value;
    ghost var goal := ParseReport(text);
    ResumedEnds([], text);
    while text != ""
      invariant Resumed(entries, text) == goal
      decreases |text|
    {
      if LineTooLong(text) {
        return Err(TokenTooLong);
      }
      var line := TrimSpace(Line(text));
      ResumedStep(entries, text);
      ghost var parsed := ParseLine(Line(text));
      NextEntries(entries, parsed);
      text := AfterLine(text);
      if line == "" {
        assert parsed.None?;
        continue;
      }
      var parts := SplitN(line, ": ", 3);
      if |parts| != 3 {
        assert parsed.None?;
        continue;
      }
      var src := TrimSpace(parts[0]);
      var dst := TrimSpace(parts[1]);
      var counts := Fields(parts[2]);
      assert parsed == ParseCounts(src, dst, counts);
      if |counts| != 2 {
        assert parsed.None?;
        continue;
      }
      var recvBytes := ParseUint(counts[0]);
      if recvBytes.None? {
        assert parsed.None?;
        continue;
      }
      var sendBytes := ParseUint(counts[1]);
      if sendBytes.None? {
        assert parsed.None?;
        continue;
      }
      assert parsed == Some(Entry(src, dst, recvBytes.value, sendBytes.value));
      entries := entries + [Entry(src, dst, recvBytes.value, sendBytes.value)];
    }
    ResumedEnds(entries, "");
    return Ok(entries);
  }

  // ---- the gauges

  type Gauges = map<(string, string), nat>

  /** The gauges after one Set call an entry, later entries overwriting earlier ones. */
  function SetAll(entries: seq<Entry>, value: Entry -> nat): Gauges {
    if entries == [] then map[]
    else
      var last := entries[|entries| - 1];
      SetAll(entries[..|entries| - 1], value)[(last.src, last.dst) := value(last)]
  }

  function RecvOf(e: Entry): nat {
    e.recvBytes
  }

  function SendOf(e: Entry): nat {
    e.sendBytes
  }

  class Collector {
    var trafficRecv: Gauges
    var trafficSend: Gauges
    var topAddrs: nat

    constructor ()
      ensures trafficRecv == trafficSend == map[] && topAddrs == 0
    {
      trafficRecv, trafficSend, topAddrs := map[], map[], 0;
    }

    /** Both vectors are reset before the report is read, so a failed read
        leaves them empty while the entry count keeps its old value. */
    method Update(file: Option<string>) returns (ok: bool)
      modifies this
      ensures ok <==> file.Some? && ParseReport(file.value).Ok?
      ensures ok ==>
        var entries := ParseReport(file.value).value;
        && trafficRecv == SetAll(entries, RecvOf)
        && trafficSend == SetAll(entries, SendOf)
        && topAddrs == |entries|
      ensures !ok ==> trafficRecv == trafficSend == map[] && topAddrs == old(topAddrs)
    {
      trafficRecv := map[];
      trafficSend := map[];
      var r := ReadTopAddrs(file);
      if r.Err? {
        return false;
      }
      var entries := r.value;
      for i := 0 to |entries|
        invariant trafficRecv == SetAll(entries[..i], RecvOf)
        invariant trafficSend == SetAll(entries[..i], SendOf)
        invariant topAddrs == old(topAddrs)
      {
        var e := entries[i];
        assert entries[..i + 1][..i] == entries[..i];
        trafficRecv := trafficRecv[(e.src, e.dst) := e.recvBytes];
        trafficSend := trafficSend[(e.src, e.dst) := e.sendBytes];
      }
      assert entries[..|entries|] == entries;
      topAddrs := |entries|;
      return true;
    }
  }

  /** Entries with pairwise different routes each keep their own value. */
  lemma {:induction false} SetAllDistinct(entries: seq<Entry>, value: Entry -> nat)
    requires forall i: nat, j: nat | i < j < |entries| ::
               (entries[i].src, entries[i].dst) != (entries[j].src, entries[j].dst)
    ensures SetAll(entries, value).Keys == set e | e in entries :: (e.src, e.dst)
    ensures forall e | e in entries :: SetAll(entries, value)[(e.src, e.dst)] == value(e)
  {
    if entries != [] {
      var last := |entries| - 1;
      SetAllDistinct(entries[..last], value);
      assert entries == entries[..last] + [entries[last]];
    }
  }

  /** An entry for these labels behind which none follows. */
  predicate LastFor(entries: seq<Entry>, i: nat, pair: (string, string)) {
    && i < |entries| && (entries[i].src, entries[i].dst) == pair
    && forall j: nat | i < j < |entries| :: (entries[j].src, entries[j].dst) != pair
  }

  /** Whatever the entries, the last one for its labels is the one that is shown. */
  lemma {:induction false} SetAllLast(entries: seq<Entry>, value: Entry -> nat, pair: (string, string))
    ensures pair in SetAll(entries, value) <==> exists i: nat :: LastFor(entries, i, pair)
    ensures forall i: nat | LastFor(entries, i, pair) ::
              pair in SetAll(entries, value) && SetAll(entries, value)[pair] == value(entries[i])
  {
    if entries != [] {
      var last := |entries| - 1;
      var e := entries[last];
      SetAllLast(entries[..last], value, pair);
      if (e.src, e.dst) == pair {
        assert LastFor(entries, last, pair);
      } else {
        assert forall i: nat :: LastFor(entries, i, pair) <==> LastFor(entries[..last], i, pair);
      }
    }
  }
}
