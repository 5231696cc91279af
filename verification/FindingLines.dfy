/**
 Reading the records of a results stream, and ingesting them under a byte cap and a count cap.
 */
module FindingLines {
  import opened ByteStrings
  import opened Wrappers

  // ---- The stream as the reader hands it out ----

  datatype Status = Complete | BufferFull | AtEnd | Failed

  /**
   What is left of a stream, and an arbitrary schedule of how much fits the buffer at each call. When
   `broken`, the data ends in a read error instead of an end of file.
   */
  class Reader {
    var rest: Bytes
    var calls: nat
    const broken: bool
    const room: nat -> nat

    constructor (data: Bytes, broken: bool, room: nat -> nat)
      ensures rest == data && this.broken == broken && this.room == room
    {
      rest, calls := data, 0;
      this.broken, this.room := broken, room;
    }

    /** Data up to and including a newline, a full buffer without one, or what is left. */
    method ReadSlice() returns (fragment: Bytes, status: Status)
      modifies this
      ensures old(rest) == fragment + rest
      ensures status == Complete <==> NEWLINE in fragment
      ensures status == Complete ==> NEWLINE !in fragment[..|fragment| - 1] && fragment[|fragment| - 1] == NEWLINE
      ensures status == BufferFull ==> fragment != []
      ensures status == AtEnd || status == Failed ==> rest == [] && (status == Failed <==> broken)
    {
      var full := 1 + room(calls);
      calls := calls + 1;
      var i := Find(NEWLINE, rest);
      if i < |rest| && i < full {
        fragment, status, rest := rest[..i + 1], Complete, rest[i + 1..];
        assert fragment[..|fragment| - 1] == old(rest)[..i];
      } else if full <= |rest| {
        fragment, status, rest := rest[..full], BufferFull, rest[full..];
        assert forall k :: 0 <= k < full ==> fragment[k] == old(rest)[..i][k];
      } else {
        fragment, status, rest := rest, if broken then Failed else AtEnd, [];
        assert old(rest)[..i] == old(rest);
      }
    }
  }

  // ---- What a record is ----

  datatype Record = Line(content: Bytes) | Oversized

  /** The text of a line: its newline is gone already, and one trailing CR goes too. */
  function Content(raw: Bytes): Bytes {
    if raw != [] && raw[|raw| - 1] == RETURN then raw[..|raw| - 1] else raw
  }

  function RecordOf(raw: Bytes, limit: nat): Record {
    if |Content(raw)| > limit then Oversized else Line(Content(raw))
  }

  datatype Outcome = Got(record: Record) | EndOfStream | ReadError

  /** The next record of a stream and what follows it, however the reader fragments it. */
  function NextRecord(data: Bytes, broken: bool, limit: nat): (Outcome, Bytes) {
    var i := Find(NEWLINE, data);
    if i < |data| then (Got(RecordOf(data[..i], limit)), data[i + 1..])
    else if broken then (ReadError, [])
    else if data == [] then (EndOfStream, [])
    else (Got(RecordOf(data, limit)), [])
  }

  /** The newline split of a stream; a broken one does not deliver its unfinished last line. */
  function Records(data: Bytes, broken: bool, limit: nat): seq<Record>
    decreases |data|
  {
    var i := Find(NEWLINE, data);
    if i < |data| then [RecordOf(data[..i], limit)] + Records(data[i + 1..], broken, limit)
    else if broken || data == [] then []
    else [RecordOf(data, limit)]
  }

  /** The newline that ends a piece is the first one of the whole stream. */
  lemma PieceEnds(data: Bytes, seen: Bytes, rest: Bytes)
    requires data == seen + rest && NEWLINE in seen && NEWLINE !in seen[..|seen| - 1]
    ensures Find(NEWLINE, data) == |seen| - 1 && data[|seen|..] == rest
  {
    assert data[..|seen| - 1] == seen[..|seen| - 1];
    assert forall k :: 0 <= k < |seen| - 1 ==> seen[k] == seen[..|seen| - 1][k];
    FindIs(NEWLINE, data, |seen| - 1);
  }

  method ReadFindingLine(reader: Reader, maxBytes: nat) returns (r: Outcome)
    modifies reader
    ensures (r, reader.rest) == NextRecord(old(reader.rest), reader.broken, maxBytes)
  {
    var line: Bytes := [];
    var oversized := false;
    var lineLimit := maxBytes + 2;
    ghost var data, seen := reader.rest, [];
    while true
      invariant data == seen + reader.rest && NEWLINE !in seen
      invariant oversized <==> |seen| > lineLimit
      invariant !oversized ==> line == seen
      decreases |reader.rest|
    {
      var fragment, status := reader.ReadSlice();
      ghost var before := seen;
      seen := seen + fragment;
      if status == Failed {
        assert seen == data;
        NoNewline(data);
        return ReadError;
      }
      if !oversized {
        if |line| + |fragment| > lineLimit {
          oversized := true;
        } else {
          line := line + fragment;
        }
      }
      if status == BufferFull {
        continue;
      }
      PieceGathered(before, fragment, status == Complete);
      NextIs(data, seen, reader.rest, status == Complete, reader.broken, maxBytes);
      if oversized {
        return Got(Oversized);
      }
      if line == [] && status == AtEnd {
        return EndOfStream;
      }
      var record := Trim(line, maxBytes);
      return Got(record);
    }
  }

  /** Removes the newline, then one CR, and only then checks the size of the content. */
  method Trim(raw: Bytes, maxBytes: nat) returns (r: Record)
    ensures r == RecordOf(Chomped(raw), maxBytes)
  {
    var line := raw;
    if line != [] && line[|line| - 1] == NEWLINE {
      line := line[..|line| - 1];
    }
    if line != [] && line[|line| - 1] == RETURN {
      line := line[..|line| - 1];
    }
    if |line| > maxBytes {
      return Oversized;
    }
    return Line(line);
  }

  function Chomped(raw: Bytes): Bytes {
    if raw != [] && raw[|raw| - 1] == NEWLINE then raw[..|raw| - 1] else raw
  }

  lemma PieceGathered(before: Bytes, fragment: Bytes, complete: bool)
    requires NEWLINE !in before
    requires complete ==> fragment != [] && NEWLINE !in fragment[..|fragment| - 1] && fragment[|fragment| - 1] == NEWLINE
    requires !complete ==> NEWLINE !in fragment
    ensures var seen := before + fragment;
            && (complete ==> seen != [] && NEWLINE !in seen[..|seen| - 1] && seen[|seen| - 1] == NEWLINE)
            && (!complete ==> NEWLINE !in seen)
  {
    if complete {
      assert (before + fragment)[..|before + fragment| - 1] == before + fragment[..|fragment| - 1];
    }
  }

  lemma NoNewline(data: Bytes)
    requires NEWLINE !in data
    ensures Find(NEWLINE, data) == |data|
  {
    assert data[..|data|] == data;
    FindIs(NEWLINE, data, |data|);
  }

  /** The next record, given the bytes gathered up to its newline or up to the end. */
  lemma NextIs(data: Bytes, seen: Bytes, rest: Bytes, complete: bool, broken: bool, limit: nat)
    requires data == seen + rest
    requires complete ==> seen != [] && NEWLINE !in seen[..|seen| - 1] && seen[|seen| - 1] == NEWLINE
    requires !complete ==> NEWLINE !in seen && rest == [] && !broken
    ensures seen != [] ==> NextRecord(data, broken, limit) == (Got(RecordOf(Chomped(seen), limit)), rest)
    ensures seen == [] ==> NextRecord(data, broken, limit) == (EndOfStream, rest)
    ensures |seen| > limit + 2 ==> RecordOf(Chomped(seen), limit) == Oversized
  {
    if complete {
      PieceEnds(data, seen, rest);
      assert data[..|seen| - 1] == seen[..|seen| - 1];
    } else {
      assert data == seen;
      NoNewline(data);
    }
  }

  /** Reading record by record yields the newline split of the stream, however it is fragmented. */
  method ReadAllRecords(data: Bytes, broken: bool, room: nat -> nat, limit: nat) returns (records: seq<Record>, ok: bool)
    ensures records == Records(data, broken, limit) && ok == !broken
  {
    var reader := new Reader(data, broken, room);
    records := [];
    ghost var all := Records(data, broken, limit);
    while true
      invariant reader.broken == broken && |records| <= |all| && records == all[..|records|]
      invariant all[|records|..] == Records(reader.rest, broken, limit)
      decreases |reader.rest|
    {
      NextIsFirst(reader.rest, broken, limit);
      var r := ReadFindingLine(reader, limit);
      if !r.Got? {
        return records, r.EndOfStream?;
      }
      assert all[|records|] == r.record && all[|records| + 1..] == all[|records|..][1..];
      records := records + [r.record];
    }
  }

  lemma NextIsFirst(data: Bytes, broken: bool, limit: nat)
    ensures var (r, rest) := NextRecord(data, broken, limit);
            && (r.Got? ==> |rest| < |data| && Records(data, broken, limit) == [r.record] + Records(rest, broken, limit))
            && (!r.Got? ==> Records(data, broken, limit) == [] && (r.EndOfStream? <==> !broken))
  {
    var i := Find(NEWLINE, data);
    if i == |data| && !broken && data != [] {
      assert Records([], broken, limit) == [];
    }
  }

  /** A line ends in LF or in CRLF, which makes no difference; one byte over the limit and it is oversized. */
  lemma LineIsRead(line: Bytes, rest: Bytes, broken: bool, limit: nat)
    requires 10 !in line && (line != [] ==> line[|line| - 1] != 13)
    ensures var read := Got(if |line| <= limit then Line(line) else Oversized);
            && NextRecord(line + [10] + rest, broken, limit) == (read, rest)
            && NextRecord(line + [13, 10] + rest, broken, limit) == (read, rest)
  {
    FindIs(10, line + [10] + rest, |line|);
    assert (line + [10] + rest)[..|line|] == line && (line + [10] + rest)[|line| + 1..] == rest;
    var data := line + [13, 10] + rest;
    assert data[..|line| + 1] == line + [13] && data[|line| + 2..] == rest;
    FindIs(10, data, |line| + 1);
    assert (line + [13])[..|line|] == line;
  }

  // ---- Ingesting under the caps ----

  const MAX_LINE := 0x80_0000

  /** What becomes of a line that parses or not: kept, skipped as a bad record, or fatal to the scan. */
  datatype Verdict = Keep | SkipRecord | Fatal

  datatype ScanError = StreamError | CountCap | EmitError | ByteCap

  datatype Progress = Progress(emitted: seq<Bytes>, ingested: nat, skipped: nat, error: Option<ScanError>)

  const START := Progress([], 0, 0, None)

  predicate IsBlank(record: Record) {
    record == Line([])
  }

  function Step(p: Progress, record: Record, line: nat, maxCount: nat, verdict: (nat, Bytes) -> Verdict): Progress {
    if IsBlank(record) then p
    else if p.ingested >= maxCount then p.(error := Some(CountCap))
    else if record.Oversized? then p.(skipped := p.skipped + 1)
    else
      match verdict(line, record.content)
      case Keep => p.(emitted := p.emitted + [record.content], ingested := p.ingested + 1)
      case SkipRecord => p.(skipped := p.skipped + 1)
      case Fatal => p.(error := Some(EmitError))
  }

  /** Where the scan stands after the first n records; an error stops it. */
  function After(records: seq<Record>, n: nat, maxCount: nat, verdict: (nat, Bytes) -> Verdict): Progress
    requires n <= |records|
  {
    if n == 0 then START
    else
      var p := After(records, n - 1, maxCount, verdict);
      if p.error.Some? then p else Step(p, records[n - 1], n, maxCount, verdict)
  }

  lemma {:induction false} ErrorIsFinal(records: seq<Record>, k: nat, n: nat, maxCount: nat, verdict: (nat, Bytes) -> Verdict)
    requires k <= n <= |records| && After(records, k, maxCount, verdict).error.Some?
    ensures After(records, n, maxCount, verdict) == After(records, k, maxCount, verdict)
  {
    if k < n {
      ErrorIsFinal(records, k, n - 1, maxCount, verdict);
    }
  }

  /** The part of a stream a byte cap lets through: one byte more than the cap, to tell the two apart. */
  function Limited(data: Bytes, maxBytes: nat): Bytes {
    if |data| > maxBytes then data[..maxBytes + 1] else data
  }

  function ScanOf(data: Bytes, broken: bool, maxBytes: nat, maxCount: nat, verdict: (nat, Bytes) -> Verdict): Progress {
    var cut := |data| > maxBytes;
    var records := Records(Limited(data, maxBytes), broken && !cut, MAX_LINE);
    var p := After(records, |records|, maxCount, verdict);
    if p.error.Some? then p
    else if cut then p.(error := Some(ByteCap))
    else if broken then p.(error := Some(StreamError))
    else p
  }

  method ScanFindingLines(data: Bytes, broken: bool, room: nat -> nat, maxBytes: nat, maxCount: nat,
                          verdict: (nat, Bytes) -> Verdict)
    returns (p: Progress)
    ensures p == ScanOf(data, broken, maxBytes, maxCount, verdict)
  {
    var cut := |data| > maxBytes;
    var reader := new Reader(Limited(data, maxBytes), broken && !cut, room);
    var lineNumber := 0;
    p := START;
    ghost var all := Records(reader.rest, reader.broken, MAX_LINE);
    while true
      invariant lineNumber <= |all| && reader.broken == (broken && !cut)
      invariant all[lineNumber..] == Records(reader.rest, reader.broken, MAX_LINE)
      invariant p == After(all, lineNumber, maxCount, verdict) && p.error.None?
      decreases |reader.rest|
    {
      NextIsFirst(reader.rest, reader.broken, MAX_LINE);
      var r := ReadFindingLine(reader, MAX_LINE);
      if r.EndOfStream? {
        break;
      }
      if r.ReadError? {
        return p.(error := Some(StreamError));
      }
      assert all[lineNumber] == r.record && all[lineNumber + 1..] == all[lineNumber..][1..];
      lineNumber := lineNumber + 1;
      p := Step(p, r.record, lineNumber, maxCount, verdict);
      if p.error.Some? {
        ErrorIsFinal(all, lineNumber, |all|, maxCount, verdict);
        return;
      }
    }
    if cut {
      p := p.(error := Some(ByteCap));
    }
  }

  // ---- What the counts mean ----

  function NonBlank(records: seq<Record>): nat {
    if records == [] then 0
    else NonBlank(records[..|records| - 1]) + if records[|records| - 1] == Line([]) then 0 else 1
  }

  predicate IsKept(records: seq<Record>, k: nat, verdict: (nat, Bytes) -> Verdict)
    requires k < |records|
  {
    records[k].Line? && records[k].content != [] && verdict(k + 1, records[k].content) == Keep
  }

  /** The lines among the first n that are kept, in stream order. */
  function Kept(records: seq<Record>, n: nat, verdict: (nat, Bytes) -> Verdict): seq<Bytes>
    requires n <= |records|
  {
    if n == 0 then []
    else Kept(records, n - 1, verdict) + if IsKept(records, n - 1, verdict) then [records[n - 1].content] else []
  }

  /** Record k does not stop the scan: it is blank, or below the count cap and not fatal. */
  predicate Passes(records: seq<Record>, k: nat, maxCount: nat, verdict: (nat, Bytes) -> Verdict)
    requires k < |records|
  {
    || records[k] == Line([])
    || (|Kept(records, k, verdict)| < maxCount && (records[k].Line? ==> verdict(k + 1, records[k].content) != Fatal))
  }

  predicate AllPass(records: seq<Record>, n: nat, maxCount: nat, verdict: (nat, Bytes) -> Verdict)
    requires n <= |records|
  {
    forall k :: 0 <= k < n ==> Passes(records, k, maxCount, verdict)
  }

  /** On any run, ingested is what was emitted, within the cap; without an error every record is accounted for. */
  lemma {:induction false} CountsAfter(records: seq<Record>, n: nat, maxCount: nat, verdict: (nat, Bytes) -> Verdict)
    requires n <= |records|
    ensures var p := After(records, n, maxCount, verdict);
            && p.ingested == |p.emitted| <= maxCount
            && (p.error.None? <==> AllPass(records, n, maxCount, verdict))
            && (p.error.None? ==> p.emitted == Kept(records, n, verdict))
            && (p.error.None? ==> p.ingested + p.skipped == NonBlank(records[..n]))
  {
    if n > 0 {
      CountsAfter(records, n - 1, maxCount, verdict);
      assert records[..n][..n - 1] == records[..n - 1];
      var before := After(records, n - 1, maxCount, verdict);
      if before.error.Some? {
        var k :| 0 <= k < n - 1 && !Passes(records, k, maxCount, verdict);
        assert !Passes(records, k, maxCount, verdict);
      } else {
        StepPassesIff(before, records, n - 1, maxCount, verdict);
      }
    }
  }

  lemma StepPassesIff(p: Progress, records: seq<Record>, k: nat, maxCount: nat, verdict: (nat, Bytes) -> Verdict)
    requires k < |records| && p.error.None? && p.ingested == |p.emitted| && p.emitted == Kept(records, k, verdict)
    ensures var next := Step(p, records[k], k + 1, maxCount, verdict);
            && (next.error.None? <==> Passes(records, k, maxCount, verdict))
            && (next.error.None? ==> next.emitted == Kept(records, k + 1, verdict))
            && (next.error.None? ==> next.ingested + next.skipped ==
                                     p.ingested + p.skipped + if IsBlank(records[k]) then 0 else 1)
  {
  }

  /**
   A scan succeeds exactly when the stream is whole, within the byte cap, and no record stops it. Then
   ingested plus skipped is the number of non-blank records, and the emitted lines are the kept ones in order.
   */
  lemma SucceedsIff(data: Bytes, broken: bool, maxBytes: nat, maxCount: nat, verdict: (nat, Bytes) -> Verdict)
    ensures var p := ScanOf(data, broken, maxBytes, maxCount, verdict);
            var records := Records(data, false, 8 * 1024 * 1024);
            && (p.error.None? <==> |data| <= maxBytes && !broken && AllPass(records, |records|, maxCount, verdict))
            && (p.error.None? ==> p.emitted == Kept(records, |records|, verdict))
            && (p.error.None? ==> p.ingested + p.skipped == NonBlank(records))
  {
    var records := Records(data, false, MAX_LINE);
    CountsAfter(records, |records|, maxCount, verdict);
    assert records[..|records|] == records;
    if |data| <= maxBytes && !broken {
      assert ScanOf(data, broken, maxBytes, maxCount, verdict) == After(records, |records|, maxCount, verdict);
    }
  }

  /** Which record stops the scan, and what the error then is: the first that does not pass. */
  lemma {:induction false} StopsAt(records: seq<Record>, n: nat, maxCount: nat, verdict: (nat, Bytes) -> Verdict)
    returns (k: nat)
    requires n <= |records| && !AllPass(records, n, maxCount, verdict)
    ensures k < n && StopsHere(records, k, maxCount, verdict, After(records, n, maxCount, verdict))
  {
    CountsAfter(records, n - 1, maxCount, verdict);
    if AllPass(records, n - 1, maxCount, verdict) {
      k := n - 1;
    } else {
      k := StopsAt(records, n - 1, maxCount, verdict);
      assert After(records, n, maxCount, verdict) == After(records, n - 1, maxCount, verdict);
    }
  }

  ghost predicate StopsHere(records: seq<Record>, k: nat, maxCount: nat, verdict: (nat, Bytes) -> Verdict, p: Progress)
    requires k < |records|
  {
    && AllPass(records, k, maxCount, verdict) && !Passes(records, k, maxCount, verdict)
    && p.emitted == Kept(records, k, verdict) && p.ingested == |p.emitted|
    && p.ingested + p.skipped == NonBlank(records[..k])
    && p.error == Some(if |Kept(records, k, verdict)| >= maxCount then CountCap else EmitError)
  }

  /**
   What a scan ends with. Over the byte cap only its first bytes are read, one more than the cap. A record that
   does not pass comes first; then the byte cap; then a broken stream.
   */
  lemma EndsWith(data: Bytes, broken: bool, maxBytes: nat, maxCount: nat, verdict: (nat, Bytes) -> Verdict)
    ensures var p := ScanOf(data, broken, maxBytes, maxCount, verdict);
            var over := |data| > maxBytes;
            var records := Records(if over then data[..maxBytes + 1] else data, broken && !over, 8 * 1024 * 1024);
            if AllPass(records, |records|, maxCount, verdict) then
              p.emitted == Kept(records, |records|, verdict) &&
              p.error == if over then Some(ByteCap) else if broken then Some(StreamError) else None
            else exists k :: 0 <= k < |records| && StopsHere(records, k, maxCount, verdict, p)
  {
    var over := |data| > maxBytes;
    var records := Records(Limited(data, maxBytes), broken && !over, MAX_LINE);
    CountsAfter(records, |records|, maxCount, verdict);
    if !AllPass(records, |records|, maxCount, verdict) {
      var k := StopsAt(records, |records|, maxCount, verdict);
      assert ScanOf(data, broken, maxBytes, maxCount, verdict) == After(records, |records|, maxCount, verdict);
    }
  }

  /** Success or not, no more than the count cap is ever ingested. */
  lemma CapHolds(data: Bytes, broken: bool, maxBytes: nat, maxCount: nat, verdict: (nat, Bytes) -> Verdict)
    ensures var p := ScanOf(data, broken, maxBytes, maxCount, verdict); p.ingested == |p.emitted| <= maxCount
  {
    var cut := |data| > maxBytes;
    var records := Records(Limited(data, maxBytes), broken && !cut, MAX_LINE);
    CountsAfter(records, |records|, maxCount, verdict);
  }

  function RecordsOf(lines: seq<Bytes>, limit: nat): seq<Record> {
    if lines == [] then [] else [RecordOf(lines[0], limit)] + RecordsOf(lines[1..], limit)
  }

  /** The records are the lines of the stream, and at a clean end of file its unfinished last line as well. */
  lemma {:induction false} RecordsAreLines(data: Bytes, broken: bool, limit: nat)
    ensures Records(data, broken, limit) ==
            RecordsOf(Lines(data), limit) + LastRecord(Pending(data), broken, limit)
    decreases |data|
  {
    var i := Find(NEWLINE, data);
    if i < |data| {
      var rest := data[i + 1..];
      RecordsAreLines(rest, broken, limit);
      OneMoreRecord(data[..i], Lines(rest), limit);
      Regroup([RecordOf(data[..i], limit)], RecordsOf(Lines(rest), limit), LastRecord(Pending(rest), broken, limit));
    }
  }

  lemma OneMoreRecord(line: Bytes, lines: seq<Bytes>, limit: nat)
    ensures RecordsOf([line] + lines, limit) == [RecordOf(line, limit)] + RecordsOf(lines, limit)
  {
    assert ([line] + lines)[1..] == lines;
  }

  function LastRecord(pending: Bytes, broken: bool, limit: nat): seq<Record> {
    if broken || pending == [] then [] else [RecordOf(pending, limit)]
  }
}
