/**
 Reading a scan's request trace into the set of template and endpoint pairs that were really covered. When
 the trace does not say, the answer is that nothing is known.
 */
module CoverageTrace {
  import opened ByteStrings
  import opened Wrappers
  import Stream = FindingLines

  const MAX_LINE := 0x10_0000
  const MAX_PAIRS := 250_000

  datatype Pair = Pair(templateId: string, endpoint: Bytes)

  /** What one record is: blank, not JSON, without a status, failed, successful but unknown, or evidence. */
  datatype Record = Blank | Malformed | NoStatus | Unsuccessful | Unmapped | Success(pair: Pair)

  datatype Tally = Tally(nonEmpty: nat, decoded: nat, status: nat, malformed: nat, unmapped: nat,
                         seen: set<Pair>, overflow: bool)

  const EMPTY := Tally(0, 0, 0, 0, 0, {}, false)

  /** Too long a record counts as malformed whatever it holds. */
  function RecordOf(raw: Bytes, decode: Bytes -> Record): Record {
    if |raw| > MAX_LINE then Malformed else decode(raw)
  }

  function AddPair(t: Tally, pair: Pair): Tally {
    if pair in t.seen || t.overflow then t
    else if |t.seen + {pair}| > MAX_PAIRS then t.(seen := {}, overflow := true)
    else t.(seen := t.seen + {pair})
  }

  function Process(t: Tally, r: Record): Tally {
    match r
    case Blank => t
    case Malformed => t.(nonEmpty := t.nonEmpty + 1, malformed := t.malformed + 1)
    case NoStatus => t.(nonEmpty := t.nonEmpty + 1, decoded := t.decoded + 1)
    case Unsuccessful => t.(nonEmpty := t.nonEmpty + 1, decoded := t.decoded + 1, status := t.status + 1)
    case Unmapped =>
      t.(nonEmpty := t.nonEmpty + 1, decoded := t.decoded + 1, status := t.status + 1, unmapped := t.unmapped + 1)
    case Success(pair) =>
      AddPair(t.(nonEmpty := t.nonEmpty + 1, decoded := t.decoded + 1, status := t.status + 1), pair)
  }

  /** The tally of lines, each with the newline that ends it. */
  function TallyOf(lines: seq<Bytes>, decode: Bytes -> Record): Tally {
    if lines == [] then EMPTY
    else Process(TallyOf(lines[..|lines| - 1], decode), RecordOf(lines[|lines| - 1] + [NEWLINE], decode))
  }

  /** The whole trace: its lines, and what follows the last newline if anything does. */
  function TraceTally(data: Bytes, decode: Bytes -> Record): Tally {
    var t := TallyOf(Lines(data), decode);
    if Pending(data) == [] then t else Process(t, RecordOf(Pending(data), decode))
  }

  /** Nothing is known after a read error or an overflow, or when no record carries a status. */
  function ResultOf(t: Tally, broken: bool): Option<set<Pair>> {
    if broken || t.overflow then None
    else if t.nonEmpty > 0 && t.decoded == 0 then None
    else if t.decoded > 0 && t.status == 0 then None
    else Some(t.seen)
  }

  // ---- Reading ----

  lemma LineAdded(done: Bytes, line: Bytes, decode: Bytes -> Record)
    requires Pending(done) == [] && NEWLINE !in line
    ensures var more := done + (line + [NEWLINE]);
            && Pending(more) == []
            && TallyOf(Lines(more), decode) == Process(TallyOf(Lines(done), decode), RecordOf(line + [NEWLINE], decode))
  {
    Regroup(done, line, [NEWLINE]);
    assert [] + line == line;
    PendingGrows(done, line);
    NewlineEndsPending(done + line);
    assert (Lines(done) + [line])[..|Lines(done)|] == Lines(done);
  }

  lemma LineComplete(done: Bytes, current: Bytes, fragment: Bytes, decode: Bytes -> Record)
    requires Pending(done) == [] && NEWLINE !in current
    requires fragment != [] && NEWLINE !in fragment[..|fragment| - 1] && fragment[|fragment| - 1] == NEWLINE
    ensures var gathered := current + fragment;
            && Pending(done + gathered) == []
            && TallyOf(Lines(done + gathered), decode) == Process(TallyOf(Lines(done), decode), RecordOf(gathered, decode))
  {
    var body := current + fragment[..|fragment| - 1];
    assert current + fragment == body + [NEWLINE];
    LineAdded(done, body, decode);
  }

  lemma RestAdded(done: Bytes, rest: Bytes, decode: Bytes -> Record)
    requires Pending(done) == [] && NEWLINE !in rest
    ensures TraceTally(done + rest, decode) ==
            if rest == [] then TallyOf(Lines(done), decode)
            else Process(TallyOf(Lines(done), decode), RecordOf(rest, decode))
  {
    assert [] + rest == rest;
    PendingGrows(done, rest);
  }

  /** Adds a fragment to the line gathered so far unless that makes it too long. */
  method Gather(line: Bytes, oversized: bool, fragment: Bytes, ghost current: Bytes)
    returns (line': Bytes, oversized': bool)
    requires oversized <==> |current| > MAX_LINE
    requires !oversized ==> line == current
    ensures oversized' <==> |current + fragment| > MAX_LINE
    ensures !oversized' ==> line' == current + fragment
  {
    line', oversized' := line, oversized;
    if !oversized {
      if |line| + |fragment| <= MAX_LINE {
        line' := line + fragment;
      } else {
        oversized' := true;
      }
    }
  }

  lemma Moved(done: Bytes, current: Bytes, fragment: Bytes, rest: Bytes)
    ensures var gathered := current + fragment;
            && done + (current + (fragment + rest)) == done + (gathered + rest)
            && done + (gathered + rest) == done + gathered + ([] + rest)
            && (rest == [] ==> done + (gathered + rest) == done + gathered)
  {
    Regroup(current, fragment, rest);
    Regroup(done, current + fragment, rest);
    assert [] + rest == rest;
    assert current + fragment + [] == current + fragment;
  }

  /** However the reader fragments the trace, the result is that of its newline split. */
  method CoveredEndpointsFromTrace(reader: Stream.Reader, decode: Bytes -> Record) returns (r: Option<set<Pair>>)
    modifies reader
    ensures r == ResultOf(TraceTally(old(reader.rest), decode), reader.broken)
  {
    var line: Bytes, oversized, t := [], false, EMPTY;
    ghost var data, done, current := reader.rest, [], [];
    while true
      invariant data == done + (current + reader.rest) && Pending(done) == [] && NEWLINE !in current
      invariant oversized <==> |current| > MAX_LINE
      invariant !oversized ==> line == current
      invariant t == TallyOf(Lines(done), decode)
      decreases |reader.rest|
    {
      var fragment, status := reader.ReadSlice();
      if status == Stream.Failed {
        return None;
      }
      line, oversized := Gather(line, oversized, fragment, current);
      ghost var gathered := current + fragment;
      Moved(done, current, fragment, reader.rest);
      if status == Stream.BufferFull {
        current := gathered;
        continue;
      }
      if status == Stream.Complete {
        LineComplete(done, current, fragment, decode);
        t := Process(t, if oversized then Malformed else RecordOf(line, decode));
        done, current := done + gathered, [];
        line, oversized := [], false;
        continue;
      }
      RestAdded(done, gathered, decode);
      if oversized || line != [] {
        t := Process(t, if oversized then Malformed else RecordOf(line, decode));
      }
      return ResultOf(t, false);
    }
  }

  // ---- What the result means ----

  /** The pairs some record is explicit evidence for. */
  function Evidence(records: seq<Record>): set<Pair> {
    if records == [] then {}
    else Evidence(records[..|records| - 1]) + PairsOf(records[|records| - 1])
  }

  function PairsOf(r: Record): set<Pair> {
    if r.Success? then {r.pair} else {}
  }

  predicate HasStatus(r: Record) {
    r.Unsuccessful? || r.Unmapped? || r.Success?
  }

  function Processed(records: seq<Record>): Tally {
    if records == [] then EMPTY else Process(Processed(records[..|records| - 1]), records[|records| - 1])
  }

  /** The records of a trace, in order. */
  function TraceRecords(data: Bytes, decode: Bytes -> Record): seq<Record> {
    LineRecords(Lines(data), decode) + if Pending(data) == [] then [] else [RecordOf(Pending(data), decode)]
  }

  function LineRecords(lines: seq<Bytes>, decode: Bytes -> Record): seq<Record> {
    if lines == [] then []
    else LineRecords(lines[..|lines| - 1], decode) + [RecordOf(lines[|lines| - 1] + [NEWLINE], decode)]
  }

  lemma {:induction false} TallyIsProcessed(lines: seq<Bytes>, decode: Bytes -> Record)
    ensures TallyOf(lines, decode) == Processed(LineRecords(lines, decode))
  {
    if lines != [] {
      var init := LineRecords(lines[..|lines| - 1], decode);
      TallyIsProcessed(lines[..|lines| - 1], decode);
      assert LineRecords(lines, decode)[..|init|] == init;
    }
  }

  lemma TraceIsProcessed(data: Bytes, decode: Bytes -> Record)
    ensures TraceTally(data, decode) == Processed(TraceRecords(data, decode))
  {
    TallyIsProcessed(Lines(data), decode);
    var init := LineRecords(Lines(data), decode);
    if Pending(data) == [] {
      assert TraceRecords(data, decode) == init;
    } else {
      assert TraceRecords(data, decode)[..|init|] == init;
    }
  }

  /** Spelled out: one record per line with its newline, or malformed over 1 MiB, and one for what follows the last. */
  lemma RecordsAre(lines: seq<Bytes>, rest: Bytes, decode: Bytes -> Record)
    requires 10 !in rest && forall i :: 0 <= i < |lines| ==> 10 !in lines[i]
    ensures var records := TraceRecords(Rejoined(lines) + rest, decode);
            && |records| == |lines| + (if rest == [] then 0 else 1)
            && (forall i :: 0 <= i < |lines| ==>
                  records[i] == if |lines[i]| + 1 > 1024 * 1024 then Malformed else decode(lines[i] + [10]))
            && (rest != [] ==> records[|lines|] == if |rest| > 1024 * 1024 then Malformed else decode(rest))
  {
    JoinedSplits(lines, rest);
    LineRecordsAre(lines, decode);
  }

  lemma {:induction false} LineRecordsAre(lines: seq<Bytes>, decode: Bytes -> Record)
    ensures |LineRecords(lines, decode)| == |lines|
    ensures forall i :: 0 <= i < |lines| ==>
              LineRecords(lines, decode)[i] == if |lines[i]| + 1 > 1024 * 1024 then Malformed else decode(lines[i] + [10])
  {
    if lines != [] {
      var init := lines[..|lines| - 1];
      LineRecordsAre(init, decode);
      assert forall i :: 0 <= i < |init| ==> init[i] == lines[i];
    }
  }

  /** A pair is evidence when some record is a success for it. */
  lemma {:induction false} EvidenceIff(records: seq<Record>, pair: Pair)
    ensures pair in Evidence(records) <==> Success(pair) in records
  {
    if records != [] {
      var init, last := records[..|records| - 1], records[|records| - 1];
      EvidenceIff(init, pair);
      assert records == init + [last];
    }
  }

  predicate AllBlank(records: seq<Record>) {
    forall r :: r in records ==> r == Blank
  }

  predicate AnyStatus(records: seq<Record>) {
    exists r :: r in records && HasStatus(r)
  }

  /** The tally knows these pairs, unless they are too many. */
  predicate Knows(t: Tally, pairs: set<Pair>) {
    (t.overflow <==> |pairs| > MAX_PAIRS) && (!t.overflow ==> t.seen == pairs)
  }

  lemma StillKnows(t: Tally, pairs: set<Pair>, r: Record)
    requires Knows(t, pairs)
    ensures Knows(Process(t, r), pairs + PairsOf(r))
  {
    if r.Success? {
      if r.pair in pairs {
        assert pairs + {r.pair} == pairs;
      }
    } else {
      assert pairs + {} == pairs;
    }
  }

  lemma {:induction false} PairsAreTallied(records: seq<Record>)
    ensures Knows(Processed(records), Evidence(records))
  {
    if records != [] {
      var init := records[..|records| - 1];
      PairsAreTallied(init);
      StillKnows(Processed(init), Evidence(init), records[|records| - 1]);
    }
  }

  lemma {:induction false} KindsAreTallied(records: seq<Record>)
    ensures var t := Processed(records);
            && (t.nonEmpty == 0 <==> AllBlank(records))
            && (t.status > 0 <==> AnyStatus(records))
            && t.status <= t.decoded <= t.nonEmpty
  {
    if records != [] {
      var init, last := records[..|records| - 1], records[|records| - 1];
      KindsAreTallied(init);
      KindsWith(init, last);
      assert records == init + [last];
    }
  }

  /** The warnings count the malformed records, and the successful ones that could not be resolved. */
  lemma {:induction false} WarningsAreTallied(records: seq<Record>)
    ensures Processed(records).malformed == multiset(records)[Malformed]
    ensures Processed(records).unmapped == multiset(records)[Unmapped]
  {
    if records != [] {
      var init, last := records[..|records| - 1], records[|records| - 1];
      WarningsAreTallied(init);
      assert records == init + [last];
    }
  }

  lemma KindsWith(init: seq<Record>, last: Record)
    ensures AllBlank(init + [last]) <==> AllBlank(init) && last == Blank
    ensures AnyStatus(init + [last]) <==> AnyStatus(init) || HasStatus(last)
  {
    assert last in init + [last];
    assert forall r :: r in init + [last] <==> r in init || r == last;
  }

  /**
   Coverage is known exactly when the trace was read to its end, names at most 250000 distinct pairs and is
   blank or has a record with a status. Then it is the set of pairs with explicit evidence.
   */
  lemma KnownIff(data: Bytes, broken: bool, decode: Bytes -> Record)
    ensures var records := TraceRecords(data, decode);
            var r := ResultOf(TraceTally(data, decode), broken);
            && (r.Some? <==> && !broken && |Evidence(records)| <= 250_000
                             && (AllBlank(records) || AnyStatus(records)))
            && (r.Some? ==> r.value == Evidence(records))
  {
    TraceIsProcessed(data, decode);
    PairsAreTallied(TraceRecords(data, decode));
    KindsAreTallied(TraceRecords(data, decode));
  }
}
