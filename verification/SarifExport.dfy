/**
 The SARIF exporter: results first, then one rule per template, spooled while the results are written.
 */
module SarifExport {
  import opened ByteStrings
  import opened Export

  /** The three fixed texts around results and rules. */
  datatype Frame = Frame(prefix: Bytes, tool: Bytes, suffix: Bytes) {
    predicate Valid() {
      prefix != []
    }

    function Tail(): nat {
      |tool| + |suffix|
    }
  }

  /** A row with its encodings; encoded JSON holds no newline. */
  datatype Row = Row(template: string, result: Bytes, rule: Bytes)

  predicate ValidRows(rows: seq<Row>) {
    forall i :: 0 <= i < |rows| ==> NEWLINE !in rows[i].rule
  }

  const COMMA: Bytes := [44]

  function Results(rows: seq<Row>): (r: seq<Bytes>)
    ensures |r| == |rows| && forall i :: 0 <= i < |rows| ==> r[i] == rows[i].result
  {
    seq(|rows|, i requires 0 <= i < |rows| => rows[i].result)
  }

  /** The template ids of the first n rows. */
  function Templates(rows: seq<Row>, n: nat): set<string>
    requires n <= |rows|
  {
    if n == 0 then {} else Templates(rows, n - 1) + {rows[n - 1].template}
  }

  /** Among the first n rows, the first row of each template, in order. */
  function FirstRows(rows: seq<Row>, n: nat): seq<Row>
    requires n <= |rows|
  {
    if n == 0 then []
    else FirstRows(rows, n - 1) + if rows[n - 1].template in Templates(rows, n - 1) then [] else [rows[n - 1]]
  }

  function Rules(rows: seq<Row>): (r: seq<Bytes>)
    ensures |r| == |rows| && forall i :: 0 <= i < |rows| ==> r[i] == rows[i].rule
  {
    seq(|rows|, i requires 0 <= i < |rows| => rows[i].rule)
  }

  /** The rules of a document with the first n rows. */
  function RulesOf(rows: seq<Row>, n: nat): seq<Bytes>
    requires n <= |rows|
  {
    Rules(FirstRows(rows, n))
  }

  /** Exactly one rule per distinct template id: the rules name all of them, and there are no more rules than ids. */
  lemma {:induction false} OneRulePerTemplate(rows: seq<Row>, n: nat)
    requires n <= |rows|
    ensures var first := FirstRows(rows, n); Templates(first, |first|) == Templates(rows, n) && |first| == |Templates(rows, n)|
  {
    if n > 0 {
      OneRulePerTemplate(rows, n - 1);
      var before, last := FirstRows(rows, n - 1), rows[n - 1];
      if last.template in Templates(rows, n - 1) {
        RowSeen(rows, n - 1);
      } else {
        TemplatesOfBoth(before, last);
      }
    }
  }

  lemma RowSeen(rows: seq<Row>, n: nat)
    requires n < |rows| && rows[n].template in Templates(rows, n)
    ensures FirstRows(rows, n + 1) == FirstRows(rows, n) && Templates(rows, n + 1) == Templates(rows, n)
  {
    assert FirstRows(rows, n) + [] == FirstRows(rows, n);
  }

  lemma TemplatesOfBoth(rows: seq<Row>, last: Row)
    ensures Templates(rows + [last], |rows| + 1) == Templates(rows, |rows|) + {last.template}
  {
    SamePrefix(rows, rows + [last], |rows|);
  }

  lemma {:induction false} SamePrefix(rows: seq<Row>, more: seq<Row>, n: nat)
    requires n <= |rows| && rows <= more
    ensures Templates(rows, n) == Templates(more, n)
  {
    if n > 0 {
      SamePrefix(rows, more, n - 1);
    }
  }

  /** And each rule is that of the first row with its template. */
  lemma {:induction false} RuleIsOfFirstRow(rows: seq<Row>, n: nat, i: nat)
    requires i < n <= |rows| && rows[i].template !in Templates(rows, i)
    ensures rows[i] in FirstRows(rows, n)
  {
    if i < n - 1 {
      RuleIsOfFirstRow(rows, n - 1, i);
    }
  }

  lemma {:induction false} RulesGrow(rows: seq<Row>, m: nat, n: nat)
    requires m <= n <= |rows|
    ensures FirstRows(rows, m) <= FirstRows(rows, n)
  {
    if m < n {
      RulesGrow(rows, m, n - 1);
    }
  }

  // ---- Documents ----

  function Document(f: Frame, results: Bytes, rules: Bytes): Bytes {
    f.prefix + results + f.tool + rules + f.suffix
  }

  function ResultsText(rows: seq<Row>, n: nat): Bytes
    requires n <= |rows|
  {
    Joined(Results(rows), COMMA, n)
  }

  function RulesText(rules: seq<Bytes>, m: nat): Bytes
    requires m <= |rules|
  {
    Joined(rules, COMMA, m)
  }

  /** The document with every row and every rule. */
  function Full(f: Frame, rows: seq<Row>): Bytes {
    var rules := RulesOf(rows, |rows|);
    Document(f, ResultsText(rows, |rows|), RulesText(rules, |rules|))
  }

  predicate ResultsFit(f: Frame, rows: seq<Row>, n: nat, budget: nat)
    requires n <= |rows|
  {
    TextFits(f, Results(rows), n, budget)
  }

  predicate TextFits(f: Frame, results: seq<Bytes>, n: nat, budget: nat)
    requires n <= |results|
  {
    |f.prefix| + |Joined(results, COMMA, n)| + f.Tail() <= budget
  }

  /** Room for n results and the first m of their rules. */
  predicate RulesFit(f: Frame, rows: seq<Row>, n: nat, m: nat, budget: nat)
    requires n <= |rows| && m <= |RulesOf(rows, n)|
  {
    |f.prefix| + |ResultsText(rows, n)| + f.Tail() + |RulesText(RulesOf(rows, n), m)| <= budget
  }

  // ---- Results and the rule spool ----

  method WriteResult(ew: ExportWriter, f: Frame, rows: seq<Row>, n: nat) returns (ok: bool)
    requires ew.Valid() && n < |rows| && ew.out == f.prefix + ResultsText(rows, n)
    modifies ew
    ensures ew.Valid() && (ok <==> ResultsFit(f, rows, n + 1, ew.budget))
    ensures ew.out == f.prefix + ResultsText(rows, if ok then n + 1 else n)
  {
    var chunk := if n > 0 then COMMA + rows[n].result else rows[n].result;
    ok := ew.CanWrite(|chunk| + f.Tail());
    if ok {
      var _ := ew.Write(chunk);
      Regroup(f.prefix, ResultsText(rows, n), chunk);
    }
  }

  /** What has been written once n results are. */
  function Standing(f: Frame, rows: seq<Row>, started: bool, n: nat): Bytes
    requires n <= |rows|
  {
    if started then f.prefix + ResultsText(rows, n) else []
  }

  /** The first result is preceded by the fixed text that opens the document. */
  method OpenAndWrite(ew: ExportWriter, f: Frame, rows: seq<Row>, started: bool, n: nat)
    returns (started': bool, ok: bool)
    requires ew.Valid() && n < |rows| && (started <==> n > 0) && ew.out == Standing(f, rows, started, n)
    modifies ew
    ensures ew.Valid() && (ok <==> ResultsFit(f, rows, n + 1, ew.budget))
    ensures started' <==> started || |f.prefix| <= ew.budget
    ensures ok ==> started'
    ensures ew.out == Standing(f, rows, started', if ok then n + 1 else n)
  {
    if !started {
      var begun := ew.Write(f.prefix);
      if !begun {
        return false, false;
      }
      assert ew.out == f.prefix + ResultsText(rows, 0);
    }
    ok := WriteResult(ew, f, rows, n);
    started' := true;
  }

  /** What the spool holds: one line per rule, and when it overflowed, the rule that was refused. */
  ghost predicate Spooled(spool: Bytes, rules: seq<Bytes>, kept: nat, overflowed: bool, budget: nat) {
    && kept <= |rules|
    && spool == Rejoined(rules[..kept])
    && (overflowed <==> kept < |rules|)
    && (overflowed ==> |Rejoined(rules[..kept + 1])| > budget)
  }

  /** Spools the rule of row n unless its template was seen or the spool is full. */
  method SpoolRule(rw: ExportWriter, rows: seq<Row>, n: nat, seen: set<string>, overflowed: bool, ghost kept: nat)
    returns (seen': set<string>, overflowed': bool, ghost kept': nat)
    requires rw.Valid() && n < |rows|
    requires !overflowed ==> seen == Templates(rows, n)
    requires Spooled(rw.out, RulesOf(rows, n), kept, overflowed, rw.budget)
    modifies rw
    ensures rw.Valid()
    ensures !overflowed' ==> seen' == Templates(rows, n + 1)
    ensures Spooled(rw.out, RulesOf(rows, n + 1), kept', overflowed', rw.budget)
  {
    seen', overflowed', kept' := seen, overflowed, kept;
    var row := rows[n];
    if overflowed {
      StillSpooled(rw.out, rows, n, kept, rw.budget);
      return;
    }
    if row.template in seen {
      RowSeen(rows, n);
      return;
    }
    seen' := seen + {row.template};
    OneMoreRule(rows, n);
    var ok := SpoolLine(rw, RulesOf(rows, n), row.rule);
    if ok {
      kept' := kept + 1;
    } else {
      overflowed' := true;
    }
  }

  method SpoolLine(rw: ExportWriter, ghost rules: seq<Bytes>, rule: Bytes) returns (ok: bool)
    requires rw.Valid() && Spooled(rw.out, rules, |rules|, false, rw.budget)
    modifies rw
    ensures rw.Valid() && Spooled(rw.out, rules + [rule], if ok then |rules| + 1 else |rules|, !ok, rw.budget)
  {
    SpooledMore(rules, rule);
    RejoinedMore(rules, rule);
    ok := rw.Write(rule + [NEWLINE]);
  }

  lemma OneMoreRule(rows: seq<Row>, n: nat)
    requires n < |rows| && rows[n].template !in Templates(rows, n)
    ensures RulesOf(rows, n + 1) == RulesOf(rows, n) + [rows[n].rule]
  {
  }

  lemma SpooledMore(rules: seq<Bytes>, last: Bytes)
    ensures rules[..|rules|] == rules && (rules + [last])[..|rules|] == rules
    ensures (rules + [last])[..|rules| + 1] == rules + [last]
  {
  }

  lemma {:induction false} RejoinedMore(lines: seq<Bytes>, last: Bytes)
    ensures Rejoined(lines + [last]) == Rejoined(lines) + (last + [NEWLINE])
  {
    if lines == [] {
      assert ([] + [last])[1..] == [];
    } else {
      RejoinedMore(lines[1..], last);
      assert (lines + [last])[1..] == lines[1..] + [last];
      Regroup(lines[0] + [NEWLINE], Rejoined(lines[1..]), last + [NEWLINE]);
    }
  }

  lemma StillSpooled(spool: Bytes, rows: seq<Row>, n: nat, kept: nat, budget: nat)
    requires n < |rows| && Spooled(spool, RulesOf(rows, n), kept, true, budget)
    ensures Spooled(spool, RulesOf(rows, n + 1), kept, true, budget)
  {
    var rules, more := RulesOf(rows, n), RulesOf(rows, n + 1);
    RulesGrow(rows, n, n + 1);
    RulesOfPrefix(FirstRows(rows, n), FirstRows(rows, n + 1));
    assert more[..kept] == rules[..kept] && more[..kept + 1] == rules[..kept + 1];
  }

  method WriteResults(ew: ExportWriter, rw: ExportWriter, f: Frame, rows: seq<Row>)
    returns (started: bool, exported: nat, limited: bool, overflowed: bool, ghost kept: nat)
    requires ew != rw && ew.Valid() && rw.Valid() && ew.out == rw.out == [] && ew.budget == rw.budget
    modifies ew, rw
    ensures ew.Valid() && rw.Valid()
    ensures started <==> rows != [] && |f.prefix| <= ew.budget
    ensures exported <= |rows| && (limited <==> exported < |rows|)
    ensures ew.out == Standing(f, rows, started, exported)
    ensures exported > 0 ==> ResultsFit(f, rows, exported, ew.budget)
    ensures limited ==> !ResultsFit(f, rows, exported + 1, ew.budget) && !ResultsFit(f, rows, |rows|, ew.budget)
    ensures Spooled(rw.out, RulesOf(rows, exported), kept, overflowed, rw.budget)
  {
    started, exported, limited, overflowed, kept := false, 0, false, false, 0;
    var seen := {};
    while exported < |rows|
      invariant ew.Valid() && rw.Valid() && exported <= |rows| && (started <==> exported > 0)
      invariant ew.out == Standing(f, rows, started, exported)
      invariant started ==> ResultsFit(f, rows, exported, ew.budget)
      invariant !overflowed ==> seen == Templates(rows, exported)
      invariant Spooled(rw.out, RulesOf(rows, exported), kept, overflowed, rw.budget)
    {
      var ok;
      started, ok := OpenAndWrite(ew, f, rows, started, exported);
      if !ok {
        NextDoesNotFit(f, rows, exported, ew.budget);
        return started, exported, true, overflowed, kept;
      }
      seen, overflowed, kept := SpoolRule(rw, rows, exported, seen, overflowed, kept);
      exported := exported + 1;
    }
  }

  lemma NextDoesNotFit(f: Frame, rows: seq<Row>, n: nat, budget: nat)
    requires n < |rows| && !ResultsFit(f, rows, n + 1, budget)
    ensures !ResultsFit(f, rows, |rows|, budget)
  {
    LongerDoesNotFit(f, Results(rows), n + 1, budget);
  }

  lemma LongerDoesNotFit(f: Frame, results: seq<Bytes>, n: nat, budget: nat)
    requires n <= |results| && !TextFits(f, results, n, budget)
    ensures !TextFits(f, results, |results|, budget)
  {
    JoinedGrows(results, COMMA, n, |results|);
  }

  // ---- Rules ----

  lemma LineThenRest(line: Bytes, rest: Bytes)
    requires NEWLINE !in line
    ensures var data := line + [NEWLINE] + rest; Find(NEWLINE, data) == |line| && data[..|line|] == line && data[|line| + 1..] == rest
  {
    var data := line + [NEWLINE] + rest;
    assert data[..|line|] == line;
    FindIs(NEWLINE, data, |line|);
  }

  /** Writes one spooled rule unless the suffix would no longer fit. */
  method WriteRule(ew: ExportWriter, f: Frame, ghost rules: seq<Bytes>, m: nat, line: Bytes, ghost before: Bytes)
    returns (ok: bool)
    requires ew.Valid() && m < |rules| && line == rules[m] && ew.out == before + RulesText(rules, m)
    modifies ew
    ensures ew.Valid() && (ok <==> |before| + |RulesText(rules, m + 1)| + |f.suffix| <= ew.budget)
    ensures ew.out == before + RulesText(rules, if ok then m + 1 else m)
  {
    var chunk := if m > 0 then COMMA + line else line;
    ok := ew.CanWrite(|chunk| + |f.suffix|);
    if ok {
      var _ := ew.Write(chunk);
      Regroup(before, RulesText(rules, m), chunk);
    }
  }

  /** Reads the spool back line by line and writes the rules while the suffix still fits. */
  method WriteRules(ew: ExportWriter, f: Frame, spool: Bytes, ghost rules: seq<Bytes>) returns (m: nat, truncated: bool)
    requires ew.Valid() && |ew.out| + |f.suffix| <= ew.budget
    requires spool == Rejoined(rules) && forall i :: 0 <= i < |rules| ==> NEWLINE !in rules[i]
    modifies ew
    ensures ew.Valid() && m <= |rules|
    ensures ew.out == old(ew.out) + RulesText(rules, m) && |ew.out| + |f.suffix| <= ew.budget
    ensures m < |rules| ==> |old(ew.out)| + |RulesText(rules, m + 1)| + |f.suffix| > ew.budget
    ensures truncated <==> m < |rules|
  {
    ghost var before := ew.out;
    var rest := spool;
    m, truncated := 0, false;
    assert rules[0..] == rules;
    while rest != []
      invariant ew.Valid() && m <= |rules| && rest == Rejoined(rules[m..])
      invariant ew.out == before + RulesText(rules, m) && |ew.out| + |f.suffix| <= ew.budget
      decreases |rest|
    {
      RulesLeft(rules, m);
      var i := Find(NEWLINE, rest);
      FirstRule(rules, m);
      var ok := WriteRule(ew, f, rules, m, rest[..i], before);
      if !ok {
        return m, true;
      }
      rest := rest[i + 1..];
      m := m + 1;
    }
    RulesLeft(rules, m);
  }

  lemma RulesLeft(rules: seq<Bytes>, m: nat)
    requires m <= |rules|
    ensures Rejoined(rules[m..]) == [] <==> m == |rules|
  {
  }

  lemma FirstRule(rules: seq<Bytes>, m: nat)
    requires m < |rules| && NEWLINE !in rules[m]
    ensures var rest := Rejoined(rules[m..]);
            var i := Find(NEWLINE, rest);
            i < |rest| && rest[..i] == rules[m] && rest[i + 1..] == Rejoined(rules[m + 1..])
  {
    assert rules[m..][1..] == rules[m + 1..];
    LineThenRest(rules[m], Rejoined(rules[m + 1..]));
  }

  // ---- The exporter ----

  predicate StreamFails(f: Frame, rows: seq<Row>, ending: Ending, budget: nat) {
    ending == Failed && (rows == [] || ResultsFit(f, rows, |rows|, budget))
  }

  lemma {:induction false} RulesAreClean(rows: seq<Row>, n: nat)
    requires n <= |rows| && ValidRows(rows)
    ensures forall i :: 0 <= i < |RulesOf(rows, n)| ==> NEWLINE !in RulesOf(rows, n)[i]
  {
    FirstRowsAreRows(rows, n);
    forall i | 0 <= i < |RulesOf(rows, n)|
      ensures NEWLINE !in RulesOf(rows, n)[i]
    {
      assert FirstRows(rows, n)[i] in rows;
    }
  }

  lemma {:induction false} FirstRowsAreRows(rows: seq<Row>, n: nat)
    requires n <= |rows|
    ensures forall row :: row in FirstRows(rows, n) ==> row in rows
  {
    if n > 0 {
      FirstRowsAreRows(rows, n - 1);
    }
  }

  lemma {:induction false} JoinedOfPrefix(parts: seq<Bytes>, more: seq<Bytes>, separator: Bytes, n: nat)
    requires n <= |parts| && parts <= more
    ensures Joined(parts, separator, n) == Joined(more, separator, n)
  {
    if n > 0 {
      assert parts[n - 1] == more[n - 1];
      JoinedOfPrefix(parts, more, separator, n - 1);
    }
  }

  /** One line each is one byte more than commas between. */
  lemma {:induction false} RejoinedLength(rules: seq<Bytes>, n: nat)
    requires n <= |rules|
    ensures |Rejoined(rules[..n])| == |RulesText(rules, n)| + if n == 0 then 0 else 1
  {
    if n > 0 {
      RejoinedLength(rules, n - 1);
      assert rules[..n] == rules[..n - 1] + [rules[n - 1]];
      RejoinedMore(rules[..n - 1], rules[n - 1]);
    }
  }

  lemma FullLength(f: Frame, rows: seq<Row>)
    ensures var rules := RulesOf(rows, |rows|);
            |Full(f, rows)| == |f.prefix| + |ResultsText(rows, |rows|)| + f.Tail() + |RulesText(rules, |rules|)|
  {
  }

  lemma RulesOfPrefix(rows: seq<Row>, more: seq<Row>)
    requires rows <= more
    ensures Rules(rows) <= Rules(more)
  {
    forall i | 0 <= i < |rows|
      ensures Rules(rows)[i] == Rules(more)[i]
    {
    }
  }

  /** The rule that overflowed the spool does not fit the document either, which holds more than the rules. */
  lemma OverflowedRuleDoesNotFit(f: Frame, rows: seq<Row>, n: nat, spool: Bytes, kept: nat, budget: nat)
    requires f.Valid() && n <= |rows| && Spooled(spool, RulesOf(rows, n), kept, true, budget)
    ensures !RulesFit(f, rows, n, kept + 1, budget)
  {
    RejoinedLength(RulesOf(rows, n), kept + 1);
  }

  /** A rule refused although every row was written makes the whole document too long. */
  lemma RefusedMeansTooLong(f: Frame, rows: seq<Row>, m: nat, budget: nat)
    requires m < |RulesOf(rows, |rows|)| && !RulesFit(f, rows, |rows|, m + 1, budget)
    ensures |Full(f, rows)| > budget
  {
    JoinedGrows(RulesOf(rows, |rows|), COMMA, m + 1, |RulesOf(rows, |rows|)|);
    FullLength(f, rows);
  }

  /** Tool text, the spooled rules that fit, and the suffix. */
  method Close(ew: ExportWriter, f: Frame, spool: Bytes, ghost rules: seq<Bytes>)
    returns (closed: bool, m: nat, truncated: bool)
    requires ew.Valid()
    requires spool == Rejoined(rules) && forall i :: 0 <= i < |rules| ==> NEWLINE !in rules[i]
    modifies ew
    ensures ew.Valid() && m <= |rules|
    ensures closed <==> |old(ew.out)| + f.Tail() <= ew.budget
    ensures closed ==> ew.out == old(ew.out) + f.tool + RulesText(rules, m) + f.suffix
    ensures closed && m < |rules| ==> |old(ew.out)| + f.Tail() + |RulesText(rules, m + 1)| > ew.budget
    ensures closed ==> (truncated <==> m < |rules|)
  {
    m, truncated := 0, false;
    closed := ew.Write(f.tool);
    if !closed {
      return;
    }
    if ew.CanWrite(|f.suffix|) {
      m, truncated := WriteRules(ew, f, spool, rules);
    }
    closed := ew.Write(f.suffix);
  }

  lemma LeftOutMeansTooLong(f: Frame, rows: seq<Row>, exported: nat, m: nat, budget: nat)
    requires exported <= |rows| && m <= |RulesOf(rows, exported)|
    requires exported < |rows| ==> !ResultsFit(f, rows, |rows|, budget)
    requires m < |RulesOf(rows, exported)| ==> !RulesFit(f, rows, exported, m + 1, budget)
    ensures exported < |rows| || m < |RulesOf(rows, exported)| ==> |Full(f, rows)| > budget
  {
    if exported < |rows| {
      FullLength(f, rows);
    } else if m < |RulesOf(rows, exported)| {
      RefusedMeansTooLong(f, rows, m, budget);
    }
  }

  /** Closes a document of `exported` results with the spooled rules. */
  method CloseWithRules(ew: ExportWriter, spool: Bytes, f: Frame, rows: seq<Row>, exported: nat, overflowed: bool,
                        ghost kept: nat)
    returns (closed: bool, m: nat, truncated: bool)
    requires ew.Valid() && f.Valid() && ValidRows(rows) && exported <= |rows|
    requires ew.out == f.prefix + ResultsText(rows, exported)
    requires exported < |rows| ==> !ResultsFit(f, rows, |rows|, ew.budget)
    requires Spooled(spool, RulesOf(rows, exported), kept, overflowed, ew.budget)
    modifies ew
    ensures ew.Valid() && (closed <==> |f.prefix| + |ResultsText(rows, exported)| + f.Tail() <= ew.budget)
    ensures m <= |RulesOf(rows, exported)|
    ensures closed ==> ew.out == Document(f, ResultsText(rows, exported), RulesText(RulesOf(rows, exported), m))
    ensures closed ==> (truncated <==> m < |RulesOf(rows, exported)|)
    ensures closed && truncated ==> !RulesFit(f, rows, exported, m + 1, ew.budget)
    ensures closed && (exported < |rows| || truncated) ==> |Full(f, rows)| > ew.budget
    ensures closed && exported == |rows| && !truncated ==> ew.out == Full(f, rows)
  {
    ghost var rules := RulesOf(rows, exported);
    RulesAreClean(rows, exported);
    closed, m, truncated := Close(ew, f, spool, rules[..kept]);
    truncated := truncated || overflowed;
    TextsOfKept(rules, kept, m);
    if closed {
      if m == kept && overflowed {
        OverflowedRuleDoesNotFit(f, rows, exported, spool, kept, ew.budget);
      }
      LeftOutMeansTooLong(f, rows, exported, m, ew.budget);
    }
  }

  /**
   The document is always closed when the budget fits the empty one. It is the whole document exactly when
   that fits the budget, and otherwise the export says so.
   */
  method StreamFindingsSARIF(budget: nat, f: Frame, rows: seq<Row>, ending: Ending)
    returns (out: Bytes, exported: nat, m: nat, r: Outcome)
    requires f.Valid() && ValidRows(rows)
    ensures |out| <= budget
    ensures r.StreamError? <==> StreamFails(f, rows, ending, budget)
    ensures r.LimitError? <==> !StreamFails(f, rows, ending, budget) && budget < |f.prefix| + f.Tail()
    ensures exported <= |rows| && m <= |RulesOf(rows, exported)|
    ensures r.Written? ==> out == Document(f, ResultsText(rows, exported), RulesText(RulesOf(rows, exported), m))
    ensures r.Written? ==>
              exists results, rules ::
                && out == f.prefix + results + f.tool + rules + f.suffix
                && Lists(results, Results(rows), [44], exported) && Lists(rules, RulesOf(rows, exported), [44], m)
    ensures r.Written? && exported < |rows| ==> !ResultsFit(f, rows, exported + 1, budget)
    ensures r.Written? && m < |RulesOf(rows, exported)| ==> !RulesFit(f, rows, exported, m + 1, budget)
    ensures r.Written? ==> (r.truncated <==> ending == RowCapped || |Full(f, rows)| > budget)
    ensures r.Written? && |Full(f, rows)| <= budget ==> out == Full(f, rows)
  {
    var ew := new ExportWriter(budget);
    var rw := new ExportWriter(budget);
    var started, limited, overflowed;
    ghost var kept;
    started, exported, limited, overflowed, kept := WriteResults(ew, rw, f, rows);
    m := 0;
    if !limited && ending == Failed {
      return ew.out, exported, m, StreamError;
    }
    if !started {
      var begun := ew.Write(f.prefix);
      if !begun {
        return ew.out, exported, m, LimitError;
      }
      assert ew.out == f.prefix + ResultsText(rows, exported);
    }
    var closed, rulesTruncated;
    closed, m, rulesTruncated := CloseWithRules(ew, rw.out, f, rows, exported, overflowed, kept);
    JoinedLists(Results(rows), COMMA, exported);
    JoinedLists(RulesOf(rows, exported), COMMA, m);
    return ew.out, exported, m, if closed then Written(ending == RowCapped || limited || rulesTruncated) else LimitError;
  }

  lemma TextsOfKept(rules: seq<Bytes>, kept: nat, m: nat)
    requires m <= kept <= |rules|
    ensures RulesText(rules[..kept], m) == RulesText(rules, m)
    ensures m < kept ==> RulesText(rules[..kept], m + 1) == RulesText(rules, m + 1)
  {
    JoinedOfPrefix(rules[..kept], rules, COMMA, m);
    if m < kept {
      JoinedOfPrefix(rules[..kept], rules, COMMA, m + 1);
    }
  }
}
