/**
 The per-severity counts of a scan digest, and the findings listed beside them.
 */
module SeverityTally {
  import opened LifecycleDigest

  datatype Severity = Critical | High | Medium | Low | Info | Unknown

  datatype Row = Row(status: Status, severity: Severity)

  datatype SeverityCounts = SeverityCounts(critical: nat, high: nat, medium: nat, low: nat, info: nat, unknown: nat) {
    function Total(): nat {
      critical + high + medium + low + info + unknown
    }
  }

  datatype Payload = Payload(added: SeverityCounts, changed: SeverityCounts, closed: SeverityCounts, findings: seq<Row>) {
    predicate HasDelta() {
      added.Total() + changed.Total() + closed.Total() > 0
    }
  }

  /** count(*) FILTER (WHERE status = ... AND severity = ...) */
  function Count(rows: seq<Row>, status: Status, severity: Severity): nat {
    if rows == [] then 0
    else (if rows[0] == Row(status, severity) then 1 else 0) + Count(rows[1..], status, severity)
  }

  function CountsOf(rows: seq<Row>, status: Status): SeverityCounts {
    SeverityCounts(Count(rows, status, Critical), Count(rows, status, High), Count(rows, status, Medium),
                   Count(rows, status, Low), Count(rows, status, Info), Count(rows, status, Unknown))
  }

  function Digest(rows: seq<Row>): Payload {
    Payload(CountsOf(rows, New), CountsOf(rows, Changed), CountsOf(rows, Fixed), rows)
  }

  lemma {:induction false} CountIsMultiplicity(rows: seq<Row>, status: Status, severity: Severity)
    ensures Count(rows, status, severity) == multiset(rows)[Row(status, severity)]
  {
    if rows != [] {
      CountIsMultiplicity(rows[1..], status, severity);
      assert rows == [rows[0]] + rows[1..];
    }
  }

  /** Which bucket counts what: new, changed and fixed apart, and each severity in its own. */
  lemma BucketsAre(rows: seq<Row>)
    ensures var m, p := multiset(rows), Digest(rows);
            && p.added == SeverityCounts(m[Row(New, Critical)], m[Row(New, High)], m[Row(New, Medium)],
                                         m[Row(New, Low)], m[Row(New, Info)], m[Row(New, Unknown)])
            && p.changed == SeverityCounts(m[Row(Changed, Critical)], m[Row(Changed, High)], m[Row(Changed, Medium)],
                                           m[Row(Changed, Low)], m[Row(Changed, Info)], m[Row(Changed, Unknown)])
            && p.closed == SeverityCounts(m[Row(Fixed, Critical)], m[Row(Fixed, High)], m[Row(Fixed, Medium)],
                                          m[Row(Fixed, Low)], m[Row(Fixed, Info)], m[Row(Fixed, Unknown)])
            && p.findings == rows
  {
    forall status, severity
      ensures Count(rows, status, severity) == multiset(rows)[Row(status, severity)]
    {
      CountIsMultiplicity(rows, status, severity);
    }
  }

  lemma TotalOfRest(rows: seq<Row>, status: Status)
    requires rows != []
    ensures CountsOf(rows, status).Total() ==
            Count([rows[0]], status, rows[0].severity) + CountsOf(rows[1..], status).Total()
  {
    var head := rows[0].severity;
    assert rows[0] == Row(rows[0].status, head);
    forall severity
      ensures Count(rows, status, severity) ==
              (if severity == head then Count([rows[0]], status, head) else 0) + Count(rows[1..], status, severity)
    {
      assert Count([rows[0]][1..], status, severity) == 0;
    }
  }

  lemma CountOfOne(row: Row, status: Status)
    ensures Count([row], status, row.severity) == if row.status == status then 1 else 0
  {
    assert [row][1..] == [];
    assert row == Row(row.status, row.severity);
  }

  /** The three totals add up to the number of findings listed: none is dropped and none counted twice. */
  lemma {:induction false} TotalsSumToFindings(rows: seq<Row>)
    ensures var p := Digest(rows); p.added.Total() + p.changed.Total() + p.closed.Total() == |p.findings|
  {
    if rows != [] {
      TotalsSumToFindings(rows[1..]);
      CountOfOne(rows[0], New);
      CountOfOne(rows[0], Changed);
      CountOfOne(rows[0], Fixed);
      TotalOfRest(rows, New);
      TotalOfRest(rows, Changed);
      TotalOfRest(rows, Fixed);
    }
  }

  /** So a digest is mailable exactly when it lists a finding. */
  lemma MailableIffListed(rows: seq<Row>)
    ensures Digest(rows).HasDelta() <==> Digest(rows).findings != []
  {
    TotalsSumToFindings(rows);
  }
}
