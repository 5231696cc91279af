/** What the allowlist maps each field name to. */
module FilterFields {
  import opened Wrappers
  import opened FindingQuery

  /** A field reads the column of its own name, with these exceptions. */
  function ColumnOf(name: string): string {
    match name
    case "severity" => "coalesce(l.recast_severity, l.severity)"
    case "observed_severity" => "l.severity"
    case "state" => "effective state"
    case "target" => ""
    case "matcher" => "l.matcher_name"
    case "extracted_result" => "l.extracted_results"
    case "tag" => "l.tags"
    case "occurrence_count" => "occurrence count"
    case "auto_mitigation_eligible" => "(l.endpoint_key <> '')"
    case _ => "l." + name
  }

  predicate IsSeverity(name: string) {
    name in ["severity", "observed_severity", "recast_severity"]
  }

  const TEXTS := ["host", "matcher", "matched_at"]
  const LISTS := ["extracted_result", "cve", "tag"]
  const TIMES := ["first_seen_at", "last_seen_at", "accept_expires_at"]
  const NUMBERS := ["times_mitigated", "occurrence_count"]
  const WORDS := ["severity", "state", "disposition", "type", "observed_severity"]

  function KindOf(name: string): Option<Kind> {
    if name in WORDS then Some(Enum)
    else if name in TEXTS then Some(Text)
    else if name in LISTS then Some(TextArray)
    else if name in TIMES then Some(Time)
    else if name in NUMBERS then Some(Numeric)
    else if name == "name" then Some(TextTwo)
    else if name == "target" then Some(Target)
    else if name == "auto_mitigation_eligible" then Some(Bool)
    else if name == "recast_severity" then Some(NullableEnum)
    else None
  }

  ghost predicate IsEntry(e: (string, FieldSpec)) {
    KindOf(e.0) == Some(e.1.kind) && Reads(e.1, e.0)
  }

  predicate Reads(spec: FieldSpec, name: string) {
    && spec.expr == ColumnOf(name) && spec.exprB == (if name == "name" then "l.template_id" else "")
    && (spec.lowered <==> IsSeverity(name) || name == "type")
  }

  lemma Entries()
    ensures |FINDING_FIELDS| == 20 && forall i :: 0 <= i < 20 ==> IsEntry(FINDING_FIELDS[i])
  {
    EntriesFrom0();
    EntriesFrom3();
    EntriesFrom6();
    EntriesFrom9();
    EntriesFrom12();
    EntriesFrom13();
    EntriesFrom14();
    EntriesFrom16();
    EntriesFrom17();
    EntriesFrom18();
  }

  lemma EntriesFrom0()
    ensures forall i :: 0 <= i < 3 ==> IsEntry(FINDING_FIELDS[i])
  {
  }

  lemma EntriesFrom3()
    ensures forall i :: 3 <= i < 6 ==> IsEntry(FINDING_FIELDS[i])
  {
  }

  lemma EntriesFrom6()
    ensures forall i :: 6 <= i < 9 ==> IsEntry(FINDING_FIELDS[i])
  {
  }

  lemma EntriesFrom9()
    ensures forall i :: 9 <= i < 12 ==> IsEntry(FINDING_FIELDS[i])
  {
  }

  lemma EntriesFrom12()
    ensures forall i :: 12 <= i < 13 ==> IsEntry(FINDING_FIELDS[i])
  {
  }

  lemma EntriesFrom13()
    ensures forall i :: 13 <= i < 14 ==> IsEntry(FINDING_FIELDS[i])
  {
  }

  lemma EntriesFrom14()
    ensures forall i :: 14 <= i < 16 ==> IsEntry(FINDING_FIELDS[i])
  {
  }

  lemma EntriesFrom16()
    ensures forall i :: 16 <= i < 17 ==> IsEntry(FINDING_FIELDS[i])
  {
  }

  lemma EntriesFrom17()
    ensures forall i :: 17 <= i < 18 ==> IsEntry(FINDING_FIELDS[i])
  {
  }

  lemma EntriesFrom18()
    ensures forall i :: 18 <= i < 20 ==> IsEntry(FINDING_FIELDS[i])
  {
  }

  lemma {:induction false} LookupFinds(table: seq<(string, FieldSpec)>, name: string)
    ensures Lookup(table, name).None? <==> forall i :: 0 <= i < |table| ==> table[i].0 != name
    ensures Lookup(table, name).Some? ==> exists i :: 0 <= i < |table| && table[i] == (name, Lookup(table, name).value)
  {
    if table != [] && table[0].0 != name {
      LookupFinds(table[1..], name);
      assert forall i :: 1 <= i < |table| ==> table[i] == table[1..][i - 1];
    }
  }

  lemma Listed(name: string)
    requires KindOf(name).Some?
    ensures exists i :: 0 <= i < |FINDING_FIELDS| && FINDING_FIELDS[i].0 == name
  {
    var t := FINDING_FIELDS;
    assert t[1].0 == WORDS[0] && t[2].0 == WORDS[1] && t[3].0 == WORDS[2] && t[9].0 == WORDS[3] && t[15].0 == WORDS[4];
    assert t[5].0 == TEXTS[0] && t[6].0 == TEXTS[1] && t[8].0 == TEXTS[2];
    assert t[7].0 == LISTS[0] && t[10].0 == LISTS[1] && t[11].0 == LISTS[2];
    assert t[12].0 == TIMES[0] && t[13].0 == TIMES[1] && t[16].0 == TIMES[2];
    assert t[17].0 == NUMBERS[0] && t[18].0 == NUMBERS[1];
    assert t[0].0 == "name" && t[4].0 == "target" && t[19].0 == "auto_mitigation_eligible" && t[14].0 == "recast_severity";
  }

  /** The twenty filterable names, the kind of each, and the column it reads; any other name is unknown. */
  lemma FieldIs(name: string)
    ensures FieldOf(name).Some? <==> KindOf(name).Some?
    ensures FieldOf(name).Some? ==> KindOf(name) == Some(FieldOf(name).value.kind) && Reads(FieldOf(name).value, name)
  {
    Entries();
    LookupFinds(FINDING_FIELDS, name);
    if KindOf(name).Some? {
      Listed(name);
    }
  }
}
