/** Which values of a condition count, what they are compared as, and which conditions are acceptable at all. */
module FilterOperands {
  import opened Wrappers
  import opened FindingQuery

  /** A value is compared without the blanks around it, in lower case where the field is. */
  function Compared(lib: Lib, spec: FieldSpec, value: string): string {
    if spec.lowered then lib.lower(lib.trim(value)) else lib.trim(value)
  }

  /** The places of the values that are not blank, in order. */
  ghost predicate AreFilled(lib: Lib, values: seq<string>, places: seq<nat>) {
    && (forall k, l :: 0 <= k < l < |places| ==> places[k] < places[l])
    && (forall i :: i in places <==> 0 <= i < |values| && lib.trim(values[i]) != "")
  }

  /** These are the non-blank values, in order, as they are compared. */
  ghost predicate Counted(lib: Lib, spec: FieldSpec, values: seq<string>, vals: seq<string>) {
    exists places: seq<nat> :: AreFilled(lib, values, places) && ReadAt(lib, spec, values, places, vals)
  }

  ghost predicate ReadAt(lib: Lib, spec: FieldSpec, values: seq<string>, places: seq<nat>, vals: seq<string>) {
    |vals| == |places| && forall k :: 0 <= k < |places| ==> places[k] < |values| && vals[k] == Compared(lib, spec, values[places[k]])
  }

  /** These places hold these values, trimmed. */
  ghost predicate TrimmedAt(lib: Lib, values: seq<string>, places: seq<nat>, vals: seq<string>) {
    |vals| == |places| && forall k :: 0 <= k < |places| ==> places[k] < |values| && vals[k] == lib.trim(values[places[k]])
  }

  /** Where the trimmed values come from. */
  lemma {:induction false} TrimmedComeFrom(lib: Lib, values: seq<string>) returns (places: seq<nat>)
    ensures AreFilled(lib, values, places) && TrimmedAt(lib, values, places, Trimmed(lib, values))
  {
    if values == [] {
      places := [];
    } else {
      var init := values[..|values| - 1];
      places := TrimmedComeFrom(lib, init);
      places := WithLast(lib, init, values[|values| - 1], places, Trimmed(lib, init));
      assert init + [values[|values| - 1]] == values;
    }
  }

  lemma WithLast(lib: Lib, values: seq<string>, last: string, before: seq<nat>, vals: seq<string>) returns (places: seq<nat>)
    requires AreFilled(lib, values, before) && TrimmedAt(lib, values, before, vals)
    ensures AreFilled(lib, values + [last], places)
    ensures TrimmedAt(lib, values + [last], places, vals + if lib.trim(last) != "" then [lib.trim(last)] else [])
  {
    places := before + if lib.trim(last) != "" then [|values|] else [];
    assert forall k :: 0 <= k < |before| ==> before[k] in before;
    assert forall i :: i in places <==> i in before || (i == |values| && lib.trim(last) != "");
  }

  lemma {:induction false} FilledIsUnique(lib: Lib, values: seq<string>, p: seq<nat>, q: seq<nat>)
    requires AreFilled(lib, values, p) && AreFilled(lib, values, q)
    ensures p == q
  {
    SameIncreasing(p, q);
  }

  lemma {:induction false} SameIncreasing(p: seq<nat>, q: seq<nat>)
    requires forall k, l :: 0 <= k < l < |p| ==> p[k] < p[l]
    requires forall k, l :: 0 <= k < l < |q| ==> q[k] < q[l]
    requires forall i: int :: i in p <==> i in q
    ensures p == q
  {
    assert p == [] <==> q == [] by {
      assert p != [] ==> p[0] in p;
      assert q != [] ==> q[0] in q;
    }
    if p != [] {
      assert p[0] in q && q[0] in p;
      forall i: int
        ensures i in p[1..] <==> i in q[1..]
      {
        assert i in p[1..] <==> i in p && i != p[0];
        assert i in q[1..] <==> i in q && i != q[0];
      }
      SameIncreasing(p[1..], q[1..]);
    }
  }

  /** What the compiler binds is the non-blank values, in order, and nothing else. */
  lemma OperandsAreCounted(lib: Lib, spec: FieldSpec, values: seq<string>, vals: seq<string>)
    ensures Counted(lib, spec, values, vals) <==> vals == Operands(lib, spec, values)
  {
    var places := TrimmedComeFrom(lib, values);
    assert ReadAt(lib, spec, values, places, Operands(lib, spec, values));
    if Counted(lib, spec, values, vals) {
      var others: seq<nat> :| AreFilled(lib, values, others) && ReadAt(lib, spec, values, others, vals);
      FilledIsUnique(lib, values, places, others);
    }
  }

  /** So a value is among them exactly when some non-blank value is compared as it. */
  lemma OperandIff(lib: Lib, spec: FieldSpec, values: seq<string>, x: string)
    ensures x in Operands(lib, spec, values) <==>
            exists v :: v in values && lib.trim(v) != "" && Compared(lib, spec, v) == x
  {
    var vals := Operands(lib, spec, values);
    var places := TrimmedComeFrom(lib, values);
    if x in vals {
      var k :| 0 <= k < |vals| && vals[k] == x;
      assert places[k] in places && values[places[k]] in values;
    }
    if v :| v in values && lib.trim(v) != "" && Compared(lib, spec, v) == x {
      var i :| 0 <= i < |values| && values[i] == v;
      assert i in places;
      var k :| 0 <= k < |places| && places[k] == i;
      assert vals[k] == x;
    }
  }
}
