/**
 From conditions to the whole clause: if every compiled condition prints and means what it should,
 so does the OR of parenthesised ANDs built from them.
 */
module FilterGroups {
  import opened Wrappers
  import opened SqlCondition
  import opened FindingQuery

  /** A compiler of conditions with what it is meant to produce, for one row and the final parameters. */
  datatype Setting = Setting(compile: Compiler, shape: (Condition, nat) -> Ands, holds: Condition -> bool,
                             row: Row, all: seq<Arg>, c: Collation)

  ghost predicate SoundAt(g: Setting, cond: Condition, args: seq<Arg>) {
    g.compile(cond, args).Ok? ==>
      var f, shape := g.compile(cond, args).value, g.shape(cond, |args| + 1);
      && f.tokens == PrintAnds(shape) && args <= f.args
      && (f.args <= g.all ==> (AndMeaning(shape, g.row, g.all, g.c) == True <==> g.holds(cond)))
  }

  ghost predicate Sound(g: Setting) {
    forall cond, args :: SoundAt(g, cond, args)
  }

  ghost predicate AllHold(g: Setting, conditions: seq<Condition>) {
    forall cond :: cond in conditions ==> g.holds(cond)
  }

  lemma {:induction false} CompileAllCounts(compile: Compiler, cs: seq<Condition>, n: nat, args: seq<Arg>)
    requires CompileAll(compile, cs, n, args).Ok?
    ensures |CompileAll(compile, cs, n, args).value.parts| == |cs|
    ensures CompileAll(compile, cs, n, args).value.n == n + |cs|
  {
    if cs != [] {
      CompileAllCounts(compile, cs[..|cs| - 1], n, args);
    }
  }

  lemma JoinAppend(parts: seq<seq<Token>>, part: seq<Token>, separator: Token)
    ensures Join(parts + [part], separator) ==
            if parts == [] then part else Join(parts, separator) + [separator] + part
  {
    assert (parts + [part])[..|parts|] == parts;
  }

  /** The conditions of a non-empty group, as one conjunction with the right text and meaning. */
  ghost predicate GroupIs(g: Setting, cs: seq<Condition>, p: Progress, ands: Ands) {
    && Join(p.parts, And) == PrintAnds(ands)
    && (p.args <= g.all ==> (AndMeaning(ands, g.row, g.all, g.c) == True <==> AllHold(g, cs)))
  }

  lemma {:induction false} GroupCompiles(g: Setting, cs: seq<Condition>, n: nat, args: seq<Arg>)
    returns (ands: Option<Ands>)
    requires Sound(g) && CompileAll(g.compile, cs, n, args).Ok?
    ensures args <= CompileAll(g.compile, cs, n, args).value.args
    ensures ands.None? <==> cs == []
    ensures ands.Some? ==> GroupIs(g, cs, CompileAll(g.compile, cs, n, args).value, ands.value)
  {
    if cs == [] {
      ands := None;
    } else {
      var init, last := cs[..|cs| - 1], cs[|cs| - 1];
      var p := CompileAll(g.compile, init, n, args).value;
      var before := GroupCompiles(g, init, n, args);
      CompileAllCounts(g.compile, init, n, args);
      ands := AddCondition(g, init, last, p, before);
      assert cs == init + [last];
    }
  }

  lemma AddCondition(g: Setting, init: seq<Condition>, last: Condition, p: Progress, before: Option<Ands>)
    returns (ands: Option<Ands>)
    requires Sound(g) && g.compile(last, p.args).Ok? && |p.parts| == |init|
    requires (before.None? <==> init == []) && (before.Some? ==> GroupIs(g, init, p, before.value))
    ensures var f := g.compile(last, p.args).value;
            && ands.Some? && p.args <= f.args
            && GroupIs(g, init + [last], Progress(p.parts + [f.tokens], p.n + 1, f.args), ands.value)
  {
    assert SoundAt(g, last, p.args);
    var f, shape := g.compile(last, p.args).value, g.shape(last, |p.args| + 1);
    JoinAppend(p.parts, f.tokens, And);
    assert forall x :: x in init + [last] <==> x in init || x == last;
    if before.None? {
      ands := Some(shape);
    } else {
      ands := Some(JoinedAnds(before.value, shape));
      JoinedMeaning(before.value, shape, g.row, g.all, g.c);
    }
  }

  /** What compiling the first groups has produced: nothing yet, or a printed OR with the right meaning. */
  ghost predicate Produced(g: Setting, groups: seq<seq<Condition>>, p: Progress, ors: Option<Ors>) {
    && (ors.None? <==> p.parts == []) && (ors.None? <==> forall cs :: cs in groups ==> cs == [])
    && (ors.Some? ==>
          && Join(p.parts, Or) == PrintOrs(ors.value)
          && (p.args <= g.all ==>
                (OrMeaning(ors.value, g.row, g.all, g.c) == True <==>
                   exists cs :: cs in groups && cs != [] && AllHold(g, cs))))
  }

  lemma {:induction false} GroupsProduce(g: Setting, groups: seq<seq<Condition>>, args: seq<Arg>)
    returns (ors: Option<Ors>)
    requires Sound(g) && CompileGroups(g.compile, groups, args).Ok?
    ensures args <= CompileGroups(g.compile, groups, args).value.args
    ensures Produced(g, groups, CompileGroups(g.compile, groups, args).value, ors)
  {
    if groups == [] {
      ors := None;
    } else {
      var init, group := groups[..|groups| - 1], groups[|groups| - 1];
      var p := CompileGroups(g.compile, init, args).value;
      var before := GroupsProduce(g, init, args);
      var q := CompileAll(g.compile, group, p.n, p.args).value;
      CompileAllCounts(g.compile, group, p.n, p.args);
      var ands := GroupCompiles(g, group, p.n, p.args);
      assert groups == init + [group];
      if group == [] {
        ors := before;
        assert forall cs :: cs in groups <==> cs in init || cs == [];
      } else {
        ors := AddGroup(g, init, group, p, q, before, ands.value);
      }
    }
  }

  lemma AddGroup(g: Setting, init: seq<seq<Condition>>, group: seq<Condition>, p: Progress, q: Progress,
                 before: Option<Ors>, ands: Ands) returns (ors: Option<Ors>)
    requires group != [] && p.args <= q.args && Produced(g, init, p, before) && GroupIs(g, group, q, ands)
    ensures Produced(g, init + [group], Progress(p.parts + [[Open] + Join(q.parts, And) + [Close]], q.n, q.args), ors)
  {
    var part: Ors := Only(Last(Parens(Only(ands))));
    PartMeans(ands, g.row, g.all, g.c);
    JoinAppend(p.parts, [Open] + Join(q.parts, And) + [Close], Or);
    assert forall cs :: cs in init + [group] <==> cs in init || cs == group;
    assert group in init + [group];
    if before.None? {
      ors := Some(part);
    } else {
      ors := Some(JoinedOrs(before.value, part));
      JoinedOrsMeaning(before.value, part, g.row, g.all, g.c);
    }
  }

  lemma PartMeans(ands: Ands, row: Row, all: seq<Arg>, c: Collation)
    ensures OrMeaning(Only(Last(Parens(Only(ands)))), row, all, c) == AndMeaning(ands, row, all, c)
    ensures PrintOrs(Only(Last(Parens(Only(ands))))) == [Open] + PrintAnds(ands) + [Close]
  {
    var u := Parens(Only(ands));
    assert OrMeaning(Only(ands), row, all, c) == AndMeaning(ands, row, all, c);
    assert Meaning(u, row, all, c) == OrMeaning(Only(ands), row, all, c);
    assert AndMeaning(Last(u), row, all, c) == Meaning(u, row, all, c);
    assert PrintOrs(Only(ands)) == PrintAnds(ands);
    assert Print(u) == [Open] + PrintOrs(Only(ands)) + [Close];
    assert PrintAnds(Last(u)) == Print(u);
  }

  lemma PrintNonEmpty(ors: Ors)
    ensures PrintOrs(ors) != []
  {
    assert Print(ors.ands.u) != [];
    assert PrintAnds(ors.ands) != [];
  }

  /** The database selects a row when the clause is absent or evaluates to true. */
  ghost predicate Selected(f: Fragment, row: Row, c: Collation) {
    f.tokens == [] ||
    var read := ReadOr(f.tokens);
    read.Some? && read.value.1 == [] && Eval(read.value.0, row, f.args, c) == True
  }

  /** Some non-empty group holds in full, or there is no condition at all. */
  ghost predicate SomeGroupHolds(g: Setting, groups: seq<seq<Condition>>) {
    (forall cs :: cs in groups ==> cs == []) || exists cs :: cs in groups && cs != [] && AllHold(g, cs)
  }

  lemma ClauseSelects(g: Setting, groups: seq<seq<Condition>>, args: seq<Arg>)
    requires Sound(g) && WhereOf(g.compile, groups, args).Ok?
    requires g.all == WhereOf(g.compile, groups, args).value.args
    ensures var f := WhereOf(g.compile, groups, args).value;
            args <= f.args && (Selected(f, g.row, g.c) <==> SomeGroupHolds(g, groups))
  {
    var f := WhereOf(g.compile, groups, args).value;
    var ors := GroupsProduce(g, groups, args);
    if ors.Some? {
      PrintedMeaning(ors.value, g.row, f.args, g.c);
      PrintNonEmpty(ors.value);
    }
  }

  // ---- Which filters are accepted ----

  /** Whether a condition compiles does not depend on the parameters bound before it. */
  ghost predicate Uniform(compile: Compiler) {
    forall cond, args :: compile(cond, args).Ok? <==> compile(cond, []).Ok?
  }

  ghost function Total(groups: seq<seq<Condition>>): nat {
    if groups == [] then 0 else Total(groups[..|groups| - 1]) + |groups[|groups| - 1]|
  }

  lemma {:induction false} GroupAccepted(compile: Compiler, cs: seq<Condition>, n: nat, args: seq<Arg>)
    requires Uniform(compile) && n <= MAX_CONDITIONS
    ensures CompileAll(compile, cs, n, args).Ok? <==>
            n + |cs| <= MAX_CONDITIONS && forall cond :: cond in cs ==> compile(cond, []).Ok?
  {
    if cs != [] {
      var init, last := cs[..|cs| - 1], cs[|cs| - 1];
      GroupAccepted(compile, init, n, args);
      assert cs == init + [last];
      if CompileAll(compile, init, n, args).Ok? {
        CompileAllCounts(compile, init, n, args);
        var p := CompileAll(compile, init, n, args).value;
        assert compile(last, p.args).Ok? <==> compile(last, []).Ok?;
      }
    }
  }

  /** A filter is accepted exactly when it has at most 60 conditions and each compiles by itself. */
  lemma {:induction false} FilterAccepted(compile: Compiler, groups: seq<seq<Condition>>, args: seq<Arg>)
    requires Uniform(compile)
    ensures CompileGroups(compile, groups, args).Ok? <==>
            Total(groups) <= MAX_CONDITIONS &&
            forall cs, cond :: cs in groups && cond in cs ==> compile(cond, []).Ok?
    ensures CompileGroups(compile, groups, args).Ok? ==> CompileGroups(compile, groups, args).value.n == Total(groups)
  {
    if groups != [] {
      var init, group := groups[..|groups| - 1], groups[|groups| - 1];
      FilterAccepted(compile, init, args);
      assert groups == init + [group];
      assert forall cs :: cs in groups <==> cs in init || cs == group;
      if CompileGroups(compile, init, args).Ok? {
        var p := CompileGroups(compile, init, args).value;
        GroupAccepted(compile, group, p.n, p.args);
        if CompileAll(compile, group, p.n, p.args).Ok? {
          CompileAllCounts(compile, group, p.n, p.args);
        }
      }
    }
  }
}
