/** What a findings filter means for a row, and the proof that the compiled WHERE clause selects just that. */
module FilterMeaning {
  import opened Wrappers
  import opened LikeEscape
  import opened SqlCondition
  import opened FindingQuery
  import opened FilterGroups
  import opened FilterOperands

  // ---- The meaning of one condition ----

  ghost predicate HasSubstring(c: Collation, s: string, vals: seq<string>) {
    exists i :: 0 <= i < |vals| && LikeEscape.Contains(Folded(c.fold, s), Folded(c.fold, vals[i]))
  }

  ghost predicate HasPrefix(c: Collation, s: string, vals: seq<string>) {
    exists i :: 0 <= i < |vals| && Folded(c.fold, vals[i]) <= Folded(c.fold, s)
  }

  ghost predicate EnumIn(c: Collation, spec: FieldSpec, row: Row, vals: seq<string>) {
    var v := row.text(spec.expr);
    v.Some? && (if spec.lowered then c.lower(v.value) else v.value) in vals
  }

  predicate TextEmpty(spec: FieldSpec, row: Row) {
    row.text(spec.expr).None? || row.text(spec.expr).value == ""
  }

  ghost predicate TextHolds(c: Collation, spec: FieldSpec, op: string, row: Row, vals: seq<string>) {
    var a, b := row.text(spec.expr), row.text(spec.exprB);
    var two := spec.kind == TextTwo;
    match op
    case "contains" => (a.Some? && HasSubstring(c, a.value, vals)) || (two && b.Some? && HasSubstring(c, b.value, vals))
    case "not_contains" =>
      (a.Some? && !HasSubstring(c, a.value, vals)) && (two ==> b.Some? && !HasSubstring(c, b.value, vals))
    case _ => (a.Some? && HasPrefix(c, a.value, vals)) || (two && b.Some? && HasPrefix(c, b.value, vals))
  }

  ghost predicate ArrayHolds(c: Collation, spec: FieldSpec, op: string, row: Row, vals: seq<string>) {
    var list := row.list(spec.expr);
    match op
    case "any_of" => exists e :: e in list && e in vals
    case "none_of" => forall e :: e in list ==> e !in vals
    case "contains" => exists e :: e in list && HasSubstring(c, e, vals)
    case _ => forall e :: e in list ==> !HasSubstring(c, e, vals)
  }

  /** The last instant that a "before" value admits, in nanoseconds: a date admits its whole day. */
  function LastInstant(lib: Lib, value: string): int
    requires lib.time(value).Some?
  {
    var (t, dateOnly) := lib.time(value).value;
    if dateOnly then t + 86_399_999_999_999 else t
  }

  ghost predicate TimeHolds(lib: Lib, col: string, op: string, row: Row, vals: seq<string>) {
    var x := row.time(col);
    x.Some? &&
    match op
    case "after" => |vals| == 1 && lib.time(vals[0]).Some? && lib.time(vals[0]).value.0 <= x.value
    case "before" => |vals| == 1 && lib.time(vals[0]).Some? && x.value <= LastInstant(lib, vals[0])
    case _ => |vals| == 2 && lib.time(vals[0]).Some? && lib.time(vals[1]).Some?
              && lib.time(vals[0]).value.0 <= x.value <= LastInstant(lib, vals[1])
  }

  ghost predicate NumberHolds(lib: Lib, col: string, op: string, row: Row, vals: seq<string>) {
    var x := row.number(col);
    |vals| == 1 && lib.integer(vals[0]).Some? &&
    var n := lib.integer(vals[0]).value;
    match op
    case "eq" => x == Some(n)
    case "neq" => x != Some(n)
    case "gt" => x.Some? && x.value > n
    case "gte" => x.Some? && x.value >= n
    case "lt" => x.Some? && x.value < n
    case _ => x.Some? && x.value <= n
  }

  ghost predicate Holds(lib: Lib, c: Collation, cond: Condition, row: Row) {
    FieldOf(cond.field).Some? &&
    var spec := FieldOf(cond.field).value;
    if cond.op == "is_empty" then IsEmpty(spec, row)
    else if cond.op == "is_not_empty" then !IsEmpty(spec, row)
    else exists vals :: Counted(lib, spec, cond.values, vals) && ValuesHold(lib, c, spec, cond.op, row, vals)
  }

  predicate IsEmpty(spec: FieldSpec, row: Row) {
    if spec.kind == TextArray then row.list(spec.expr) == [] else TextEmpty(spec, row)
  }

  ghost predicate ValuesHold(lib: Lib, c: Collation, spec: FieldSpec, op: string, row: Row, vals: seq<string>) {
    match spec.kind
    case Enum => EnumIn(c, spec, row, vals) <==> op == "any_of"
    case NullableEnum => EnumIn(c, spec, row, vals) <==> op == "any_of"
    case Text => TextHolds(c, spec, op, row, vals)
    case TextTwo => TextHolds(c, spec, op, row, vals)
    case TextArray => ArrayHolds(c, spec, op, row, vals)
    case Target => SeenIn(row, vals) <==> op == "any_of"
    case Time => TimeHolds(lib, spec.expr, op, row, vals)
    case Numeric => NumberHolds(lib, spec.expr, op, row, vals)
    case Bool => |vals| == 1 && (row.flag(spec.expr) == Some(lib.lower(vals[0]) == "true") <==> op == "is")
  }

  predicate SeenIn(row: Row, targets: seq<string>) {
    exists t :: t in row.targets && t.Some? && t.value in targets
  }

  /** A row satisfies the filter if it satisfies all of some non-empty group, or there is no condition. */
  ghost predicate Satisfies(lib: Lib, c: Collation, groups: seq<seq<Condition>>, row: Row) {
    (forall g :: g in groups ==> g == []) ||
    exists g :: g in groups && g != [] && forall cond :: cond in g ==> Holds(lib, c, cond, row)
  }

  // ---- The shape of compiled conditions ----

  ghost function Atomic(p: Pred): Ands {
    Last(Plain(p))
  }

  ghost function Grouped(ands: Ands): Unary {
    Parens(Only(ands))
  }

  ghost function LikeShape(spec: FieldSpec, ph: nat): Ands {
    if spec.kind == TextTwo
    then Last(Parens(Alternative(Atomic(ILikeAny(spec.expr, ph)), Only(Atomic(ILikeAny(spec.exprB, ph))))))
    else Atomic(ILikeAny(spec.expr, ph))
  }

  ghost function ShapeOf(lib: Lib, cond: Condition, ph: nat): Ands
    requires FieldOf(cond.field).Some?
  {
    var spec := FieldOf(cond.field).value;
    if cond.op == "is_empty" then EmptyShape(spec, true)
    else if cond.op == "is_not_empty" then EmptyShape(spec, false)
    else ValuesShape(lib, spec, cond.op, Operands(lib, spec, cond.values), ph)
  }

  ghost function EmptyShape(spec: FieldSpec, empty: bool): Ands {
    if spec.kind == TextArray then Atomic(ArrayLength(spec.expr, empty))
    else if empty
    then Last(Parens(Alternative(Atomic(IsNull(spec.expr, false)), Only(Atomic(EqEmpty(spec.expr))))))
    else Last(Grouped(Then(Plain(IsNotNull(spec.expr)), Atomic(NeEmpty(spec.expr)))))
  }

  ghost function ValuesShape(lib: Lib, spec: FieldSpec, op: string, vals: seq<string>, ph: nat): Ands {
    match spec.kind
    case Enum => EnumShape(spec, op, ph)
    case NullableEnum => EnumShape(spec, op, ph)
    case Text => TextShape(spec, op, ph)
    case TextTwo => TextShape(spec, op, ph)
    case TextArray => ArrayShape(spec.expr, op, ph)
    case Target => TargetShape(op, ph)
    case Time => TimeShape(lib, spec.expr, op, vals, ph)
    case Numeric => Atomic(CompareInt(spec.expr, NumericComparison(op), ph))
    case Bool => Atomic(CompareBool(spec.expr, if op == "is" then Eq else Distinct, ph))
  }

  ghost function TextShape(spec: FieldSpec, op: string, ph: nat): Ands {
    if op == "not_contains" then Last(Negated(Grouped(LikeShape(spec, ph)))) else LikeShape(spec, ph)
  }

  ghost function ArrayShape(col: string, op: string, ph: nat): Ands {
    match op
    case "any_of" => Atomic(Overlaps(col, ph))
    case "none_of" => Last(Negated(Grouped(Atomic(Overlaps(col, ph)))))
    case "contains" => Atomic(ElementILikeAny(col, ph))
    case _ => Last(Negated(Plain(ElementILikeAny(col, ph))))
  }

  ghost function EnumShape(spec: FieldSpec, op: string, ph: nat): Ands {
    var isIn := EqAny(spec.expr, spec.lowered, ph);
    if op == "any_of" then Atomic(isIn)
    else Last(Parens(Alternative(Atomic(IsNull(spec.expr, spec.lowered)), Only(Last(Negated(Grouped(Atomic(isIn))))))))
  }

  ghost function UpTo(lib: Lib, value: string): Comparison {
    if Cutoff(lib, value).Some? && Cutoff(lib, value).value.1 then Lt else Le
  }

  ghost function TimeShape(lib: Lib, col: string, op: string, vals: seq<string>, ph: nat): Ands {
    if op == "between" then
      Then(Plain(CompareTime(col, Ge, ph)),
           Atomic(CompareTime(col, if |vals| > 1 then UpTo(lib, vals[1]) else Le, ph + 1)))
    else if op == "after" then Atomic(CompareTime(col, Ge, ph))
    else Atomic(CompareTime(col, if |vals| > 0 then UpTo(lib, vals[0]) else Le, ph))
  }

  // ---- One condition ----

  lemma WrappedContains(c: Collation, vals: seq<string>, s: string)
    requires IsFolding(c.fold)
    ensures AnyILike(c, Wrap(vals, "%"), s) <==> HasSubstring(c, s, vals)
  {
    forall i | 0 <= i < |vals|
      ensures Wrap(vals, "%")[i] in Wrap(vals, "%")
      ensures ILike(c.fold, Wrap(vals, "%")[i], s) <==> LikeEscape.Contains(Folded(c.fold, s), Folded(c.fold, vals[i]))
    {
      WrapFolded(c.fold, vals[i]);
      ContainsPattern(Folded(c.fold, vals[i]), Folded(c.fold, s));
    }
  }

  lemma WrappedPrefix(c: Collation, vals: seq<string>, s: string)
    requires IsFolding(c.fold)
    ensures AnyILike(c, Wrap(vals, ""), s) <==> HasPrefix(c, s, vals)
  {
    forall i | 0 <= i < |vals|
      ensures Wrap(vals, "")[i] in Wrap(vals, "")
      ensures ILike(c.fold, Wrap(vals, "")[i], s) <==> Folded(c.fold, vals[i]) <= Folded(c.fold, s)
    {
      assert "" + EscapeLike(vals[i]) + "%" == EscapeLike(vals[i]) + "%";
      WrapFolded(c.fold, vals[i]);
      PrefixPattern(Folded(c.fold, vals[i]), Folded(c.fold, s));
    }
  }

  // One layer of printing and meaning at a time.

  lemma AtomicMeaning(p: Pred, row: Row, args: seq<Arg>, c: Collation)
    ensures AndMeaning(Atomic(p), row, args, c) == EvalPred(p, row, args, c)
  {
    assert Meaning(Plain(p), row, args, c) == EvalPred(p, row, args, c);
  }

  lemma AtomicPrints(p: Pred)
    ensures PrintAnds(Atomic(p)) == [Atom(p)]
  {
    assert Print(Plain(p)) == [Atom(p)];
  }

  lemma GroupedMeaning(ands: Ands, row: Row, args: seq<Arg>, c: Collation)
    ensures Meaning(Grouped(ands), row, args, c) == AndMeaning(ands, row, args, c)
  {
    assert OrMeaning(Only(ands), row, args, c) == AndMeaning(ands, row, args, c);
  }

  lemma GroupedPrints(ands: Ands)
    ensures Print(Grouped(ands)) == [Open] + PrintAnds(ands) + [Close]
  {
    assert PrintOrs(Only(ands)) == PrintAnds(ands);
  }

  lemma NegatedMeaning(u: Unary, row: Row, args: seq<Arg>, c: Collation)
    ensures AndMeaning(Last(Negated(u)), row, args, c) == Not3(Meaning(u, row, args, c))
  {
    assert Meaning(Negated(u), row, args, c) == Not3(Meaning(u, row, args, c));
  }

  lemma NegatedPrints(u: Unary)
    ensures PrintAnds(Last(Negated(u))) == [Not] + Print(u)
  {
    assert Print(Negated(u)) == [Not] + Print(u);
  }

  lemma EitherMeaning(a: Ands, b: Ands, row: Row, args: seq<Arg>, c: Collation)
    ensures AndMeaning(Last(Parens(Alternative(a, Only(b)))), row, args, c) ==
            Or3(AndMeaning(a, row, args, c), AndMeaning(b, row, args, c))
  {
    var u := Parens(Alternative(a, Only(b)));
    assert OrMeaning(Only(b), row, args, c) == AndMeaning(b, row, args, c);
    assert Meaning(u, row, args, c) == OrMeaning(u.ors, row, args, c);
  }

  lemma EitherPrints(a: Ands, b: Ands)
    ensures PrintAnds(Last(Parens(Alternative(a, Only(b))))) == [Open] + PrintAnds(a) + [Or] + PrintAnds(b) + [Close]
  {
    var u := Parens(Alternative(a, Only(b)));
    assert PrintOrs(Only(b)) == PrintAnds(b);
    assert Print(u) == [Open] + PrintOrs(u.ors) + [Close];
    assert [Open] + (PrintAnds(a) + [Or] + PrintAnds(b)) + [Close] == [Open] + PrintAnds(a) + [Or] + PrintAnds(b) + [Close];
  }

  lemma BothMeaning(p: Pred, q: Pred, row: Row, args: seq<Arg>, c: Collation)
    ensures AndMeaning(Then(Plain(p), Atomic(q)), row, args, c) ==
            And3(EvalPred(p, row, args, c), EvalPred(q, row, args, c))
  {
    AtomicMeaning(q, row, args, c);
    assert Meaning(Plain(p), row, args, c) == EvalPred(p, row, args, c);
  }

  lemma BothPrints(p: Pred, q: Pred)
    ensures PrintAnds(Then(Plain(p), Atomic(q))) == [Atom(p), And, Atom(q)]
  {
    AtomicPrints(q);
    assert Print(Plain(p)) == [Atom(p)];
  }

  lemma EnumMeans(c: Collation, spec: FieldSpec, op: string, vals: seq<string>, ph: nat, row: Row, all: seq<Arg>)
    requires 0 < ph <= |all| && all[ph - 1] == Texts(vals)
    ensures AndMeaning(EnumShape(spec, op, ph), row, all, c) == True <==> (EnumIn(c, spec, row, vals) <==> op == "any_of")
  {
    var isIn := EqAny(spec.expr, spec.lowered, ph);
    AtomicMeaning(isIn, row, all, c);
    if op != "any_of" {
      AtomicMeaning(IsNull(spec.expr, spec.lowered), row, all, c);
      GroupedMeaning(Atomic(isIn), row, all, c);
      NegatedMeaning(Grouped(Atomic(isIn)), row, all, c);
      EitherMeaning(Atomic(IsNull(spec.expr, spec.lowered)), Last(Negated(Grouped(Atomic(isIn)))), row, all, c);
    }
  }

  lemma LikeMeans(c: Collation, spec: FieldSpec, patterns: seq<string>, ph: nat, row: Row, all: seq<Arg>)
    requires 0 < ph <= |all| && all[ph - 1] == Texts(patterns)
    ensures var a, b := row.text(spec.expr), row.text(spec.exprB);
            var hitA, hitB := a.Some? && AnyILike(c, patterns, a.value), b.Some? && AnyILike(c, patterns, b.value);
            AndMeaning(LikeShape(spec, ph), row, all, c) ==
            if spec.kind == TextTwo then
              if hitA || hitB then True else if a.Some? && b.Some? then False else Unknown
            else if hitA then True else if a.Some? then False else Unknown
  {
    AtomicMeaning(ILikeAny(spec.expr, ph), row, all, c);
    AtomicMeaning(ILikeAny(spec.exprB, ph), row, all, c);
    EitherMeaning(Atomic(ILikeAny(spec.expr, ph)), Atomic(ILikeAny(spec.exprB, ph)), row, all, c);
  }

  lemma TextMeans(c: Collation, spec: FieldSpec, op: string, vals: seq<string>, ph: nat, row: Row, all: seq<Arg>)
    requires IsFolding(c.fold) && op in ["contains", "not_contains", "starts_with"]
    requires 0 < ph <= |all| && all[ph - 1] == Texts(Wrap(vals, if op == "starts_with" then "" else "%"))
    ensures AndMeaning(TextShape(spec, op, ph), row, all, c) == True <==> TextHolds(c, spec, op, row, vals)
  {
    LikeMeans(c, spec, all[ph - 1].texts, ph, row, all);
    GroupedMeaning(LikeShape(spec, ph), row, all, c);
    NegatedMeaning(Grouped(LikeShape(spec, ph)), row, all, c);
    forall s: string
      ensures AnyILike(c, all[ph - 1].texts, s) <==>
              if op == "starts_with" then HasPrefix(c, s, vals) else HasSubstring(c, s, vals)
    {
      WrappedContains(c, vals, s);
      WrappedPrefix(c, vals, s);
    }
  }

  lemma ArrayMeans(c: Collation, spec: FieldSpec, op: string, vals: seq<string>, ph: nat, row: Row, all: seq<Arg>)
    requires IsFolding(c.fold) && op in ["any_of", "none_of", "contains", "not_contains"] && 0 < ph <= |all|
    requires all[ph - 1] == Texts(if op in ["any_of", "none_of"] then vals else Wrap(vals, "%"))
    ensures AndMeaning(ArrayShape(spec.expr, op, ph), row, all, c) == True <==> ArrayHolds(c, spec, op, row, vals)
  {
    AtomicMeaning(Overlaps(spec.expr, ph), row, all, c);
    AtomicMeaning(ElementILikeAny(spec.expr, ph), row, all, c);
    GroupedMeaning(Atomic(Overlaps(spec.expr, ph)), row, all, c);
    NegatedMeaning(Grouped(Atomic(Overlaps(spec.expr, ph))), row, all, c);
    NegatedMeaning(Plain(ElementILikeAny(spec.expr, ph)), row, all, c);
    assert Meaning(Plain(ElementILikeAny(spec.expr, ph)), row, all, c) ==
           EvalPred(ElementILikeAny(spec.expr, ph), row, all, c);
    forall s: string {
      WrappedContains(c, vals, s);
    }
  }

  ghost function TargetShape(op: string, ph: nat): Ands {
    if op == "none_of" then Last(Negated(Grouped(Atomic(OccurrenceTargetAny(ph))))) else Atomic(OccurrenceTargetAny(ph))
  }

  lemma TargetMeans(c: Collation, op: string, vals: seq<string>, ph: nat, row: Row, all: seq<Arg>)
    requires op in ["any_of", "none_of"] && 0 < ph <= |all| && all[ph - 1] == Texts(vals)
    ensures AndMeaning(TargetShape(op, ph), row, all, c) == True <==> (SeenIn(row, vals) <==> op == "any_of")
  {
    AtomicMeaning(OccurrenceTargetAny(ph), row, all, c);
    GroupedMeaning(Atomic(OccurrenceTargetAny(ph)), row, all, c);
    NegatedMeaning(Grouped(Atomic(OccurrenceTargetAny(ph))), row, all, c);
    assert EvalPred(OccurrenceTargetAny(ph), row, all, c) == OfBool(SeenIn(row, vals));
  }

  lemma BoolMeans(lib: Lib, c: Collation, col: string, op: string, val: string, ph: nat, row: Row, all: seq<Arg>)
    requires op in ["is", "is_not"] && ParseBool(lib, val).Some?
    requires 0 < ph <= |all| && all[ph - 1] == Flag(ParseBool(lib, val).value)
    ensures AndMeaning(Atomic(CompareBool(col, if op == "is" then Eq else Distinct, ph)), row, all, c) == True <==>
            (row.flag(col) == Some(lib.lower(val) == "true") <==> op == "is")
  {
    AtomicMeaning(CompareBool(col, if op == "is" then Eq else Distinct, ph), row, all, c);
  }

  lemma TimeMeans(lib: Lib, c: Collation, col: string, op: string, vals: seq<string>, args: seq<Arg>,
                  row: Row, all: seq<Arg>)
    requires op in ["before", "after", "between"] && CompileTime(lib, col, op, vals, args).Ok?
    requires CompileTime(lib, col, op, vals, args).value.args <= all
    ensures AndMeaning(TimeShape(lib, col, op, vals, |args| + 1), row, all, c) == True <==>
            TimeHolds(lib, col, op, row, vals)
  {
    var bound, ph := CompileTime(lib, col, op, vals, args).value.args, |args| + 1;
    assert all[|args|] == bound[|args|];
    if op == "between" {
      assert all[|args| + 1] == bound[|args| + 1];
      BothMeaning(CompareTime(col, Ge, ph), CompareTime(col, UpTo(lib, vals[1]), ph + 1), row, all, c);
    } else if op == "after" {
      AtomicMeaning(CompareTime(col, Ge, ph), row, all, c);
    } else {
      AtomicMeaning(CompareTime(col, UpTo(lib, vals[0]), ph), row, all, c);
    }
  }

  lemma NumberMeans(lib: Lib, c: Collation, col: string, op: string, vals: seq<string>, ph: nat, row: Row, all: seq<Arg>)
    requires op in ["eq", "neq", "gt", "gte", "lt", "lte"] && |vals| == 1 && lib.integer(vals[0]).Some?
    requires 0 < ph <= |all| && all[ph - 1] == Number(lib.integer(vals[0]).value)
    ensures AndMeaning(Atomic(CompareInt(col, NumericComparison(op), ph)), row, all, c) == True <==>
            NumberHolds(lib, col, op, row, vals)
  {
    AtomicMeaning(CompareInt(col, NumericComparison(op), ph), row, all, c);
  }

  lemma ValuesMean(lib: Lib, c: Collation, spec: FieldSpec, op: string, vals: seq<string>, args: seq<Arg>,
                   row: Row, all: seq<Arg>)
    requires IsFolding(c.fold) && OpFor(spec.kind, op) && op != "is_empty" && op != "is_not_empty"
    requires CompileValues(lib, spec, op, vals, args).Ok? && CompileValues(lib, spec, op, vals, args).value.args <= all
    ensures AndMeaning(ValuesShape(lib, spec, op, vals, |args| + 1), row, all, c) == True <==>
            ValuesHold(lib, c, spec, op, row, vals)
  {
    var f, ph := CompileValues(lib, spec, op, vals, args).value, |args| + 1;
    assert |f.args| > |args| && f.args[|args|] == all[|args|];
    match spec.kind {
      case Enum => EnumMeans(c, spec, op, vals, ph, row, all);
      case NullableEnum => EnumMeans(c, spec, op, vals, ph, row, all);
      case Text => TextMeans(c, spec, op, vals, ph, row, all);
      case TextTwo => TextMeans(c, spec, op, vals, ph, row, all);
      case TextArray => ArrayMeans(c, spec, op, vals, ph, row, all);
      case Target => TargetMeans(c, op, vals, ph, row, all);
      case Time => TimeMeans(lib, c, spec.expr, op, vals, args, row, all);
      case Numeric => NumberMeans(lib, c, spec.expr, op, vals, ph, row, all);
      case Bool => BoolMeans(lib, c, spec.expr, op, vals[0], ph, row, all);
    }
  }

  lemma EnumPrints(spec: FieldSpec, op: string, vals: seq<string>, args: seq<Arg>)
    ensures var f := CompileEnum(spec, op, vals, args).value;
            f.tokens == PrintAnds(EnumShape(spec, op, |args| + 1)) && args <= f.args
  {
    var isIn := EqAny(spec.expr, spec.lowered, |args| + 1);
    AtomicPrints(isIn);
    AtomicPrints(IsNull(spec.expr, spec.lowered));
    GroupedPrints(Atomic(isIn));
    NegatedPrints(Grouped(Atomic(isIn)));
    EitherPrints(Atomic(IsNull(spec.expr, spec.lowered)), Last(Negated(Grouped(Atomic(isIn)))));
  }

  lemma TextPrints(spec: FieldSpec, op: string, vals: seq<string>, args: seq<Arg>)
    ensures var f := CompileText(spec, op, vals, args).value;
            f.tokens == PrintAnds(TextShape(spec, op, |args| + 1)) && args <= f.args
  {
    var ph := |args| + 1;
    AtomicPrints(ILikeAny(spec.expr, ph));
    AtomicPrints(ILikeAny(spec.exprB, ph));
    EitherPrints(Atomic(ILikeAny(spec.expr, ph)), Atomic(ILikeAny(spec.exprB, ph)));
    assert PrintAnds(LikeShape(spec, ph)) == AnyLikeTokens(spec, ph);
    GroupedPrints(LikeShape(spec, ph));
    NegatedPrints(Grouped(LikeShape(spec, ph)));
    assert [Not] + ([Open] + AnyLikeTokens(spec, ph) + [Close]) == [Not, Open] + AnyLikeTokens(spec, ph) + [Close];
  }

  lemma ArrayPrints(col: string, op: string, ph: nat)
    ensures PrintAnds(ArrayShape(col, op, ph)) ==
            match op
            case "any_of" => [Atom(Overlaps(col, ph))]
            case "none_of" => [Not, Open, Atom(Overlaps(col, ph)), Close]
            case "contains" => [Atom(ElementILikeAny(col, ph))]
            case _ => [Not, Atom(ElementILikeAny(col, ph))]
  {
    AtomicPrints(Overlaps(col, ph));
    AtomicPrints(ElementILikeAny(col, ph));
    GroupedPrints(Atomic(Overlaps(col, ph)));
    NegatedPrints(Grouped(Atomic(Overlaps(col, ph))));
    NegatedPrints(Plain(ElementILikeAny(col, ph)));
    assert Print(Plain(ElementILikeAny(col, ph))) == [Atom(ElementILikeAny(col, ph))];
  }

  lemma TimePrints(lib: Lib, col: string, op: string, vals: seq<string>, args: seq<Arg>)
    requires op in ["before", "after", "between"] && CompileTime(lib, col, op, vals, args).Ok?
    ensures var f := CompileTime(lib, col, op, vals, args).value;
            f.tokens == PrintAnds(TimeShape(lib, col, op, vals, |args| + 1)) && args <= f.args
  {
    var ph := |args| + 1;
    if op == "between" {
      BothPrints(CompareTime(col, Ge, ph), CompareTime(col, UpTo(lib, vals[1]), ph + 1));
    } else if op == "after" {
      AtomicPrints(CompareTime(col, Ge, ph));
    } else {
      AtomicPrints(CompareTime(col, UpTo(lib, vals[0]), ph));
    }
  }

  lemma ValuesPrint(lib: Lib, spec: FieldSpec, op: string, vals: seq<string>, args: seq<Arg>)
    requires OpFor(spec.kind, op) && op != "is_empty" && op != "is_not_empty"
    requires CompileValues(lib, spec, op, vals, args).Ok?
    ensures var f := CompileValues(lib, spec, op, vals, args).value;
            f.tokens == PrintAnds(ValuesShape(lib, spec, op, vals, |args| + 1)) && args <= f.args
  {
    var ph := |args| + 1;
    match spec.kind {
      case Enum => EnumPrints(spec, op, vals, args);
      case NullableEnum => EnumPrints(spec, op, vals, args);
      case Text => TextPrints(spec, op, vals, args);
      case TextTwo => TextPrints(spec, op, vals, args);
      case TextArray => ArrayPrints(spec.expr, op, ph);
      case Time => TimePrints(lib, spec.expr, op, vals, args);
      case Numeric => AtomicPrints(CompareInt(spec.expr, NumericComparison(op), ph));
      case Bool => AtomicPrints(CompareBool(spec.expr, if op == "is" then Eq else Distinct, ph));
      case Target =>
        AtomicPrints(OccurrenceTargetAny(ph));
        GroupedPrints(Atomic(OccurrenceTargetAny(ph)));
        NegatedPrints(Grouped(Atomic(OccurrenceTargetAny(ph))));
    }
  }

  lemma EmptyPrints(spec: FieldSpec, empty: bool)
    ensures PrintAnds(EmptyShape(spec, empty)) == EmptyTokens(spec, empty)
  {
    var col := spec.expr;
    AtomicPrints(ArrayLength(col, empty));
    AtomicPrints(IsNull(col, false));
    AtomicPrints(EqEmpty(col));
    EitherPrints(Atomic(IsNull(col, false)), Atomic(EqEmpty(col)));
    BothPrints(IsNotNull(col), NeEmpty(col));
    GroupedPrints(Then(Plain(IsNotNull(col)), Atomic(NeEmpty(col))));
  }

  lemma EmptyMeans(c: Collation, spec: FieldSpec, empty: bool, row: Row, all: seq<Arg>)
    ensures AndMeaning(EmptyShape(spec, empty), row, all, c) == True <==> (IsEmpty(spec, row) <==> empty)
  {
    var col := spec.expr;
    AtomicMeaning(ArrayLength(col, empty), row, all, c);
    AtomicMeaning(IsNull(col, false), row, all, c);
    AtomicMeaning(EqEmpty(col), row, all, c);
    EitherMeaning(Atomic(IsNull(col, false)), Atomic(EqEmpty(col)), row, all, c);
    BothMeaning(IsNotNull(col), NeEmpty(col), row, all, c);
    GroupedMeaning(Then(Plain(IsNotNull(col)), Atomic(NeEmpty(col))), row, all, c);
  }

  /** The tokens of a compiled condition are its printed shape, and earlier parameters stay bound. */
  lemma ConditionPrints(lib: Lib, cond: Condition, args: seq<Arg>)
    requires CompileCondition(lib, cond, args).Ok?
    ensures FieldOf(cond.field).Some?
    ensures var f := CompileCondition(lib, cond, args).value;
            f.tokens == PrintAnds(ShapeOf(lib, cond, |args| + 1)) && args <= f.args
  {
    var spec := FieldOf(cond.field).value;
    if cond.op == "is_empty" || cond.op == "is_not_empty" {
      EmptyPrints(spec, cond.op == "is_empty");
    } else {
      ValuesPrint(lib, spec, cond.op, Operands(lib, spec, cond.values), args);
    }
  }

  /** A condition on values is one on what the compiler binds for them. */
  lemma HoldsOfOperands(lib: Lib, c: Collation, cond: Condition, row: Row)
    requires FieldOf(cond.field).Some? && cond.op != "is_empty" && cond.op != "is_not_empty"
    ensures var spec := FieldOf(cond.field).value;
            Holds(lib, c, cond, row) <==> ValuesHold(lib, c, spec, cond.op, row, Operands(lib, spec, cond.values))
  {
    var spec := FieldOf(cond.field).value;
    forall vals
      ensures Counted(lib, spec, cond.values, vals) <==> vals == Operands(lib, spec, cond.values)
    {
      OperandsAreCounted(lib, spec, cond.values, vals);
    }
  }

  /** Under any later parameters, the shape is true exactly when the condition holds of the row. */
  lemma ConditionMeans(lib: Lib, c: Collation, cond: Condition, args: seq<Arg>, row: Row, all: seq<Arg>)
    requires IsFolding(c.fold) && CompileCondition(lib, cond, args).Ok?
    requires CompileCondition(lib, cond, args).value.args <= all
    ensures FieldOf(cond.field).Some?
    ensures AndMeaning(ShapeOf(lib, cond, |args| + 1), row, all, c) == True <==> Holds(lib, c, cond, row)
  {
    var spec := FieldOf(cond.field).value;
    if cond.op == "is_empty" || cond.op == "is_not_empty" {
      EmptyMeans(c, spec, cond.op == "is_empty", row, all);
    } else {
      ValuesMean(lib, c, spec, cond.op, Operands(lib, spec, cond.values), args, row, all);
      HoldsOfOperands(lib, c, cond, row);
    }
  }

  // ---- The whole filter ----

  ghost function SettingFor(lib: Lib, c: Collation, row: Row, all: seq<Arg>): Setting {
    Setting(CompilerFor(lib),
            (cond: Condition, ph: nat) => if FieldOf(cond.field).Some? then ShapeOf(lib, cond, ph) else Atomic(IsNull("", false)),
            (cond: Condition) => Holds(lib, c, cond, row), row, all, c)
  }

  lemma SettingIsSound(lib: Lib, c: Collation, row: Row, all: seq<Arg>)
    requires IsFolding(c.fold)
    ensures Sound(SettingFor(lib, c, row, all))
  {
    var g := SettingFor(lib, c, row, all);
    forall cond, args
      ensures SoundAt(g, cond, args)
    {
      if CompileCondition(lib, cond, args).Ok? {
        ConditionPrints(lib, cond, args);
        if CompileCondition(lib, cond, args).value.args <= all {
          ConditionMeans(lib, c, cond, args, row, all);
        }
      }
    }
  }

  /** The compiled WHERE clause selects exactly the rows that satisfy the filter. */
  lemma CompiledClauseSelects(lib: Lib, c: Collation, groups: seq<seq<Condition>>, args: seq<Arg>, row: Row)
    requires IsFolding(c.fold) && Where(lib, groups, args).Ok?
    ensures var f := Where(lib, groups, args).value;
            args <= f.args && (Selected(f, row, c) <==> Satisfies(lib, c, groups, row))
  {
    var g := SettingFor(lib, c, row, Where(lib, groups, args).value.args);
    SettingIsSound(lib, c, row, g.all);
    ClauseSelects(g, groups, args);
    assert forall cs :: AllHold(g, cs) <==> forall cond :: cond in cs ==> Holds(lib, c, cond, row);
  }

  lemma ValuesCompileAlike(lib: Lib, spec: FieldSpec, op: string, vals: seq<string>, args: seq<Arg>)
    ensures CompileValues(lib, spec, op, vals, args).Ok? <==> CompileValues(lib, spec, op, vals, []).Ok?
  {
  }

  lemma ConditionsCompileAlike(lib: Lib, cond: Condition, args: seq<Arg>)
    ensures CompileCondition(lib, cond, args).Ok? <==> CompileCondition(lib, cond, []).Ok?
  {
    if FieldOf(cond.field).Some? {
      var spec := FieldOf(cond.field).value;
      ValuesCompileAlike(lib, spec, cond.op, Operands(lib, spec, cond.values), args);
    }
  }

  /** Which operators a kind of field has. */
  predicate Fits(op: string, kind: Kind) {
    match op
    case "any_of" => kind in {Enum, NullableEnum, TextArray, Target}
    case "none_of" => kind in {Enum, NullableEnum, TextArray, Target}
    case "contains" => kind in {Text, TextTwo, TextArray}
    case "not_contains" => kind in {Text, TextTwo, TextArray}
    case "starts_with" => kind in {Text, TextTwo}
    case "is_empty" => kind in {Text, TextTwo, TextArray, NullableEnum}
    case "is_not_empty" => kind in {Text, TextTwo, TextArray, NullableEnum}
    case _ =>
      (op in {"before", "after", "between"} && kind == Time) || (op in {"is", "is_not"} && kind == Bool)
      || (op in {"eq", "neq", "gt", "gte", "lt", "lte"} && kind == Numeric)
  }

  /** The values that count, as the kind of field and the operator want them. */
  ghost predicate Readable(lib: Lib, kind: Kind, op: string, vals: seq<string>) {
    vals != [] &&
    match kind
    case Time =>
      if op == "between"
      then |vals| == 2 && lib.time(vals[0]).Some? && lib.time(vals[1]).Some?
           && lib.time(vals[0]).value.0 <= LastInstant(lib, vals[1])
      else |vals| == 1 && lib.time(vals[0]).Some?
    case Numeric => |vals| == 1 && lib.integer(vals[0]).Some?
    case Bool => |vals| == 1 && lib.lower(vals[0]) in {"true", "false"}
    case _ => true
  }

  /** A known field with an operator of its kind, at most 100 values of at most 256 bytes each, and readable ones. */
  ghost predicate Acceptable(lib: Lib, cond: Condition) {
    FieldOf(cond.field).Some? &&
    var spec := FieldOf(cond.field).value;
    && Fits(cond.op, spec.kind)
    && |cond.values| <= 100 && (forall v :: v in cond.values ==> |v| <= 256)
    && (cond.op in {"is_empty", "is_not_empty"} ||
        exists vals :: Counted(lib, spec, cond.values, vals) && Readable(lib, spec.kind, cond.op, vals))
  }

  lemma FitsIff(op: string, kind: Kind)
    ensures OpFor(kind, op) <==> Fits(op, kind)
  {
  }

  lemma ReadableIff(lib: Lib, spec: FieldSpec, op: string, vals: seq<string>)
    requires OpFor(spec.kind, op) && vals != []
    ensures CompileValues(lib, spec, op, vals, []).Ok? <==> Readable(lib, spec.kind, op, vals)
  {
  }

  lemma AcceptableIff(lib: Lib, cond: Condition)
    ensures CompileCondition(lib, cond, []).Ok? <==> Acceptable(lib, cond)
  {
    if FieldOf(cond.field).Some? {
      var spec := FieldOf(cond.field).value;
      var vals := Operands(lib, spec, cond.values);
      FitsIff(cond.op, spec.kind);
      if OpFor(spec.kind, cond.op) && vals != [] {
        ReadableIff(lib, spec, cond.op, vals);
      }
      forall vs
        ensures Counted(lib, spec, cond.values, vs) <==> vs == vals
      {
        OperandsAreCounted(lib, spec, cond.values, vs);
      }
    }
  }

  /** A filter compiles exactly when it has at most 60 conditions, each of which is acceptable. */
  lemma AcceptedIff(lib: Lib, groups: seq<seq<Condition>>, args: seq<Arg>)
    ensures Where(lib, groups, args).Ok? <==>
            Total(groups) <= 60 && forall cs, cond :: cs in groups && cond in cs ==> Acceptable(lib, cond)
  {
    var compile := CompilerFor(lib);
    forall cond, before
      ensures compile(cond, before).Ok? <==> compile(cond, []).Ok?
    {
      ConditionsCompileAlike(lib, cond, before);
    }
    FilterAccepted(compile, groups, args);
    forall cond
      ensures compile(cond, []).Ok? <==> Acceptable(lib, cond)
    {
      AcceptableIff(lib, cond);
    }
  }

  // ---- Complements ----

  ghost predicate SelectedBy(lib: Lib, c: Collation, cond: Condition, row: Row)
    requires Where(lib, [[cond]], []).Ok?
  {
    Selected(Where(lib, [[cond]], []).value, row, c)
  }

  lemma OneConditionSelects(lib: Lib, c: Collation, cond: Condition, row: Row)
    requires IsFolding(c.fold) && Where(lib, [[cond]], []).Ok?
    ensures SelectedBy(lib, c, cond, row) <==> Holds(lib, c, cond, row)
  {
    CompiledClauseSelects(lib, c, [[cond]], [], row);
    SatisfiesOne(lib, c, cond, row);
  }

  lemma SatisfiesOne(lib: Lib, c: Collation, cond: Condition, row: Row)
    ensures Satisfies(lib, c, [[cond]], row) <==> Holds(lib, c, cond, row)
  {
    assert [cond] in [[cond]] && cond in [cond];
  }

  lemma OneConditionCompiles(lib: Lib, cond: Condition)
    requires Where(lib, [[cond]], []).Ok?
    ensures CompilerFor(lib)(cond, []).Ok?
  {
    OneCompiles(CompilerFor(lib), cond);
  }

  lemma OneCompiles(compile: Compiler, cond: Condition)
    requires WhereOf(compile, [[cond]], []).Ok?
    ensures compile(cond, []).Ok?
  {
    assert [[cond]][..0] == [] && [cond][..0] == [];
    assert CompileGroups(compile, [], []) == Ok(Progress([], 0, []));
    assert CompileAll(compile, [], 0, []) == Ok(Progress([], 0, []));
  }

  lemma AnyOfKinds(kind: Kind)
    requires OpFor(kind, "any_of")
    ensures kind in [Enum, NullableEnum, TextArray, Target]
  {
  }

  lemma CompiledOperator(lib: Lib, cond: Condition)
    requires CompileCondition(lib, cond, []).Ok?
    ensures FieldOf(cond.field).Some? && OpFor(FieldOf(cond.field).value.kind, cond.op)
  {
  }

  lemma AnyOfNoneOfOpposite(lib: Lib, c: Collation, field: string, values: seq<string>, row: Row)
    requires FieldOf(field).Some? && FieldOf(field).value.kind in [Enum, NullableEnum, TextArray, Target]
    ensures Holds(lib, c, Condition(field, "any_of", values), row) <==>
            !Holds(lib, c, Condition(field, "none_of", values), row)
  {
    HoldsOfOperands(lib, c, Condition(field, "any_of", values), row);
    HoldsOfOperands(lib, c, Condition(field, "none_of", values), row);
  }

  /** any_of and none_of split the rows, NULL columns included, for every kind that has them. */
  lemma AnyOfNoneOfComplementary(lib: Lib, c: Collation, field: string, values: seq<string>, row: Row)
    requires IsFolding(c.fold)
    requires Where(lib, [[Condition(field, "any_of", values)]], []).Ok?
    requires Where(lib, [[Condition(field, "none_of", values)]], []).Ok?
    ensures SelectedBy(lib, c, Condition(field, "any_of", values), row) <==>
            !SelectedBy(lib, c, Condition(field, "none_of", values), row)
  {
    OneConditionSelects(lib, c, Condition(field, "any_of", values), row);
    OneConditionSelects(lib, c, Condition(field, "none_of", values), row);
    OneConditionCompiles(lib, Condition(field, "any_of", values));
    CompiledOperator(lib, Condition(field, "any_of", values));
    AnyOfKinds(FieldOf(field).value.kind);
    AnyOfNoneOfOpposite(lib, c, field, values, row);
  }

  // any_of goes by the values themselves.

  /** The column, an element of it or a target of an occurrence is just this. */
  predicate Equals(c: Collation, spec: FieldSpec, row: Row, x: string) {
    match spec.kind
    case TextArray => x in row.list(spec.expr)
    case Target => Some(x) in row.targets
    case _ =>
      var v := row.text(spec.expr);
      v.Some? && (if spec.lowered then c.lower(v.value) else v.value) == x
  }

  /** any_of selects a row exactly when it has some non-blank value of the condition. */
  lemma AnyOfSelects(lib: Lib, c: Collation, field: string, values: seq<string>, row: Row)
    requires IsFolding(c.fold)
    requires Where(lib, [[Condition(field, "any_of", values)]], []).Ok?
    ensures FieldOf(field).Some?
    ensures var spec := FieldOf(field).value;
            SelectedBy(lib, c, Condition(field, "any_of", values), row) <==>
            exists v :: v in values && lib.trim(v) != "" && Equals(c, spec, row, Compared(lib, spec, v))
  {
    var cond := Condition(field, "any_of", values);
    OneConditionSelects(lib, c, cond, row);
    OneConditionCompiles(lib, cond);
    CompiledOperator(lib, cond);
    AnyOfKinds(FieldOf(field).value.kind);
    HoldsOfOperands(lib, c, cond, row);
    AnyOfOperands(lib, c, FieldOf(field).value, values, row);
  }

  lemma AnyOfOperands(lib: Lib, c: Collation, spec: FieldSpec, values: seq<string>, row: Row)
    requires spec.kind in [Enum, NullableEnum, TextArray, Target]
    ensures ValuesHold(lib, c, spec, "any_of", row, Operands(lib, spec, values)) <==>
            exists v :: v in values && lib.trim(v) != "" && Equals(c, spec, row, Compared(lib, spec, v))
  {
    var vals := Operands(lib, spec, values);
    AnyOfEquals(lib, c, spec, vals, row);
    forall x
      ensures x in vals <==> exists v :: v in values && lib.trim(v) != "" && Compared(lib, spec, v) == x
    {
      OperandIff(lib, spec, values, x);
    }
  }

  lemma AnyOfEquals(lib: Lib, c: Collation, spec: FieldSpec, vals: seq<string>, row: Row)
    requires spec.kind in [Enum, NullableEnum, TextArray, Target]
    ensures ValuesHold(lib, c, spec, "any_of", row, vals) <==> exists x :: x in vals && Equals(c, spec, row, x)
  {
    if spec.kind == Target {
      assert forall x :: x in vals && Some(x) in row.targets ==> Some(x).Some? && Some(x).value in vals;
    }
  }

  // contains and not_contains go by the searched columns of the row.

  ghost predicate Has(c: Collation, column: Option<string>, x: string) {
    column.Some? && LikeEscape.Contains(Folded(c.fold, column.value), Folded(c.fold, x))
  }

  /** Some searched column has some non-blank value of the condition in it. */
  ghost predicate SomeColumnHas(lib: Lib, c: Collation, spec: FieldSpec, row: Row, values: seq<string>) {
    exists v :: v in values && lib.trim(v) != "" &&
                (Has(c, row.text(spec.expr), Compared(lib, spec, v)) ||
                 (spec.kind == TextTwo && Has(c, row.text(spec.exprB), Compared(lib, spec, v))))
  }

  lemma SubstringOfOperand(lib: Lib, c: Collation, spec: FieldSpec, values: seq<string>, column: string)
    ensures HasSubstring(c, column, Operands(lib, spec, values)) <==>
            exists v :: v in values && lib.trim(v) != "" && Has(c, Some(column), Compared(lib, spec, v))
  {
    var vals := Operands(lib, spec, values);
    if x :| x in vals && Has(c, Some(column), x) {
      var i :| 0 <= i < |vals| && vals[i] == x;
    }
    assert forall i :: 0 <= i < |vals| ==> vals[i] in vals;
    forall x
      ensures x in vals <==> exists v :: v in values && lib.trim(v) != "" && Compared(lib, spec, v) == x
    {
      OperandIff(lib, spec, values, x);
    }
  }

  predicate SomeColumnIsNull(spec: FieldSpec, row: Row) {
    row.text(spec.expr).None? || (spec.kind == TextTwo && row.text(spec.exprB).None?)
  }

  lemma ContainsMeans(lib: Lib, c: Collation, field: string, values: seq<string>, row: Row)
    requires IsFolding(c.fold)
    requires FieldOf(field).Some? && FieldOf(field).value.kind in [Text, TextTwo]
    requires Where(lib, [[Condition(field, "contains", values)]], []).Ok?
    requires Where(lib, [[Condition(field, "not_contains", values)]], []).Ok?
    ensures var spec := FieldOf(field).value;
            var has := SomeColumnHas(lib, c, spec, row, values);
            && (SelectedBy(lib, c, Condition(field, "contains", values), row) <==> has)
            && (SelectedBy(lib, c, Condition(field, "not_contains", values), row) <==> !has && !SomeColumnIsNull(spec, row))
  {
    ContainsHolds(lib, c, field, values, row);
    OneConditionSelects(lib, c, Condition(field, "contains", values), row);
    OneConditionSelects(lib, c, Condition(field, "not_contains", values), row);
  }

  lemma ContainsHolds(lib: Lib, c: Collation, field: string, values: seq<string>, row: Row)
    requires FieldOf(field).Some? && FieldOf(field).value.kind in [Text, TextTwo]
    ensures var spec := FieldOf(field).value;
            var has := SomeColumnHas(lib, c, spec, row, values);
            && (Holds(lib, c, Condition(field, "contains", values), row) <==> has)
            && (Holds(lib, c, Condition(field, "not_contains", values), row) <==> !has && !SomeColumnIsNull(spec, row))
  {
    var spec := FieldOf(field).value;
    HoldsOfOperands(lib, c, Condition(field, "contains", values), row);
    HoldsOfOperands(lib, c, Condition(field, "not_contains", values), row);
    TextOfOperands(lib, c, spec, values, row);
  }

  lemma TextOfOperands(lib: Lib, c: Collation, spec: FieldSpec, values: seq<string>, row: Row)
    requires spec.kind in [Text, TextTwo]
    ensures var vals, has := Operands(lib, spec, values), SomeColumnHas(lib, c, spec, row, values);
            && (TextHolds(c, spec, "contains", row, vals) <==> has)
            && (TextHolds(c, spec, "not_contains", row, vals) <==> !has && !SomeColumnIsNull(spec, row))
  {
    var a, b := row.text(spec.expr), row.text(spec.exprB);
    if a.Some? {
      SubstringOfOperand(lib, c, spec, values, a.value);
    }
    if b.Some? {
      SubstringOfOperand(lib, c, spec, values, b.value);
    }
  }

  /** contains and not_contains disagree exactly when some column has a value or none is NULL; else neither selects. */
  lemma ContainsComplementaryIff(lib: Lib, c: Collation, field: string, values: seq<string>, row: Row)
    requires IsFolding(c.fold)
    requires FieldOf(field).Some? && FieldOf(field).value.kind in [Text, TextTwo]
    requires Where(lib, [[Condition(field, "contains", values)]], []).Ok?
    requires Where(lib, [[Condition(field, "not_contains", values)]], []).Ok?
    ensures var spec := FieldOf(field).value;
            var with := SelectedBy(lib, c, Condition(field, "contains", values), row);
            var without := SelectedBy(lib, c, Condition(field, "not_contains", values), row);
            && ((with <==> !without) <==>
                SomeColumnHas(lib, c, spec, row, values) || !SomeColumnIsNull(spec, row))
            && !(with && without)
  {
    ContainsMeans(lib, c, field, values, row);
  }

  lemma HostIsText()
    ensures FieldOf("host") == Some(FieldSpec(Text, "l.host", "", false))
  {
    var t := FINDING_FIELDS;
    assert Lookup(t[5..], "host") == Some(t[5].1);
    assert Lookup(t[4..], "host") == Lookup(t[4..][1..], "host");
    assert Lookup(t[3..], "host") == Lookup(t[3..][1..], "host");
    assert Lookup(t[2..], "host") == Lookup(t[2..][1..], "host");
    assert Lookup(t[1..], "host") == Lookup(t[1..][1..], "host");
  }

  lemma HostConditionCompiles(lib: Lib, op: string, value: string)
    requires op in ["contains", "not_contains"] && |value| <= MAX_FILTER_VALUE_BYTES && lib.trim(value) != ""
    ensures Where(lib, [[Condition("host", op, [value])]], []).Ok?
  {
    HostIsText();
    TextIsAcceptable(lib, "host", op, value);
    OneIsAccepted(lib, Condition("host", op, [value]));
  }

  lemma TextIsAcceptable(lib: Lib, field: string, op: string, value: string)
    requires FieldOf(field).Some? && FieldOf(field).value.kind == Text
    requires op in ["contains", "not_contains"] && |value| <= MAX_FILTER_VALUE_BYTES && lib.trim(value) != ""
    ensures Acceptable(lib, Condition(field, op, [value]))
  {
    var spec := FieldOf(field).value;
    OperandsAreCounted(lib, spec, [value], Operands(lib, spec, [value]));
    assert Trimmed(lib, [value]) != [];
  }

  lemma OneIsAccepted(lib: Lib, cond: Condition)
    requires Acceptable(lib, cond)
    ensures Where(lib, [[cond]], []).Ok?
  {
    var groups := [[cond]];
    assert Total([]) == 0 && Total(groups) == 1 by { assert groups[..0] == []; }
    AcceptedIff(lib, groups, []);
  }

  /** It happens: a row whose host is NULL is selected by neither operator, whatever the value. */
  lemma NullHostIsMissed(lib: Lib, c: Collation, value: string, row: Row)
    requires IsFolding(c.fold) && |value| <= MAX_FILTER_VALUE_BYTES && lib.trim(value) != ""
    requires row.text("l.host").None?
    ensures forall op :: op in ["contains", "not_contains"] ==>
              var cond := Condition("host", op, [value]);
              Where(lib, [[cond]], []).Ok? && !SelectedBy(lib, c, cond, row)
  {
    HostIsText();
    HostConditionCompiles(lib, "contains", value);
    HostConditionCompiles(lib, "not_contains", value);
    ContainsMeans(lib, c, "host", [value], row);
  }
}
