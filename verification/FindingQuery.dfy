/**
 The findings filter: OR-of-AND groups of `field op values` conditions compiled to a parameterised
 WHERE clause. The compiled clause selects exactly the rows that satisfy the filter.
 */
module FindingQuery {
  import opened Wrappers
  import opened LikeEscape
  import opened SqlCondition

  datatype Condition = Condition(field: string, op: string, values: seq<string>)

  datatype Kind = Enum | Text | TextTwo | TextArray | Target | Time | Numeric | Bool | NullableEnum

  datatype FieldSpec = FieldSpec(kind: Kind, expr: string, exprB: string, lowered: bool)

  datatype QueryError =
    | TooManyConditions | UnknownField | BadOperator | TooManyValues | ValueTooLong | NeedsValue
    | WrongValueCount | BadTime | InvertedRange | BadInteger | BadBoolean

  const MAX_CONDITIONS := 60
  const MAX_VALUES_PER_CONDITION := 100
  const MAX_FILTER_VALUE_BYTES := 256
  const DAY := 86_400_000_000_000

  /** The library functions the compiler calls: trimming, lower-casing, and the two parsers. */
  datatype Lib = Lib(trim: string -> string, lower: string -> string,
                     time: string -> Option<(int, bool)>, integer: string -> Option<int>)

  const SEVERITY := "coalesce(l.recast_severity, l.severity)"

  /** The allowlist: only these fields are filterable, each mapped to a fixed SQL expression. */
  const FINDING_FIELDS: seq<(string, FieldSpec)> := [
    ("name", FieldSpec(TextTwo, "l.name", "l.template_id", false)),
    ("severity", FieldSpec(Enum, SEVERITY, "", true)),
    ("state", FieldSpec(Enum, "effective state", "", false)),
    ("disposition", FieldSpec(Enum, "l.disposition", "", false)),
    ("target", FieldSpec(Target, "", "", false)),
    ("host", FieldSpec(Text, "l.host", "", false)),
    ("matcher", FieldSpec(Text, "l.matcher_name", "", false)),
    ("extracted_result", FieldSpec(TextArray, "l.extracted_results", "", false)),
    ("matched_at", FieldSpec(Text, "l.matched_at", "", false)),
    ("type", FieldSpec(Enum, "l.type", "", true)),
    ("cve", FieldSpec(TextArray, "l.cve", "", false)),
    ("tag", FieldSpec(TextArray, "l.tags", "", false)),
    ("first_seen_at", FieldSpec(Time, "l.first_seen_at", "", false)),
    ("last_seen_at", FieldSpec(Time, "l.last_seen_at", "", false)),
    ("recast_severity", FieldSpec(NullableEnum, "l.recast_severity", "", true)),
    ("observed_severity", FieldSpec(Enum, "l.severity", "", true)),
    ("accept_expires_at", FieldSpec(Time, "l.accept_expires_at", "", false)),
    ("times_mitigated", FieldSpec(Numeric, "l.times_mitigated", "", false)),
    ("occurrence_count", FieldSpec(Numeric, "occurrence count", "", false)),
    ("auto_mitigation_eligible", FieldSpec(Bool, "(l.endpoint_key <> '')", "", false))
  ]

  function Lookup(table: seq<(string, FieldSpec)>, name: string): Option<FieldSpec> {
    if table == [] then None else if table[0].0 == name then Some(table[0].1) else Lookup(table[1..], name)
  }

  function FieldOf(name: string): Option<FieldSpec> {
    Lookup(FINDING_FIELDS, name)
  }

  function OpsFor(kind: Kind): seq<string> {
    match kind
    case Enum => ["any_of", "none_of"]
    case Text => ["contains", "not_contains", "starts_with", "is_empty", "is_not_empty"]
    case TextTwo => ["contains", "not_contains", "starts_with", "is_empty", "is_not_empty"]
    case TextArray => ["any_of", "none_of", "contains", "not_contains", "is_empty", "is_not_empty"]
    case Target => ["any_of", "none_of"]
    case Time => ["before", "after", "between"]
    case Numeric => ["eq", "neq", "gt", "gte", "lt", "lte"]
    case Bool => ["is", "is_not"]
    case NullableEnum => ["any_of", "none_of", "is_empty", "is_not_empty"]
  }

  predicate OpFor(kind: Kind, op: string) {
    op in OpsFor(kind)
  }

  // ---- Values ----

  function Trimmed(lib: Lib, values: seq<string>): seq<string> {
    if values == [] then []
    else
      var value := lib.trim(values[|values| - 1]);
      Trimmed(lib, values[..|values| - 1]) + if value != "" then [value] else []
  }

  function Lowered(lib: Lib, values: seq<string>): seq<string> {
    seq(|values|, i requires 0 <= i < |values| => lib.lower(values[i]))
  }

  /** The values a condition is compared with. */
  function Operands(lib: Lib, spec: FieldSpec, values: seq<string>): seq<string> {
    if spec.lowered then Lowered(lib, Trimmed(lib, values)) else Trimmed(lib, values)
  }

  function Wrap(values: seq<string>, before: string): seq<string> {
    seq(|values|, i requires 0 <= i < |values| => before + EscapeLike(values[i]) + "%")
  }

  /** The exclusive flag tells a date, whose whole day counts, from an instant. */
  function Cutoff(lib: Lib, value: string): Option<(int, bool)> {
    match lib.time(value)
    case None => None
    case Some((t, dateOnly)) => Some(if dateOnly then (t + DAY, true) else (t, false))
  }

  // ---- The compiler ----

  datatype Fragment = Fragment(tokens: seq<Token>, args: seq<Arg>)

  type Compiled = Result<Fragment, QueryError>

  function EmptyTokens(spec: FieldSpec, empty: bool): seq<Token> {
    if spec.kind == TextArray then [Atom(ArrayLength(spec.expr, empty))]
    else if empty then [Open, Atom(IsNull(spec.expr, false)), Or, Atom(EqEmpty(spec.expr)), Close]
    else [Open, Atom(IsNotNull(spec.expr)), And, Atom(NeEmpty(spec.expr)), Close]
  }

  function AnyLikeTokens(spec: FieldSpec, ph: nat): seq<Token> {
    if spec.kind == TextTwo then
      [Open, Atom(ILikeAny(spec.expr, ph)), Or, Atom(ILikeAny(spec.exprB, ph)), Close]
    else [Atom(ILikeAny(spec.expr, ph))]
  }

  function CompileTime(lib: Lib, col: string, op: string, vals: seq<string>, args: seq<Arg>): Compiled {
    var ph := |args| + 1;
    if op == "between" then
      if |vals| != 2 then Err(WrongValueCount)
      else if lib.time(vals[0]).None? || Cutoff(lib, vals[1]).None? then Err(BadTime)
      else
        var lo, (hi, exclusive) := lib.time(vals[0]).value.0, Cutoff(lib, vals[1]).value;
        if lo > (if exclusive then hi - 1 else hi) then Err(InvertedRange)
        else Ok(Fragment([Atom(CompareTime(col, Ge, ph)), And,
                          Atom(CompareTime(col, if exclusive then Lt else Le, ph + 1))],
                         args + [Instant(lo), Instant(hi)]))
    else if |vals| != 1 then Err(WrongValueCount)
    else if op == "after" then
      if lib.time(vals[0]).None? then Err(BadTime)
      else Ok(Fragment([Atom(CompareTime(col, Ge, ph))], args + [Instant(lib.time(vals[0]).value.0)]))
    else
      if Cutoff(lib, vals[0]).None? then Err(BadTime)
      else
        var (hi, exclusive) := Cutoff(lib, vals[0]).value;
        Ok(Fragment([Atom(CompareTime(col, if exclusive then Lt else Le, ph))], args + [Instant(hi)]))
  }

  function NumericComparison(op: string): Comparison {
    match op
    case "eq" => Eq
    case "neq" => Distinct
    case "gt" => Gt
    case "gte" => Ge
    case "lt" => Lt
    case _ => Le
  }

  function ParseBool(lib: Lib, value: string): Option<bool> {
    var v := lib.lower(value);
    if v == "true" then Some(true) else if v == "false" then Some(false) else None
  }

  function CompileValues(lib: Lib, spec: FieldSpec, op: string, vals: seq<string>, args: seq<Arg>): Compiled {
    var ph := |args| + 1;
    match spec.kind
    case Time => CompileTime(lib, spec.expr, op, vals, args)
    case Numeric =>
      if |vals| != 1 then Err(WrongValueCount)
      else if lib.integer(vals[0]).None? then Err(BadInteger)
      else Ok(Fragment([Atom(CompareInt(spec.expr, NumericComparison(op), ph))],
                       args + [Number(lib.integer(vals[0]).value)]))
    case Bool =>
      if |vals| != 1 then Err(WrongValueCount)
      else if ParseBool(lib, vals[0]).None? then Err(BadBoolean)
      else Ok(Fragment([Atom(CompareBool(spec.expr, if op == "is" then Eq else Distinct, ph))],
                       args + [Flag(ParseBool(lib, vals[0]).value)]))
    case Target =>
      var matches := [Atom(OccurrenceTargetAny(ph))];
      Ok(Fragment(if op == "none_of" then [Not, Open] + matches + [Close] else matches, args + [Texts(vals)]))
    case TextArray =>
      (match op
       case "any_of" => Ok(Fragment([Atom(Overlaps(spec.expr, ph))], args + [Texts(vals)]))
       case "none_of" => Ok(Fragment([Not, Open, Atom(Overlaps(spec.expr, ph)), Close], args + [Texts(vals)]))
       case "contains" => Ok(Fragment([Atom(ElementILikeAny(spec.expr, ph))], args + [Texts(Wrap(vals, "%"))]))
       case _ => Ok(Fragment([Not, Atom(ElementILikeAny(spec.expr, ph))], args + [Texts(Wrap(vals, "%"))])))
    case Text => CompileText(spec, op, vals, args)
    case TextTwo => CompileText(spec, op, vals, args)
    case Enum => CompileEnum(spec, op, vals, args)
    case NullableEnum => CompileEnum(spec, op, vals, args)
  }

  function CompileText(spec: FieldSpec, op: string, vals: seq<string>, args: seq<Arg>): Compiled {
    var like := AnyLikeTokens(spec, |args| + 1);
    match op
    case "contains" => Ok(Fragment(like, args + [Texts(Wrap(vals, "%"))]))
    case "not_contains" => Ok(Fragment([Not, Open] + like + [Close], args + [Texts(Wrap(vals, "%"))]))
    case _ => Ok(Fragment(like, args + [Texts(Wrap(vals, ""))]))
  }

  function CompileEnum(spec: FieldSpec, op: string, vals: seq<string>, args: seq<Arg>): Compiled {
    var isIn := Atom(EqAny(spec.expr, spec.lowered, |args| + 1));
    if op == "any_of" then Ok(Fragment([isIn], args + [Texts(vals)]))
    else Ok(Fragment([Open, Atom(IsNull(spec.expr, spec.lowered)), Or, Not, Open, isIn, Close, Close],
                     args + [Texts(vals)]))
  }

  predicate ValueTooLongIn(values: seq<string>) {
    exists v :: v in values && |v| > MAX_FILTER_VALUE_BYTES
  }

  function CompileFor(lib: Lib, spec: FieldSpec, op: string, values: seq<string>, args: seq<Arg>): Compiled {
    if !OpFor(spec.kind, op) then Err(BadOperator)
    else if |values| > MAX_VALUES_PER_CONDITION then Err(TooManyValues)
    else if ValueTooLongIn(values) then Err(ValueTooLong)
    else if op == "is_empty" then Ok(Fragment(EmptyTokens(spec, true), args))
    else if op == "is_not_empty" then Ok(Fragment(EmptyTokens(spec, false), args))
    else
      var vals := Operands(lib, spec, values);
      if vals == [] then Err(NeedsValue) else CompileValues(lib, spec, op, vals, args)
  }

  function CompileCondition(lib: Lib, c: Condition, args: seq<Arg>): Compiled {
    match FieldOf(c.field)
    case None => Err(UnknownField)
    case Some(spec) => CompileFor(lib, spec, c.op, c.values, args)
  }

  /** Token lists joined by a separator, as strings.Join does. */
  function Join(parts: seq<seq<Token>>, separator: Token): seq<Token> {
    if parts == [] then []
    else if |parts| == 1 then parts[0]
    else Join(parts[..|parts| - 1], separator) + [separator] + parts[|parts| - 1]
  }

  /** Where the compilation of a list has got to: the parts, the conditions counted, the bound values. */
  datatype Progress = Progress(parts: seq<seq<Token>>, n: nat, args: seq<Arg>)

  /** Compiles one condition after the parameters bound so far. */
  type Compiler = (Condition, seq<Arg>) -> Compiled

  function CompileAll(compile: Compiler, cs: seq<Condition>, n: nat, args: seq<Arg>): Result<Progress, QueryError> {
    if cs == [] then Ok(Progress([], n, args))
    else
      match CompileAll(compile, cs[..|cs| - 1], n, args)
      case Err(e) => Err(e)
      case Ok(p) =>
        if p.n + 1 > MAX_CONDITIONS then Err(TooManyConditions)
        else
          match compile(cs[|cs| - 1], p.args)
          case Err(e) => Err(e)
          case Ok(f) => Ok(Progress(p.parts + [f.tokens], p.n + 1, f.args))
  }

  function CompileGroups(compile: Compiler, groups: seq<seq<Condition>>, args: seq<Arg>): Result<Progress, QueryError> {
    if groups == [] then Ok(Progress([], 0, args))
    else
      match CompileGroups(compile, groups[..|groups| - 1], args)
      case Err(e) => Err(e)
      case Ok(p) =>
        match CompileAll(compile, groups[|groups| - 1], p.n, p.args)
        case Err(e) => Err(e)
        case Ok(q) =>
          Ok(Progress(if q.parts == [] then p.parts else p.parts + [[Open] + Join(q.parts, And) + [Close]], q.n, q.args))
  }

  /** The condition after WHERE; empty when the filter has no condition. */
  function WhereOf(compile: Compiler, groups: seq<seq<Condition>>, args: seq<Arg>): Compiled {
    match CompileGroups(compile, groups, args)
    case Err(e) => Err(e)
    case Ok(p) => Ok(Fragment(Join(p.parts, Or), p.args))
  }

  function CompilerFor(lib: Lib): Compiler {
    (c, args) => CompileCondition(lib, c, args)
  }

  function Where(lib: Lib, groups: seq<seq<Condition>>, args: seq<Arg>): Compiled {
    WhereOf(CompilerFor(lib), groups, args)
  }

  lemma {:induction false} ErrorStays(compile: Compiler, cs: seq<Condition>, n: nat, args: seq<Arg>, i: nat)
    requires i <= |cs| && CompileAll(compile, cs[..i], n, args).Err?
    ensures CompileAll(compile, cs, n, args) == CompileAll(compile, cs[..i], n, args)
  {
    if i == |cs| {
      assert cs[..i] == cs;
    } else {
      assert cs[..|cs| - 1][..i] == cs[..i];
      ErrorStays(compile, cs[..|cs| - 1], n, args, i);
    }
  }

  lemma {:induction false} GroupErrorStays(compile: Compiler, groups: seq<seq<Condition>>, args: seq<Arg>, i: nat)
    requires i <= |groups| && CompileGroups(compile, groups[..i], args).Err?
    ensures CompileGroups(compile, groups, args) == CompileGroups(compile, groups[..i], args)
  {
    if i == |groups| {
      assert groups[..i] == groups;
    } else {
      assert groups[..|groups| - 1][..i] == groups[..i];
      GroupErrorStays(compile, groups[..|groups| - 1], args, i);
    }
  }

  /** Compiles the conditions of one group, counting them from `n`. */
  method CompileConditions(compile: Compiler, conditions: seq<Condition>, n: nat, args: seq<Arg>)
    returns (r: Result<Progress, QueryError>)
    ensures r == CompileAll(compile, conditions, n, args)
  {
    var count: nat := n;
    var bound := args;
    var andConds: seq<seq<Token>> := [];
    for i := 0 to |conditions|
      invariant CompileAll(compile, conditions[..i], n, args) == Ok(Progress(andConds, count, bound))
    {
      assert conditions[..i + 1][..i] == conditions[..i];
      count := count + 1;
      if count > MAX_CONDITIONS {
        ErrorStays(compile, conditions, n, args, i + 1);
        return Err(TooManyConditions);
      }
      var f := compile(conditions[i], bound);
      if f.Err? {
        ErrorStays(compile, conditions, n, args, i + 1);
        return Err(f.error);
      }
      bound := f.value.args;
      andConds := andConds + [f.value.tokens];
    }
    assert conditions[..|conditions|] == conditions;
    return Ok(Progress(andConds, count, bound));
  }

  /** Compiles the filter, appending the bound values to `args`. */
  method BuildFindingWhere(lib: Lib, groups: seq<seq<Condition>>, args: seq<Arg>) returns (r: Compiled)
    ensures r == Where(lib, groups, args)
  {
    var compile := CompilerFor(lib);
    var n, bound := 0, args;
    var orClauses: seq<seq<Token>> := [];
    for g := 0 to |groups|
      invariant CompileGroups(compile, groups[..g], args) == Ok(Progress(orClauses, n, bound))
    {
      assert groups[..g + 1][..g] == groups[..g];
      var group := CompileConditions(compile, groups[g], n, bound);
      if group.Err? {
        GroupErrorStays(compile, groups, args, g + 1);
        return Err(group.error);
      }
      n, bound := group.value.n, group.value.args;
      if |group.value.parts| > 0 {
        orClauses := orClauses + [[Open] + Join(group.value.parts, And) + [Close]];
      }
    }
    assert groups[..|groups|] == groups;
    return Ok(Fragment(Join(orClauses, Or), bound));
  }
}
