/**
 SQL conditions as token sequences: the operator precedence that reads them (NOT over AND over OR),
 three-valued evaluation, and the proof that a printed condition reads back as itself.
 */
module SqlCondition {
  import opened Wrappers
  import opened LikeEscape

  datatype Truth = True | False | Unknown

  function And3(a: Truth, b: Truth): Truth {
    if a == False || b == False then False else if a == True && b == True then True else Unknown
  }

  function Or3(a: Truth, b: Truth): Truth {
    if a == True || b == True then True else if a == False && b == False then False else Unknown
  }

  function Not3(a: Truth): Truth {
    match a
    case True => False
    case False => True
    case Unknown => Unknown
  }

  datatype Comparison = Eq | Distinct | Lt | Le | Gt | Ge

  /** A bound parameter. */
  datatype Arg = Texts(texts: seq<string>) | Instant(t: int) | Number(n: int) | Flag(b: bool)

  /** The atomic predicates of the filter; `ph` is the number of the placeholder they mention. */
  datatype Pred =
    | EqAny(col: string, lowered: bool, ph: nat)
    | IsNull(col: string, lowered: bool)
    | IsNotNull(col: string)
    | EqEmpty(col: string)
    | NeEmpty(col: string)
    | ILikeAny(col: string, ph: nat)
    | Overlaps(col: string, ph: nat)
    | ElementILikeAny(col: string, ph: nat)
    | ArrayLength(col: string, isZero: bool)
    | OccurrenceTargetAny(ph: nat)
    | CompareTime(col: string, cmp: Comparison, ph: nat)
    | CompareInt(col: string, cmp: Comparison, ph: nat)
    | CompareBool(col: string, cmp: Comparison, ph: nat)

  datatype Token = Atom(p: Pred) | And | Or | Not | Open | Close

  /** A row: the columns by SQL expression, and the target ids of its occurrences. */
  datatype Row = Row(text: string -> Option<string>, list: string -> seq<string>, time: string -> Option<int>,
                     number: string -> Option<int>, flag: string -> Option<bool>, targets: seq<Option<string>>)

  /** The database's lower() and the case folding of ILIKE. */
  datatype Collation = Collation(lower: string -> string, fold: char -> char)

  // ---- Evaluation ----

  function OfBool(b: bool): Truth {
    if b then True else False
  }

  function CompareInts(x: Option<int>, cmp: Comparison, y: int): Truth {
    if cmp == Distinct then OfBool(x != Some(y))
    else if x.None? then Unknown
    else OfBool(match cmp
                case Eq => x.value == y
                case Lt => x.value < y
                case Le => x.value <= y
                case Gt => x.value > y
                case Ge => x.value >= y
                case Distinct => true)
  }

  function CompareBools(x: Option<bool>, cmp: Comparison, y: bool): Truth {
    if cmp == Distinct then OfBool(x != Some(y))
    else if x.None? || cmp != Eq then Unknown
    else OfBool(x.value == y)
  }

  predicate AnyILike(c: Collation, patterns: seq<string>, s: string) {
    exists p :: p in patterns && ILike(c.fold, p, s)
  }

  /** A placeholder that is not bound to a value of the right type has no meaning; see PlaceholdersBound. */
  function EvalPred(p: Pred, row: Row, args: seq<Arg>, c: Collation): Truth {
    match p
    case IsNull(col, _) => OfBool(row.text(col).None?)
    case IsNotNull(col) => OfBool(row.text(col).Some?)
    case EqEmpty(col) => if row.text(col).None? then Unknown else OfBool(row.text(col).value == "")
    case NeEmpty(col) => if row.text(col).None? then Unknown else OfBool(row.text(col).value != "")
    case ArrayLength(col, isZero) => OfBool((row.list(col) == []) == isZero)
    case EqAny(col, lowered, ph) =>
      if !TextsBound(args, ph) || row.text(col).None? then Unknown
      else OfBool((if lowered then c.lower(row.text(col).value) else row.text(col).value) in args[ph - 1].texts)
    case ILikeAny(col, ph) =>
      if !TextsBound(args, ph) || row.text(col).None? then Unknown
      else OfBool(AnyILike(c, args[ph - 1].texts, row.text(col).value))
    case Overlaps(col, ph) =>
      if !TextsBound(args, ph) then Unknown
      else OfBool(exists e :: e in row.list(col) && e in args[ph - 1].texts)
    case ElementILikeAny(col, ph) =>
      if !TextsBound(args, ph) then Unknown
      else OfBool(exists e :: e in row.list(col) && AnyILike(c, args[ph - 1].texts, e))
    case OccurrenceTargetAny(ph) =>
      if !TextsBound(args, ph) then Unknown
      else OfBool(exists t :: t in row.targets && t.Some? && t.value in args[ph - 1].texts)
    case CompareTime(col, cmp, ph) =>
      if !(0 < ph <= |args| && args[ph - 1].Instant?) then Unknown
      else CompareInts(row.time(col), cmp, args[ph - 1].t)
    case CompareInt(col, cmp, ph) =>
      if !(0 < ph <= |args| && args[ph - 1].Number?) then Unknown
      else CompareInts(row.number(col), cmp, args[ph - 1].n)
    case CompareBool(col, cmp, ph) =>
      if !(0 < ph <= |args| && args[ph - 1].Flag?) then Unknown
      else CompareBools(row.flag(col), cmp, args[ph - 1].b)
  }

  predicate TextsBound(args: seq<Arg>, ph: nat) {
    0 < ph <= |args| && args[ph - 1].Texts?
  }

  datatype Expr = P(p: Pred) | NotE(e: Expr) | AndE(l: Expr, r: Expr) | OrE(l: Expr, r: Expr)

  function Eval(e: Expr, row: Row, args: seq<Arg>, c: Collation): Truth {
    match e
    case P(p) => EvalPred(p, row, args, c)
    case NotE(x) => Not3(Eval(x, row, args, c))
    case AndE(l, r) => And3(Eval(l, row, args, c), Eval(r, row, args, c))
    case OrE(l, r) => Or3(Eval(l, row, args, c), Eval(r, row, args, c))
  }

  // ---- Reading tokens with SQL precedence ----

  type Read = Option<(Expr, seq<Token>)>

  function ReadPrimary(t: seq<Token>): (r: Read)
    ensures r.Some? ==> |r.value.1| < |t|
    decreases |t|, 0
  {
    if t == [] then None
    else if t[0].Atom? then Some((P(t[0].p), t[1..]))
    else if t[0] == Open then
      var inner := ReadOr(t[1..]);
      if inner.Some? && inner.value.1 != [] && inner.value.1[0] == Close
      then Some((inner.value.0, inner.value.1[1..])) else None
    else None
  }

  function ReadNot(t: seq<Token>): (r: Read)
    ensures r.Some? ==> |r.value.1| < |t|
    decreases |t|, 1
  {
    if t != [] && t[0] == Not then
      var inner := ReadNot(t[1..]);
      if inner.Some? then Some((NotE(inner.value.0), inner.value.1)) else None
    else ReadPrimary(t)
  }

  function ReadAnd(t: seq<Token>): (r: Read)
    ensures r.Some? ==> |r.value.1| < |t|
    decreases |t|, 2
  {
    var first := ReadNot(t);
    if first.Some? then ReadAndTail(first.value.0, first.value.1) else None
  }

  function ReadAndTail(acc: Expr, t: seq<Token>): (r: Read)
    ensures r.Some? ==> |r.value.1| <= |t|
    decreases |t|, 2
  {
    if t != [] && t[0] == And then
      var next := ReadNot(t[1..]);
      if next.Some? then ReadAndTail(AndE(acc, next.value.0), next.value.1) else None
    else Some((acc, t))
  }

  function ReadOr(t: seq<Token>): (r: Read)
    ensures r.Some? ==> |r.value.1| < |t|
    decreases |t|, 3
  {
    var first := ReadAnd(t);
    if first.Some? then ReadOrTail(first.value.0, first.value.1) else None
  }

  function ReadOrTail(acc: Expr, t: seq<Token>): (r: Read)
    ensures r.Some? ==> |r.value.1| <= |t|
    decreases |t|, 3
  {
    if t != [] && t[0] == Or then
      var next := ReadAnd(t[1..]);
      if next.Some? then ReadOrTail(OrE(acc, next.value.0), next.value.1) else None
    else Some((acc, t))
  }

  // ---- Printing ----

  /** What can be written between ANDs: an atom, a negation, or a parenthesised OR of ANDs. */
  datatype Unary = Plain(p: Pred) | Negated(u: Unary) | Parens(ors: Ors)

  datatype Ands = Last(u: Unary) | Then(u: Unary, rest: Ands)

  datatype Ors = Only(ands: Ands) | Alternative(ands: Ands, others: Ors)

  function Print(u: Unary): seq<Token> {
    match u
    case Plain(p) => [Atom(p)]
    case Negated(v) => [Not] + Print(v)
    case Parens(ors) => [Open] + PrintOrs(ors) + [Close]
  }

  function PrintAnds(us: Ands): seq<Token> {
    match us
    case Last(u) => Print(u)
    case Then(u, rest) => Print(u) + [And] + PrintAnds(rest)
  }

  function PrintOrs(ors: Ors): seq<Token> {
    match ors
    case Only(ands) => PrintAnds(ands)
    case Alternative(ands, others) => PrintAnds(ands) + [Or] + PrintOrs(others)
  }

  ghost function ToExpr(u: Unary): Expr {
    match u
    case Plain(p) => P(p)
    case Negated(v) => NotE(ToExpr(v))
    case Parens(ors) => OrsExpr(ors)
  }

  ghost function AndsExpr(us: Ands): Expr {
    match us
    case Last(u) => ToExpr(u)
    case Then(u, rest) => AndsTail(ToExpr(u), rest)
  }

  ghost function AndsTail(acc: Expr, us: Ands): Expr
    decreases us
  {
    match us
    case Last(u) => AndE(acc, ToExpr(u))
    case Then(u, rest) => AndsTail(AndE(acc, ToExpr(u)), rest)
  }

  ghost function OrsExpr(ors: Ors): Expr {
    match ors
    case Only(ands) => AndsExpr(ands)
    case Alternative(ands, others) => OrsTail(AndsExpr(ands), others)
  }

  ghost function OrsTail(acc: Expr, ors: Ors): Expr
    decreases ors
  {
    match ors
    case Only(ands) => OrE(acc, AndsExpr(ands))
    case Alternative(ands, others) => OrsTail(OrE(acc, AndsExpr(ands)), others)
  }

  predicate StartsWith(t: seq<Token>, x: Token) {
    t != [] && t[0] == x
  }

  lemma {:induction false} ReadsBack(u: Unary, rest: seq<Token>)
    ensures ReadNot(Print(u) + rest) == Some((ToExpr(u), rest))
    decreases u, 1
  {
    var t := Print(u) + rest;
    match u {
      case Plain(p) => assert t[1..] == rest;
      case Negated(v) =>
        assert t[1..] == Print(v) + rest;
        ReadsBack(v, rest);
      case Parens(ors) =>
        assert t[1..] == PrintOrs(ors) + ([Close] + rest);
        OrsReadBack(ors, [Close] + rest);
        assert ([Close] + rest)[1..] == rest;
    }
  }

  lemma {:induction false} AndsReadBack(us: Ands, rest: seq<Token>)
    requires !StartsWith(rest, And)
    ensures ReadAnd(PrintAnds(us) + rest) == Some((AndsExpr(us), rest))
    decreases us, 2
  {
    match us {
      case Last(u) => ReadsBack(u, rest);
      case Then(u, others) =>
        var more := [And] + PrintAnds(others) + rest;
        assert PrintAnds(us) + rest == Print(u) + more;
        ReadsBack(u, more);
        AndTailReadsBack(ToExpr(u), others, rest);
    }
  }

  lemma {:induction false} AndTailReadsBack(acc: Expr, us: Ands, rest: seq<Token>)
    requires !StartsWith(rest, And)
    ensures ReadAndTail(acc, [And] + PrintAnds(us) + rest) == Some((AndsTail(acc, us), rest))
    decreases us, 2
  {
    var t := [And] + PrintAnds(us) + rest;
    match us {
      case Last(u) =>
        assert t[1..] == Print(u) + rest;
        ReadsBack(u, rest);
      case Then(u, others) =>
        var more := [And] + PrintAnds(others) + rest;
        assert t[1..] == Print(u) + more;
        ReadsBack(u, more);
        AndTailReadsBack(AndE(acc, ToExpr(u)), others, rest);
    }
  }

  lemma {:induction false} OrsReadBack(ors: Ors, rest: seq<Token>)
    requires !StartsWith(rest, And) && !StartsWith(rest, Or)
    ensures ReadOr(PrintOrs(ors) + rest) == Some((OrsExpr(ors), rest))
    decreases ors, 3
  {
    match ors {
      case Only(ands) => AndsReadBack(ands, rest);
      case Alternative(ands, others) =>
        var more := [Or] + PrintOrs(others) + rest;
        assert PrintOrs(ors) + rest == PrintAnds(ands) + more;
        AndsReadBack(ands, more);
        OrTailReadsBack(AndsExpr(ands), others, rest);
    }
  }

  lemma {:induction false} OrTailReadsBack(acc: Expr, ors: Ors, rest: seq<Token>)
    requires !StartsWith(rest, And) && !StartsWith(rest, Or)
    ensures ReadOrTail(acc, [Or] + PrintOrs(ors) + rest) == Some((OrsTail(acc, ors), rest))
    decreases ors, 3
  {
    var t := [Or] + PrintOrs(ors) + rest;
    match ors {
      case Only(ands) =>
        assert t[1..] == PrintAnds(ands) + rest;
        AndsReadBack(ands, rest);
      case Alternative(ands, others) =>
        var more := [Or] + PrintOrs(others) + rest;
        assert t[1..] == PrintAnds(ands) + more;
        AndsReadBack(ands, more);
        OrTailReadsBack(OrE(acc, AndsExpr(ands)), others, rest);
    }
  }

  // ---- What the printed condition means ----

  ghost function Meaning(u: Unary, row: Row, args: seq<Arg>, c: Collation): Truth {
    match u
    case Plain(p) => EvalPred(p, row, args, c)
    case Negated(v) => Not3(Meaning(v, row, args, c))
    case Parens(ors) => OrMeaning(ors, row, args, c)
  }

  ghost function AndMeaning(us: Ands, row: Row, args: seq<Arg>, c: Collation): Truth {
    match us
    case Last(u) => Meaning(u, row, args, c)
    case Then(u, rest) => And3(Meaning(u, row, args, c), AndMeaning(rest, row, args, c))
  }

  ghost function OrMeaning(ors: Ors, row: Row, args: seq<Arg>, c: Collation): Truth {
    match ors
    case Only(ands) => AndMeaning(ands, row, args, c)
    case Alternative(ands, others) => Or3(AndMeaning(ands, row, args, c), OrMeaning(others, row, args, c))
  }

  lemma {:induction false} EvalIsMeaning(u: Unary, row: Row, args: seq<Arg>, c: Collation)
    ensures Eval(ToExpr(u), row, args, c) == Meaning(u, row, args, c)
  {
    match u {
      case Plain(p) =>
      case Negated(v) => EvalIsMeaning(v, row, args, c);
      case Parens(ors) => OrsEvalIsMeaning(ors, row, args, c);
    }
  }

  lemma {:induction false} AndsTailIsMeaning(acc: Expr, us: Ands, row: Row, args: seq<Arg>, c: Collation)
    ensures Eval(AndsTail(acc, us), row, args, c) == And3(Eval(acc, row, args, c), AndMeaning(us, row, args, c))
    decreases us
  {
    EvalIsMeaning(us.u, row, args, c);
    if us.Then? {
      AndsTailIsMeaning(AndE(acc, ToExpr(us.u)), us.rest, row, args, c);
    }
  }

  lemma {:induction false} AndsEvalIsMeaning(us: Ands, row: Row, args: seq<Arg>, c: Collation)
    ensures Eval(AndsExpr(us), row, args, c) == AndMeaning(us, row, args, c)
    decreases us
  {
    EvalIsMeaning(us.u, row, args, c);
    if us.Then? {
      AndsTailIsMeaning(ToExpr(us.u), us.rest, row, args, c);
    }
  }

  lemma {:induction false} OrsTailIsMeaning(acc: Expr, ors: Ors, row: Row, args: seq<Arg>, c: Collation)
    ensures Eval(OrsTail(acc, ors), row, args, c) == Or3(Eval(acc, row, args, c), OrMeaning(ors, row, args, c))
    decreases ors
  {
    AndsEvalIsMeaning(ors.ands, row, args, c);
    if ors.Alternative? {
      OrsTailIsMeaning(OrE(acc, AndsExpr(ors.ands)), ors.others, row, args, c);
    }
  }

  lemma {:induction false} OrsEvalIsMeaning(ors: Ors, row: Row, args: seq<Arg>, c: Collation)
    ensures Eval(OrsExpr(ors), row, args, c) == OrMeaning(ors, row, args, c)
    decreases ors
  {
    AndsEvalIsMeaning(ors.ands, row, args, c);
    if ors.Alternative? {
      OrsTailIsMeaning(AndsExpr(ors.ands), ors.others, row, args, c);
    }
  }

  /** A printed OR of ANDs, read back with SQL precedence, evaluates to its meaning. */
  lemma PrintedMeaning(ors: Ors, row: Row, args: seq<Arg>, c: Collation)
    ensures var read := ReadOr(PrintOrs(ors));
            read.Some? && read.value.1 == [] && Eval(read.value.0, row, args, c) == OrMeaning(ors, row, args, c)
  {
    assert PrintOrs(ors) + [] == PrintOrs(ors);
    OrsReadBack(ors, []);
    OrsEvalIsMeaning(ors, row, args, c);
  }

  // ---- Joining ----

  ghost function JoinedAnds(a: Ands, b: Ands): Ands {
    match a
    case Last(u) => Then(u, b)
    case Then(u, rest) => Then(u, JoinedAnds(rest, b))
  }

  /** Conditions joined by AND mean the conjunction, even where one of them is itself an unparenthesised AND. */
  lemma {:induction false} JoinedMeaning(a: Ands, b: Ands, row: Row, args: seq<Arg>, c: Collation)
    ensures PrintAnds(JoinedAnds(a, b)) == PrintAnds(a) + [And] + PrintAnds(b)
    ensures AndMeaning(JoinedAnds(a, b), row, args, c) == And3(AndMeaning(a, row, args, c), AndMeaning(b, row, args, c))
  {
    if a.Then? {
      JoinedMeaning(a.rest, b, row, args, c);
    }
  }

  ghost function JoinedOrs(a: Ors, b: Ors): Ors {
    match a
    case Only(ands) => Alternative(ands, b)
    case Alternative(ands, others) => Alternative(ands, JoinedOrs(others, b))
  }

  lemma {:induction false} JoinedOrsMeaning(a: Ors, b: Ors, row: Row, args: seq<Arg>, c: Collation)
    ensures PrintOrs(JoinedOrs(a, b)) == PrintOrs(a) + [Or] + PrintOrs(b)
    ensures OrMeaning(JoinedOrs(a, b), row, args, c) == Or3(OrMeaning(a, row, args, c), OrMeaning(b, row, args, c))
  {
    if a.Alternative? {
      JoinedOrsMeaning(a.others, b, row, args, c);
    }
  }
}
