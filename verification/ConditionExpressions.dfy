/**
  DynamoDB condition expressions as token sequences, their grammar and their meaning. A `Word` is
  any other text; no condition starts with one.

  Precedence, tightest first: comparison, IN, BETWEEN and function calls; NOT; AND; OR.
  The AND inside BETWEEN belongs to the comparison, not to the conjunction.
 */
module ConditionExpressions {
  import opened Results

  /** A DynamoDB attribute value. */
  datatype Attr =
    | NullAttr
    | S(s: string)
    | N(n: string)
    | BOOL(b: bool)
    | L(items: seq<Attr>)
    | M(fields: seq<AttrField>)

  datatype AttrField = AttrField(name: string, value: Attr)

  datatype Comparator = Eq | Ne | Lt | Le | Gt | Ge

  datatype Fn = Contains | BeginsWith | AttributeType | AttributeExists | AttributeNotExists

  datatype Token =
    | Name(ref: string)
    | Val(ref: string)
    | Cmp(cmp: Comparator)
    | Call(fn: Fn)
    | AND | OR | NOT | BETWEEN | IN
    | LParen | RParen | Comma
    | Word(text: string)

  /** A parsed condition. Names and values are still placeholders. */
  datatype Expr =
    | Compare(name: string, cmp: Comparator, value: string)
    | Test(fn: Fn, name: string, value: string)
    | Exists(name: string, present: bool)
    | Range(name: string, lo: string, hi: string)
    | OneOf(name: string, values: seq<string>)
    | Not(arg: Expr)
    | And(left: Expr, right: Expr)
    | Or(left: Expr, right: Expr)

  // ---------------------------------------------------------------- parsing

  predicate StartsWith(ts: seq<Token>, t: Token) {
    ts != [] && ts[0] == t
  }

  function ParseOr(ts: seq<Token>): (r: Option<(Expr, seq<Token>)>)
    ensures r.Some? ==> |r.value.1| < |ts|
    decreases |ts|, 3
  {
    match ParseAnd(ts)
    case None => None
    case Some((left, rest)) =>
      if !StartsWith(rest, OR) then Some((left, rest))
      else
        match ParseOr(rest[1..])
        case None => None
        case Some((right, rest')) => Some((Or(left, right), rest'))
  }

  function ParseAnd(ts: seq<Token>): (r: Option<(Expr, seq<Token>)>)
    ensures r.Some? ==> |r.value.1| < |ts|
    decreases |ts|, 2
  {
    match ParseNot(ts)
    case None => None
    case Some((left, rest)) =>
      if !StartsWith(rest, AND) then Some((left, rest))
      else
        match ParseAnd(rest[1..])
        case None => None
        case Some((right, rest')) => Some((And(left, right), rest'))
  }

  function ParseNot(ts: seq<Token>): (r: Option<(Expr, seq<Token>)>)
    ensures r.Some? ==> |r.value.1| < |ts|
    decreases |ts|, 1
  {
    if StartsWith(ts, NOT) then
      match ParseNot(ts[1..])
      case None => None
      case Some((arg, rest)) => Some((Not(arg), rest))
    else if StartsWith(ts, LParen) then
      match ParseOr(ts[1..])
      case None => None
      case Some((e, rest)) => if StartsWith(rest, RParen) then Some((e, rest[1..])) else None
    else
      ParseAtom(ts)
  }

  function ParseAtom(ts: seq<Token>): (r: Option<(Expr, seq<Token>)>)
    ensures r.Some? ==> |r.value.1| < |ts|
  {
    if ts == [] then None
    else if ts[0].Call? then ParseCall(ts[0].fn, ts[1..])
    else if |ts| >= 3 && ts[0].Name? && ts[1].Cmp? && ts[2].Val? then
      Some((Compare(ts[0].ref, ts[1].cmp, ts[2].ref), ts[3..]))
    else if |ts| >= 5 && ts[0].Name? && ts[1] == BETWEEN && ts[2].Val? && ts[3] == AND && ts[4].Val? then
      Some((Range(ts[0].ref, ts[2].ref, ts[4].ref), ts[5..]))
    else if |ts| >= 3 && ts[0].Name? && ts[1] == IN && ts[2] == LParen then
      match ParseValues(ts[3..])
      case None => None
      case Some((values, rest)) => Some((OneOf(ts[0].ref, values), rest))
    else None
  }

  function ParseCall(fn: Fn, ts: seq<Token>): (r: Option<(Expr, seq<Token>)>)
    ensures r.Some? ==> |r.value.1| < |ts|
  {
    if fn == AttributeExists || fn == AttributeNotExists then
      if |ts| >= 3 && ts[0] == LParen && ts[1].Name? && ts[2] == RParen
      then Some((Exists(ts[1].ref, fn == AttributeExists), ts[3..]))
      else None
    else if |ts| >= 5 && ts[0] == LParen && ts[1].Name? && ts[2] == Comma && ts[3].Val? && ts[4] == RParen
    then Some((Test(fn, ts[1].ref, ts[3].ref), ts[5..]))
    else None
  }

  /** The operand list of IN after its opening parenthesis: at least one value. */
  function ParseValues(ts: seq<Token>): (r: Option<(seq<string>, seq<Token>)>)
    ensures r.Some? ==> |r.value.1| < |ts|
  {
    if |ts| < 2 || !ts[0].Val? then None
    else if ts[1] == RParen then Some(([ts[0].ref], ts[2..]))
    else if ts[1] == Comma then
      match ParseValues(ts[2..])
      case None => None
      case Some((values, rest)) => Some(([ts[0].ref] + values, rest))
    else None
  }

  /** A whole expression: nothing may follow it. */
  function Parse(ts: seq<Token>): Option<Expr> {
    match ParseOr(ts)
    case None => None
    case Some((e, rest)) => if rest == [] then Some(e) else None
  }

  // ---------------------------------------------------------------- meaning

  type Item = map<string, Attr>

  /** DynamoDB's own comparisons and functions, of which nothing is assumed. */
  datatype Primitives = Primitives(
    compare: (Comparator, Option<Attr>, Attr) -> bool,
    test: (Fn, Option<Attr>, Attr) -> bool)

  datatype Tables = Tables(names: map<string, string>, values: map<string, Attr>)

  function Lookup(item: Item, field: string): Option<Attr> {
    if field in item then Some(item[field]) else None
  }

  predicate Within(db: Primitives, actual: Option<Attr>, lo: Attr, hi: Attr) {
    db.compare(Ge, actual, lo) && db.compare(Le, actual, hi)
  }

  /** The truth value of a condition, or None when it uses an undefined placeholder. */
  function Eval(e: Expr, t: Tables, item: Item, db: Primitives): Option<bool> {
    match e
    case Not(arg) =>
      (match Eval(arg, t, item, db)
       case None => None
       case Some(b) => Some(!b))
    case And(l, r) =>
      (match (Eval(l, t, item, db), Eval(r, t, item, db))
       case (Some(a), Some(b)) => Some(a && b)
       case _ => None)
    case Or(l, r) =>
      (match (Eval(l, t, item, db), Eval(r, t, item, db))
       case (Some(a), Some(b)) => Some(a || b)
       case _ => None)
    case _ =>
      if e.name !in t.names then None
      else EvalAtom(e, Lookup(item, t.names[e.name]), t.values, db)
  }

  function EvalAtom(e: Expr, actual: Option<Attr>, values: map<string, Attr>, db: Primitives): Option<bool>
    requires !e.Not? && !e.And? && !e.Or?
  {
    match e
    case Compare(_, c, v) => if v in values then Some(db.compare(c, actual, values[v])) else None
    case Test(f, _, v) => if v in values then Some(db.test(f, actual, values[v])) else None
    case Exists(_, present) => Some(actual.Some? == present)
    case Range(_, lo, hi) =>
      if lo in values && hi in values then Some(Within(db, actual, values[lo], values[hi])) else None
    case OneOf(_, vs) =>
      if forall v <- vs :: v in values
      then Some(exists v <- vs :: db.compare(Eq, actual, values[v]))
      else None
  }
}
