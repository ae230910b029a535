/**
  `util.transform.toDynamoDBFilterExpression` (`ministack/core/appsync_js.py`): a nested filter
  object becomes a flat expression, a table of name placeholders and a table of value placeholders.

  `Lower` reads a filter as clauses. The class `Transform` emits the tokens of those clauses
  while filling the tables.
 */
module FilterTransform {
  import opened Results
  import opened ConditionExpressions
  import opened PlaceholderKeys

  /** A JavaScript value as a resolver passes it; numbers by their `String(v)` text. */
  datatype Json =
    | Undefined
    | Null
    | Bool(b: bool)
    | Num(text: string)
    | Str(s: string)
    | Arr(items: seq<Json>)
    | Obj(fields: seq<Field>)

  datatype Field = Field(key: string, value: Json)

  // ---------------------------------------------------------------- JavaScript helpers

  predicate Missing(j: Json) {
    j == Null || j == Undefined
  }

  predicate Truthy(j: Json) {
    match j
    case Undefined | Null => false
    case Bool(b) => b
    case Num(text) => text != "0" && text != "NaN"
    case Str(s) => s != ""
    case Arr(_) | Obj(_) => true
  }

  /** `Object.entries(j || {})`. */
  function Entries(j: Json): (r: seq<Field>)
    ensures !j.Obj? ==> Plain(r)
  {
    match j
    case Obj(fields) => fields
    case Arr(items) => seq(|items|, i requires 0 <= i < |items| => Field(Decimal(i), items[i]))
    case Str(s) => seq(|s|, i requires 0 <= i < |s| => Field(Decimal(i), Str([s[i]])))
    case _ => []
  }

  predicate Combinator(key: string) {
    key == "and" || key == "or" || key == "not"
  }

  /** Entries none of which is a combinator. */
  predicate Plain(es: seq<Field>) {
    forall e <- es :: !Combinator(e.key)
  }

  /** `v[i]` for a non-null `v` and a literal index. */
  function At(v: Json, i: nat): Json {
    match v
    case Arr(items) => if i < |items| then items[i] else Undefined
    case Str(s) => if i < |s| then Str([s[i]]) else Undefined
    case Obj(fields) => Property(fields, Decimal(i))
    case _ => Undefined
  }

  function Property(fields: seq<Field>, key: string): Json {
    if fields == [] then Undefined
    else if fields[0].key == key then fields[0].value
    else Property(fields[1..], key)
  }

  function ToAttr(j: Json): Attr {
    match j
    case Undefined | Null => NullAttr
    case Str(s) => S(s)
    case Num(text) => N(text)
    case Bool(b) => BOOL(b)
    case Arr(items) => L(seq(|items|, i requires 0 <= i < |items| => ToAttr(items[i])))
    case Obj(fields) =>
      M(seq(|fields|, i requires 0 <= i < |fields| => AttrField(fields[i].key, ToAttr(fields[i].value))))
  }

  // A measure for the walk: only combinators are descended into.

  function Size(j: Json): nat
    decreases j, 0
  {
    match j
    case Obj(fields) => 1 + SizeEntries(fields)
    case Arr(items) => 1 + SizeList(items)
    case _ => 1
  }

  function SizeEntries(es: seq<Field>): nat
    decreases es, 1
  {
    if es == [] then 0 else SizeEntries(es[..|es| - 1]) + SizeEntry(es[|es| - 1])
  }

  function SizeEntry(e: Field): nat
    decreases e, 1
  {
    if Combinator(e.key) then 2 + Size(e.value) else 0
  }

  function SizeList(items: seq<Json>): nat
    decreases items, 1
  {
    if items == [] then 0 else SizeList(items[..|items| - 1]) + 1 + Size(items[|items| - 1])
  }

  lemma {:induction false} PlainSize(es: seq<Field>)
    requires Plain(es)
    ensures SizeEntries(es) == 0
  {
    if es != [] {
      PlainSize(es[..|es| - 1]);
    }
  }

  lemma EntriesSize(j: Json)
    ensures SizeEntries(Entries(j)) < Size(j)
  {
    if !j.Obj? {
      PlainSize(Entries(j));
    }
  }

  /** The list under `and` / `or`: an array, or a single filter standing for itself. */
  function Alternatives(value: Json): seq<Json> {
    if value.Arr? then value.items else [value]
  }

  lemma AlternativesSize(value: Json)
    ensures SizeList(Alternatives(value)) < 2 + Size(value)
  {
    if !value.Arr? {
      assert [value][..0] == [];
    }
  }

  // ---------------------------------------------------------------- operators

  datatype Op =
    | CmpOp(cmp: Comparator)
    | FnOp(fn: Fn)
    | NotContainsOp
    | BetweenOp
    | InOp
    | ExistsOp

  /** The own properties of the `OPS` table. */
  function OpOf(op: string): Option<Op> {
    if op == "eq" then Some(CmpOp(Eq))
    else if op == "ne" then Some(CmpOp(Ne))
    else if op == "lt" then Some(CmpOp(Lt))
    else if op == "le" then Some(CmpOp(Le))
    else if op == "gt" then Some(CmpOp(Gt))
    else if op == "ge" then Some(CmpOp(Ge))
    else if op == "contains" then Some(FnOp(Contains))
    else if op == "notContains" then Some(NotContainsOp)
    else if op == "beginsWith" then Some(FnOp(BeginsWith))
    else if op == "between" then Some(BetweenOp)
    else if op == "in" then Some(InOp)
    else if op == "attributeExists" then Some(ExistsOp)
    else if op == "attributeType" then Some(FnOp(AttributeType))
    else None
  }

  // ---------------------------------------------------------------- clauses

  /** One value written by the walk, with the placeholder it goes under. */
  datatype Operand = Operand(field: string, op: string, index: Option<nat>, attr: Attr) {
    function Key(): string {
      ValueKey(field, op, index)
    }
  }

  datatype Clause =
    | Comparison(field: string, cmp: Comparator, v: Operand)
    | Applied(fn: Fn, field: string, v: Operand)
    | NotContains(field: string, v: Operand)
    | Present(field: string, present: bool)
    | Interval(field: string, lo: Operand, hi: Operand)
    | Member(field: string, vs: seq<Operand>)
    | Group(conj: bool, subs: seq<Conj>)
    | Negation(body: Conj)
    | Stray(part: Token)

  /** Clauses joined by AND. */
  datatype Conj = Conj(clauses: seq<Clause>)

  function InOperands(field: string, op: string, items: seq<Json>): (r: seq<Operand>)
    ensures |r| == |items|
    ensures forall i :: 0 <= i < |r| ==> r[i] == Operand(field, op, Some(i), ToAttr(items[i]))
  {
    seq(|items|, i requires 0 <= i < |items| => Operand(field, op, Some(i), ToAttr(items[i])))
  }

  /** The clause for one operator under a field, or the error the JavaScript code throws. */
  function LowerOp(field: string, op: string, v: Json): Result<Clause, string> {
    match OpOf(op)
    case None => LowerInherited(field, op)
    case Some(kind) => LowerKind(kind, field, op, v)
  }

  /** Functions of `Object.prototype` that return when called as `build(n, key, operand)`, without a receiver. */
  predicate Slips(op: string) {
    op in {"constructor", "toString", "isPrototypeOf"}
  }

  /** The other properties of `Object.prototype`: calling them so is a TypeError. */
  const RAISING := {
    "__defineGetter__", "__defineSetter__", "__lookupGetter__", "__lookupSetter__", "__proto__",
    "hasOwnProperty", "propertyIsEnumerable", "toLocaleString", "valueOf"}

  /**
    `OPS[op]` also finds what an object literal inherits: `Object` turns the placeholder into a
    string object, `toString` describes its missing receiver, and `isPrototypeOf` answers false.
   */
  function LowerInherited(field: string, op: string): Result<Clause, string> {
    if op == "constructor" then Success(Stray(Name(NameRef(field))))
    else if op == "toString" then Success(Stray(Word("[object Undefined]")))
    else if op == "isPrototypeOf" then Success(Stray(Word("false")))
    else if op in RAISING then Failure("TypeError")
    else Failure("util.transform: unsupported operator " + op)
  }

  function LowerKind(kind: Op, field: string, op: string, v: Json): Result<Clause, string> {
    match kind
    case CmpOp(c) => Success(Comparison(field, c, Operand(field, op, None, ToAttr(v))))
    case FnOp(f) => Success(Applied(f, field, Operand(field, op, None, ToAttr(v))))
    case NotContainsOp => Success(NotContains(field, Operand(field, op, None, ToAttr(v))))
    case BetweenOp =>
      Success(Interval(field, Operand(field, op, Some(0), ToAttr(At(v, 0))),
                              Operand(field, op, Some(1), ToAttr(At(v, 1)))))
    case InOp =>
      if v.Arr? then Success(Member(field, InOperands(field, op, v.items))) else Failure("v.map is not a function")
    case ExistsOp => Success(Present(field, Truthy(v)))
  }

  function LowerOps(field: string, ops: seq<Field>): Result<seq<Clause>, string> {
    if ops == [] then Success([])
    else
      match LowerOps(field, ops[..|ops| - 1])
      case Failure(e) => Failure(e)
      case Success(before) =>
        var o := ops[|ops| - 1];
        if Missing(o.value) then Success(before)
        else
          match LowerOp(field, o.key, o.value)
          case Failure(e) => Failure(e)
          case Success(c) => Success(before + [c])
  }

  function Lower(node: Json): Result<seq<Clause>, string>
    decreases Size(node), 0
  {
    EntriesSize(node);
    LowerEntries(Entries(node))
  }

  function LowerEntries(es: seq<Field>): Result<seq<Clause>, string>
    decreases SizeEntries(es), |es|
  {
    if es == [] then Success([])
    else
      match LowerEntries(es[..|es| - 1])
      case Failure(e) => Failure(e)
      case Success(before) =>
        match LowerEntry(es[|es| - 1])
        case Failure(e) => Failure(e)
        case Success(cs) => Success(before + cs)
  }

  function LowerEntry(e: Field): Result<seq<Clause>, string>
    decreases SizeEntry(e), 0
  {
    if Missing(e.value) then Success([])
    else if e.key == "and" || e.key == "or" then
      AlternativesSize(e.value);
      match LowerList(Alternatives(e.value))
      case Failure(err) => Failure(err)
      case Success(subs) => Success(if subs == [] then [] else [Group(e.key == "and", subs)])
    else if e.key == "not" then
      match Lower(e.value)
      case Failure(err) => Failure(err)
      case Success(body) => Success(if body == [] then [] else [Negation(Conj(body))])
    else
      LowerOps(e.key, Entries(e.value))
  }

  /** The sub-filters of a list, without those that contribute nothing. */
  function LowerList(items: seq<Json>): Result<seq<Conj>, string>
    decreases SizeList(items), |items|
  {
    if items == [] then Success([])
    else
      match LowerList(items[..|items| - 1])
      case Failure(e) => Failure(e)
      case Success(before) =>
        match Lower(items[|items| - 1])
        case Failure(e) => Failure(e)
        case Success(cs) => Success(if cs == [] then before else before + [Conj(cs)])
  }

  // ---------------------------------------------------------------- printing

  function NameRef(field: string): string {
    "#" + field
  }

  function Values(vs: seq<Operand>): seq<Token> {
    if vs == [] then []
    else if |vs| == 1 then [Val(vs[0].Key())]
    else Values(vs[..|vs| - 1]) + [Comma, Val(vs[|vs| - 1].Key())]
  }

  function Print(c: Clause): seq<Token>
    decreases c, 0
  {
    match c
    case Comparison(f, cmp, v) => [Name(NameRef(f)), Cmp(cmp), Val(v.Key())]
    case Applied(fn, f, v) => [Call(fn), LParen, Name(NameRef(f)), Comma, Val(v.Key()), RParen]
    case NotContains(f, v) => [NOT, Call(Contains), LParen, Name(NameRef(f)), Comma, Val(v.Key()), RParen]
    case Present(f, p) =>
      [Call(if p then AttributeExists else AttributeNotExists), LParen, Name(NameRef(f)), RParen]
    case Interval(f, lo, hi) => [Name(NameRef(f)), BETWEEN, Val(lo.Key()), AND, Val(hi.Key())]
    case Member(f, vs) => [Name(NameRef(f)), IN, LParen] + Values(vs) + [RParen]
    case Group(conj, subs) => [LParen] + Join(PrintAlternatives(subs), if conj then AND else OR) + [RParen]
    case Negation(body) => [NOT, LParen] + PrintConj(body) + [RParen]
    case Stray(part) => [part]
  }

  function PrintConj(body: Conj): seq<Token>
    decreases body, 1
  {
    Join(PrintClauses(body.clauses), AND)
  }

  function PrintClauses(cs: seq<Clause>): (r: seq<seq<Token>>)
    ensures |r| == |cs|
    decreases cs, 1
  {
    if cs == [] then [] else PrintClauses(cs[..|cs| - 1]) + [Print(cs[|cs| - 1])]
  }

  function PrintAlternatives(subs: seq<Conj>): (r: seq<seq<Token>>)
    ensures |r| == |subs|
    decreases subs, 1
  {
    if subs == [] then [] else PrintAlternatives(subs[..|subs| - 1]) + [PrintConj(subs[|subs| - 1])]
  }

  /** `parts.join(separator)`. */
  function Join(parts: seq<seq<Token>>, separator: Token): seq<Token> {
    if parts == [] then []
    else if |parts| == 1 then parts[0]
    else Join(parts[..|parts| - 1], separator) + [separator] + parts[|parts| - 1]
  }
}
