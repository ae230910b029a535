/**
  What a filter of `ministack/core/appsync_js.py` says about an item, and the clauses it is lowered to
  say the same, whichever values its operands are read with.
 */
module FilterMeaning {
  import opened Results
  import opened ConditionExpressions
  import opened PlaceholderKeys
  import opened FilterTransform
  import opened FilterParsing

  // ---------------------------------------------------------------- other values for operands

  /** All that tells one operand of a filter from another in the emitted tables. */
  datatype Slot = Slot(field: string, op: string, index: Option<nat>)

  /** Values to read instead of a filter's own operands. */
  type Override = map<Slot, Attr>

  function Seen(m: Override, slot: Slot, own: Attr): Attr {
    if slot in m then m[slot] else own
  }

  function SlotOf(o: Operand): Slot {
    Slot(o.field, o.op, o.index)
  }

  function Reread(o: Operand, m: Override): Operand {
    o.(attr := Seen(m, SlotOf(o), o.attr))
  }

  /** What each slot was used for last. */
  function Last(os: seq<Operand>): Override {
    if os == [] then map[] else Last(os[..|os| - 1])[SlotOf(os[|os| - 1]) := os[|os| - 1].attr]
  }

  // ---------------------------------------------------------------- JavaScript values

  /** No operand, and no sub-filter. */
  predicate Absent(j: Json) {
    j.Null? || j.Undefined?
  }

  /** The own enumerable properties, in order; primitives other than text have none. */
  function Properties(j: Json): seq<Field> {
    if j.Obj? then j.fields
    else if j.Arr? then Indexed(j.items)
    else if j.Str? then Indexed(seq(|j.s|, i requires 0 <= i < |j.s| => Str([j.s[i]])))
    else []
  }

  function Indexed(items: seq<Json>): seq<Field> {
    if items == [] then [] else Indexed(items[..|items| - 1]) + [Field(Decimal(|items| - 1), items[|items| - 1])]
  }

  /** The value of the first property of that name. */
  function PropertyOf(props: seq<Field>, key: string): Json {
    if props == [] then Undefined
    else
      var earlier := props[..|props| - 1];
      if exists p <- earlier :: p.key == key then PropertyOf(earlier, key)
      else if props[|props| - 1].key == key then props[|props| - 1].value else Undefined
  }

  /** `v[i]` is a property like any other. */
  function Element(v: Json, i: nat): Json {
    PropertyOf(Properties(v), Decimal(i))
  }

  /** What DynamoDB is sent for a value. */
  function AttrFor(j: Json): Attr {
    if j.Bool? then BOOL(j.b)
    else if j.Num? then N(j.text)
    else if j.Str? then S(j.s)
    else if j.Arr? then L(seq(|j.items|, i requires 0 <= i < |j.items| => AttrFor(j.items[i])))
    else if j.Obj? then M(seq(|j.fields|, i requires 0 <= i < |j.fields| => AttrField(j.fields[i].key, AttrFor(j.fields[i].value))))
    else NullAttr
  }

  /** The values an `if` takes its first branch for: all but these six. */
  predicate IsTrue(j: Json) {
    j !in {Undefined, Null, Bool(false), Num("0"), Num("NaN"), Str("")}
  }

  // The walk's own readings of a value come to the same.

  lemma {:induction false} IndexedAt(items: seq<Json>)
    ensures |Indexed(items)| == |items| && forall i :: 0 <= i < |items| ==> Indexed(items)[i] == Field(Decimal(i), items[i])
  {
    hide Decimal;
    if items != [] {
      IndexedAt(items[..|items| - 1]);
    }
  }

  lemma PropertiesAre(j: Json)
    ensures Properties(j) == Entries(j)
  {
    if j.Arr? {
      IndexedAt(j.items);
    } else if j.Str? {
      IndexedAt(seq(|j.s|, i requires 0 <= i < |j.s| => Str([j.s[i]])));
    }
  }

  lemma PropertiesSize(j: Json)
    ensures SizeEntries(Properties(j)) < Size(j)
  {
    PropertiesAre(j);
    EntriesSize(j);
  }

  /** Where the first property of a name stands. */
  lemma {:induction false} PropertyAt(props: seq<Field>, key: string, k: nat)
    requires k <= |props| && forall j :: 0 <= j < k ==> props[j].key != key
    ensures k < |props| && props[k].key == key ==> PropertyOf(props, key) == props[k].value
    ensures k == |props| ==> PropertyOf(props, key) == Undefined
  {
    if props != [] {
      var last := |props| - 1;
      var earlier := props[..last];
      if k < last {
        PropertyAt(earlier, key, k);
        if props[k].key == key {
          assert earlier[k] in earlier;
        }
      } else {
        forall p | p in earlier ensures p.key != key {
          var j :| 0 <= j < |earlier| && earlier[j] == p;
        }
      }
    }
  }

  lemma {:induction false} PropertyIs(props: seq<Field>, key: string, k: nat)
    requires k <= |props| && forall j :: 0 <= j < k ==> props[j].key != key
    ensures PropertyOf(props, key) == Property(props[k..], key)
    decreases |props| - k
  {
    PropertyAt(props, key, k);
    if k < |props| && props[k].key != key {
      PropertyIs(props, key, k + 1);
      assert props[k..][1..] == props[k + 1..];
    }
  }

  lemma IndexedElement(items: seq<Json>, i: nat)
    ensures PropertyOf(Indexed(items), Decimal(i)) == if i < |items| then items[i] else Undefined
  {
    IndexedAt(items);
    var props, k := Indexed(items), if i < |items| then i else |items|;
    forall j | 0 <= j < k ensures props[j].key != Decimal(i) {
      if Decimal(j) == Decimal(i) {
        DecimalInjective(j, i);
      }
    }
    PropertyAt(props, Decimal(i), k);
  }

  lemma ElementIs(v: Json, i: nat)
    ensures Element(v, i) == At(v, i)
  {
    match v
    case Arr(items) => IndexedElement(items, i);
    case Str(s) => IndexedElement(seq(|s|, j requires 0 <= j < |s| => Str([s[j]])), i);
    case Obj(fields) =>
      PropertyIs(fields, Decimal(i), 0);
      assert fields[0..] == fields;
    case _ =>
  }

  lemma {:induction false} AttrIs(j: Json)
    ensures AttrFor(j) == ToAttr(j)
  {
    match j
    case Arr(items) =>
      forall i | 0 <= i < |items| ensures AttrFor(items[i]) == ToAttr(items[i]) {
        AttrIs(items[i]);
      }
    case Obj(fields) =>
      forall i | 0 <= i < |fields| ensures AttrFor(fields[i].value) == ToAttr(fields[i].value) {
        AttrIs(fields[i].value);
      }
    case _ =>
  }

  // ---------------------------------------------------------------- what a filter means

  function Meet(a: Option<bool>, b: Option<bool>): Option<bool> {
    if a.None? then b else if b.None? then a else Some(a.value && b.value)
  }

  function Either(a: Option<bool>, b: Option<bool>): Option<bool> {
    if a.None? then b else if b.None? then a else Some(a.value || b.value)
  }

  /**
    The truth of one operator under a field: AppSync's thirteen, and none outside them, but an inherited
    name is met by no item. The bounds of `between` and the values of `in` are the operand's elements.
   */
  ghost function OpMeaning(field: string, op: string, v: Json, m: Override, item: Item, db: Primitives): Option<bool> {
    var actual := if field in item then Some(item[field]) else None;
    var value := Seen(m, Slot(field, op, None), AttrFor(v));
    if op == "eq" then Some(db.compare(Eq, actual, value))
    else if op == "ne" then Some(db.compare(Ne, actual, value))
    else if op == "lt" then Some(db.compare(Lt, actual, value))
    else if op == "le" then Some(db.compare(Le, actual, value))
    else if op == "gt" then Some(db.compare(Gt, actual, value))
    else if op == "ge" then Some(db.compare(Ge, actual, value))
    else if op == "contains" then Some(db.test(Contains, actual, value))
    else if op == "notContains" then Some(!db.test(Contains, actual, value))
    else if op == "beginsWith" then Some(db.test(BeginsWith, actual, value))
    else if op == "attributeType" then Some(db.test(AttributeType, actual, value))
    else if op == "between" then Some(InRange(field, v, m, actual, db))
    else if op == "in" then if v.Arr? then Some(AmongItems(field, v.items, m, actual, db)) else None
    else if op == "attributeExists" then Some(actual.Some? <==> IsTrue(v))
    else if op == "constructor" || op == "toString" || op == "isPrototypeOf" then Some(false)
    else None
  }

  predicate InRange(field: string, v: Json, m: Override, actual: Option<Attr>, db: Primitives) {
    && db.compare(Ge, actual, Seen(m, Slot(field, "between", Some(0)), AttrFor(Element(v, 0))))
    && db.compare(Le, actual, Seen(m, Slot(field, "between", Some(1)), AttrFor(Element(v, 1))))
  }

  ghost predicate AmongItems(field: string, items: seq<Json>, m: Override, actual: Option<Attr>, db: Primitives) {
    exists i: nat :: i < |items| && db.compare(Eq, actual, Seen(m, Slot(field, "in", Some(i)), AttrFor(items[i])))
  }

  ghost function OpsMeaning(field: string, ops: seq<Field>, m: Override, item: Item, db: Primitives): Option<bool> {
    if ops == [] then None
    else
      var o := ops[|ops| - 1];
      Meet(OpsMeaning(field, ops[..|ops| - 1], m, item, db),
           if Absent(o.value) then None else OpMeaning(field, o.key, o.value, m, item, db))
  }

  /** The truth value of a filter on an item; None for a filter that says nothing. */
  ghost function Meaning(node: Json, item: Item, db: Primitives): Option<bool> {
    MeaningWith(node, map[], item, db)
  }

  /** The same with some operands replaced. */
  ghost function MeaningWith(node: Json, m: Override, item: Item, db: Primitives): Option<bool>
    decreases Size(node), 0
  {
    PropertiesSize(node);
    EntriesMeaning(Properties(node), m, item, db)
  }

  ghost function EntriesMeaning(es: seq<Field>, m: Override, item: Item, db: Primitives): Option<bool>
    decreases SizeEntries(es), |es|
  {
    if es == [] then None
    else Meet(EntriesMeaning(es[..|es| - 1], m, item, db), EntryMeaning(es[|es| - 1], m, item, db))
  }

  ghost function EntryMeaning(e: Field, m: Override, item: Item, db: Primitives): Option<bool>
    decreases SizeEntry(e), 0
  {
    if Absent(e.value) then None
    else if e.key == "and" || e.key == "or" then
      AlternativesSize(e.value);
      ListMeaning(if e.value.Arr? then e.value.items else [e.value], e.key == "and", m, item, db)
    else if e.key == "not" then
      match MeaningWith(e.value, m, item, db)
      case None => None
      case Some(b) => Some(!b)
    else
      OpsMeaning(e.key, Properties(e.value), m, item, db)
  }

  ghost function ListMeaning(items: seq<Json>, conj: bool, m: Override, item: Item, db: Primitives): Option<bool>
    decreases SizeList(items), |items|
  {
    if items == [] then None
    else
      var before := ListMeaning(items[..|items| - 1], conj, m, item, db);
      var last := MeaningWith(items[|items| - 1], m, item, db);
      if conj then Meet(before, last) else Either(before, last)
  }

  // ---------------------------------------------------------------- clauses with operands replaced

  function Swap(c: Clause, m: Override): Clause
    decreases c, 0
  {
    match c
    case Comparison(f, cmp, v) => Comparison(f, cmp, Reread(v, m))
    case Applied(fn, f, v) => Applied(fn, f, Reread(v, m))
    case NotContains(f, v) => NotContains(f, Reread(v, m))
    case Interval(f, lo, hi) => Interval(f, Reread(lo, m), Reread(hi, m))
    case Member(f, vs) => Member(f, RereadAll(vs, m))
    case Group(conj, subs) => Group(conj, SwapSubs(subs, m))
    case Negation(body) => Negation(Conj(SwapAll(body.clauses, m)))
    case Present(_, _) => c
    case Stray(_) => c
  }

  function RereadAll(vs: seq<Operand>, m: Override): (r: seq<Operand>)
    ensures |r| == |vs| && forall i :: 0 <= i < |r| ==> r[i] == Reread(vs[i], m)
  {
    seq(|vs|, i requires 0 <= i < |vs| => Reread(vs[i], m))
  }

  function SwapAll(cs: seq<Clause>, m: Override): (r: seq<Clause>)
    ensures |r| == |cs| && forall i :: 0 <= i < |r| ==> r[i] == Swap(cs[i], m)
    decreases cs, 1
  {
    seq(|cs|, i requires 0 <= i < |cs| => Swap(cs[i], m))
  }

  function SwapSubs(subs: seq<Conj>, m: Override): (r: seq<Conj>)
    ensures |r| == |subs| && forall i :: 0 <= i < |r| ==> r[i] == Conj(SwapAll(subs[i].clauses, m))
    decreases subs, 1
  {
    seq(|subs|, i requires 0 <= i < |subs| => Conj(SwapAll(subs[i].clauses, m)))
  }

  lemma SwapAppend(a: seq<Clause>, b: seq<Clause>, m: Override)
    ensures SwapAll(a + b, m) == SwapAll(a, m) + SwapAll(b, m)
  {
  }

  lemma SwapSingle(c: Clause, m: Override)
    ensures SwapAll([c], m) == [Swap(c, m)]
  {
  }

  // The text of a clause does not show its operands' values, and its shape does not depend on them.

  lemma {:induction false} ValuesReread(vs: seq<Operand>, m: Override)
    ensures Values(RereadAll(vs, m)) == Values(vs)
  {
    if |vs| > 1 {
      ValuesReread(vs[..|vs| - 1], m);
      assert RereadAll(vs, m)[..|vs| - 1] == RereadAll(vs[..|vs| - 1], m);
    }
  }

  lemma {:induction false} SwapPrints(c: Clause, m: Override)
    ensures Print(Swap(c, m)) == Print(c)
    decreases c, 0
  {
    match c
    case Member(_, vs) => ValuesReread(vs, m);
    case Group(_, subs) => SubsPrint(subs, m);
    case Negation(body) => ClausesPrint(body.clauses, m);
    case _ =>
  }

  lemma {:induction false} ClausesPrint(cs: seq<Clause>, m: Override)
    ensures PrintClauses(SwapAll(cs, m)) == PrintClauses(cs)
    decreases cs, 1
  {
    hide Print, Swap;
    if cs != [] {
      var last := |cs| - 1;
      ClausesPrint(cs[..last], m);
      SwapPrints(cs[last], m);
      assert SwapAll(cs, m)[..last] == SwapAll(cs[..last], m);
    }
  }

  lemma {:induction false} SubsPrint(subs: seq<Conj>, m: Override)
    ensures PrintAlternatives(SwapSubs(subs, m)) == PrintAlternatives(subs)
    decreases subs, 1
  {
    hide PrintClauses, SwapAll;
    if subs != [] {
      var last := |subs| - 1;
      SubsPrint(subs[..last], m);
      ClausesPrint(subs[last].clauses, m);
      assert PrintConj(SwapSubs(subs, m)[last]) == PrintConj(subs[last]);
      assert SwapSubs(subs, m)[..last] == SwapSubs(subs[..last], m);
    }
  }

  lemma {:induction false} SwapShape(c: Clause, m: Override)
    ensures Parsable(Swap(c, m)) <==> Parsable(c)
    ensures Proper(Swap(c, m)) <==> Proper(c)
    decreases c, 0
  {
    hide AllParsable, AllProper, Reread, RereadAll, SwapAll, SwapSubs;
    match c
    case Group(_, subs) => SubsShape(subs, m);
    case Negation(body) => ClausesShape(body.clauses, m);
    case _ =>
  }

  lemma {:induction false} ClausesShape(cs: seq<Clause>, m: Override)
    ensures AllParsable(SwapAll(cs, m)) <==> AllParsable(cs)
    ensures AllProper(SwapAll(cs, m)) <==> AllProper(cs)
    decreases cs, 1
  {
    var r := SwapAll(cs, m);
    forall i | 0 <= i < |cs|
      ensures (Parsable(r[i]) <==> Parsable(cs[i])) && (Proper(r[i]) <==> Proper(cs[i])) && r[i] in r && cs[i] in cs
    {
      SwapShape(cs[i], m);
    }
  }

  lemma {:induction false} SubsShape(subs: seq<Conj>, m: Override)
    ensures SubsParsable(SwapSubs(subs, m)) <==> SubsParsable(subs)
    ensures SubsProper(SwapSubs(subs, m)) <==> SubsProper(subs)
    decreases subs, 1
  {
    var r := SwapSubs(subs, m);
    forall i | 0 <= i < |subs|
      ensures AllParsable(r[i].clauses) <==> AllParsable(subs[i].clauses)
      ensures AllProper(r[i].clauses) <==> AllProper(subs[i].clauses)
      ensures r[i] in r && subs[i] in subs && |r[i].clauses| == |subs[i].clauses|
    {
      ClausesShape(subs[i].clauses, m);
    }
  }

  // ---------------------------------------------------------------- lowering keeps the meaning

  /** The value of a list of clauses: none for the empty list. */
  ghost function ConjValue(cs: seq<Clause>, m: Override, item: Item, db: Primitives): Option<bool> {
    if cs == [] then None else Some(AllHold(SwapAll(cs, m), item, db))
  }

  lemma OpLowered(field: string, op: string, v: Json, m: Override, item: Item, db: Primitives)
    requires LowerOp(field, op, v).Success?
    ensures OpMeaning(field, op, v, m, item, db) == Some(Holds(Swap(LowerOp(field, op, v).value, m), item, db))
  {
    if OpOf(op).None? {
      InheritedLowered(field, op, v, m, item, db);
    } else if op == "between" {
      BetweenLowered(field, v, m, item, db);
    } else if op == "in" {
      InLowered(field, v.items, m, item, db);
    } else {
      AttrIs(v);
      SingleLowered(field, op, v, m, item, db);
    }
    hide LowerOp, OpMeaning, Swap, Holds;
  }

  lemma InheritedLowered(field: string, op: string, v: Json, m: Override, item: Item, db: Primitives)
    requires OpOf(op).None? && LowerOp(field, op, v).Success?
    ensures OpMeaning(field, op, v, m, item, db) == Some(Holds(Swap(LowerOp(field, op, v).value, m), item, db))
  {
  }

  lemma SingleLowered(field: string, op: string, v: Json, m: Override, item: Item, db: Primitives)
    requires OpOf(op).Some? && op != "between" && op != "in" && AttrFor(v) == ToAttr(v)
    ensures OpMeaning(field, op, v, m, item, db) == Some(Holds(Swap(LowerOp(field, op, v).value, m), item, db))
  {
    if OpOf(op).value.CmpOp? {
      ComparisonLowered(field, op, v, m, item, db);
    } else if op == "attributeExists" {
      PresenceLowered(field, v, m, item, db);
    } else {
      FunctionLowered(field, op, v, m, item, db);
    }
    hide AttrFor, ToAttr, LowerOp, Holds, Swap, OpMeaning;
  }

  lemma PresenceLowered(field: string, v: Json, m: Override, item: Item, db: Primitives)
    ensures OpMeaning(field, "attributeExists", v, m, item, db)
         == Some(Holds(Swap(LowerOp(field, "attributeExists", v).value, m), item, db))
  {
    ExistsLowered(field, v, m, item, db);
    hide AttrFor, LowerOp, Holds, Swap, IsTrue;
  }

  lemma FunctionLowered(field: string, op: string, v: Json, m: Override, item: Item, db: Primitives)
    requires op in {"contains", "notContains", "beginsWith", "attributeType"} && AttrFor(v) == ToAttr(v)
    ensures OpMeaning(field, op, v, m, item, db) == Some(Holds(Swap(LowerOp(field, op, v).value, m), item, db))
  {
    TestLowered(field, op, v, m, item, db);
    hide AttrFor, ToAttr, LowerOp, Holds, Swap;
  }

  lemma ComparisonLowered(field: string, op: string, v: Json, m: Override, item: Item, db: Primitives)
    requires OpOf(op).Some? && OpOf(op).value.CmpOp? && AttrFor(v) == ToAttr(v)
    ensures OpMeaning(field, op, v, m, item, db) == Some(Holds(Swap(LowerOp(field, op, v).value, m), item, db))
  {
    CompareLowered(field, op, OpOf(op).value.cmp, v, m, item, db);
    hide AttrFor, ToAttr, LowerOp, Holds, Swap;
  }

  lemma CompareLowered(field: string, op: string, c: Comparator, v: Json, m: Override, item: Item, db: Primitives)
    requires OpOf(op) == Some(CmpOp(c))
    ensures LowerOp(field, op, v).Success? && Holds(Swap(LowerOp(field, op, v).value, m), item, db)
       == db.compare(c, if field in item then Some(item[field]) else None, Seen(m, Slot(field, op, None), ToAttr(v)))
  {
    hide OpOf, ToAttr;
  }

  lemma TestLowered(field: string, op: string, v: Json, m: Override, item: Item, db: Primitives)
    requires op in {"contains", "notContains", "beginsWith", "attributeType"}
    ensures LowerOp(field, op, v).Success?
    ensures var actual, value := if field in item then Some(item[field]) else None, Seen(m, Slot(field, op, None), ToAttr(v));
            var holds := Holds(Swap(LowerOp(field, op, v).value, m), item, db);
            && (op == "contains" ==> holds == db.test(Contains, actual, value))
            && (op == "notContains" ==> holds == !db.test(Contains, actual, value))
            && (op == "beginsWith" ==> holds == db.test(BeginsWith, actual, value))
            && (op == "attributeType" ==> holds == db.test(AttributeType, actual, value))
  {
    hide ToAttr;
  }

  lemma ExistsLowered(field: string, v: Json, m: Override, item: Item, db: Primitives)
    ensures LowerOp(field, "attributeExists", v).Success?
    ensures Holds(Swap(LowerOp(field, "attributeExists", v).value, m), item, db) == (field in item <==> IsTrue(v))
  {
  }

  lemma BetweenLowered(field: string, v: Json, m: Override, item: Item, db: Primitives)
    ensures OpMeaning(field, "between", v, m, item, db) == Some(Holds(Swap(LowerOp(field, "between", v).value, m), item, db))
  {
    ElementIs(v, 0);
    ElementIs(v, 1);
    AttrIs(At(v, 0));
    AttrIs(At(v, 1));
    hide AttrFor, ToAttr, At, Element;
  }

  lemma InLowered(field: string, items: seq<Json>, m: Override, item: Item, db: Primitives)
    ensures OpMeaning(field, "in", Arr(items), m, item, db) == Some(Holds(Swap(LowerOp(field, "in", Arr(items)).value, m), item, db))
  {
    var vs := RereadAll(InOperands(field, "in", items), m);
    forall i: nat | i < |items| ensures vs[i] in vs && vs[i].attr == Seen(m, Slot(field, "in", Some(i)), AttrFor(items[i])) {
      AttrIs(items[i]);
    }
    hide AttrFor, ToAttr;
  }

  lemma {:induction false} OpsLowered(field: string, ops: seq<Field>, m: Override, item: Item, db: Primitives)
    requires LowerOps(field, ops).Success?
    ensures ConjValue(LowerOps(field, ops).value, m, item, db) == OpsMeaning(field, ops, m, item, db)
  {
    if ops != [] {
      var before := ops[..|ops| - 1];
      var o := ops[|ops| - 1];
      OpsLowered(field, before, m, item, db);
      if !Missing(o.value) {
        var c := LowerOp(field, o.key, o.value).value;
        OpLowered(field, o.key, o.value, m, item, db);
        ConjAppend(LowerOps(field, before).value, [c], m, item, db);
        SingleHolds(c, m, item, db);
      }
    }
  }

  lemma ConjAppend(a: seq<Clause>, b: seq<Clause>, m: Override, item: Item, db: Primitives)
    ensures ConjValue(a + b, m, item, db) == Meet(ConjValue(a, m, item, db), ConjValue(b, m, item, db))
  {
    SwapAppend(a, b, m);
    var x, y := SwapAll(a, m), SwapAll(b, m);
    assert AllHold(x + y, item, db) <==> AllHold(x, item, db) && AllHold(y, item, db) by {
      assert forall c :: c in x + y <==> c in x || c in y;
    }
    assert a == [] ==> a + b == b;
    assert b == [] ==> a + b == a;
  }

  /** The clauses of a node mean what the node means, whatever values its operands are read with. */
  lemma {:induction false} Lowered(node: Json, m: Override, item: Item, db: Primitives)
    requires Lower(node).Success?
    ensures ConjValue(Lower(node).value, m, item, db) == MeaningWith(node, m, item, db)
    decreases Size(node), 0
  {
    EntriesSize(node);
    PropertiesAre(node);
    EntriesLowered(Entries(node), m, item, db);
  }

  lemma {:induction false} EntriesLowered(es: seq<Field>, m: Override, item: Item, db: Primitives)
    requires LowerEntries(es).Success?
    ensures ConjValue(LowerEntries(es).value, m, item, db) == EntriesMeaning(es, m, item, db)
    decreases SizeEntries(es), |es|
  {
    if es != [] {
      var before, e := es[..|es| - 1], es[|es| - 1];
      EntriesLowered(before, m, item, db);
      EntryLowered(e, m, item, db);
      ConjAppend(LowerEntries(before).value, LowerEntry(e).value, m, item, db);
      hide ConjValue, LowerEntry, EntryMeaning;
    }
  }

  lemma {:induction false} EntryLowered(e: Field, m: Override, item: Item, db: Primitives)
    requires LowerEntry(e).Success?
    ensures ConjValue(LowerEntry(e).value, m, item, db) == EntryMeaning(e, m, item, db)
    decreases SizeEntry(e), 0
  {
    if Missing(e.value) {
    } else if e.key == "and" || e.key == "or" {
      AlternativesSize(e.value);
      ListLowered(Alternatives(e.value), e.key == "and", m, item, db);
      GroupValue(e.key == "and", LowerList(Alternatives(e.value)).value, m, item, db);
    } else if e.key == "not" {
      Lowered(e.value, m, item, db);
      NegationValue(Lower(e.value).value, m, item, db);
    } else {
      PropertiesAre(e.value);
      OpsLowered(e.key, Entries(e.value), m, item, db);
    }
    hide LowerOps, Lower, LowerList, MeaningWith, ListMeaning, OpsMeaning, Entries, Properties, ConjValue, SubsValue;
  }

  lemma SingleHolds(c: Clause, m: Override, item: Item, db: Primitives)
    ensures ConjValue([c], m, item, db) == Some(Holds(Swap(c, m), item, db))
  {
    SwapSingle(c, m);
    assert Swap(c, m) in [Swap(c, m)];
  }

  ghost function SubsValue(subs: seq<Conj>, conj: bool, m: Override, item: Item, db: Primitives): Option<bool> {
    if subs == [] then None
    else Some(if conj then EverySub(SwapSubs(subs, m), item, db) else SomeSub(SwapSubs(subs, m), item, db))
  }

  lemma GroupValue(conj: bool, subs: seq<Conj>, m: Override, item: Item, db: Primitives)
    ensures ConjValue(if subs == [] then [] else [Group(conj, subs)], m, item, db) == SubsValue(subs, conj, m, item, db)
  {
    if subs != [] {
      SingleHolds(Group(conj, subs), m, item, db);
    }
  }

  lemma NegationValue(body: seq<Clause>, m: Override, item: Item, db: Primitives)
    ensures ConjValue(if body == [] then [] else [Negation(Conj(body))], m, item, db)
         == match ConjValue(body, m, item, db) case None => None case Some(b) => Some(!b)
  {
    if body != [] {
      SingleHolds(Negation(Conj(body)), m, item, db);
    }
  }

  lemma {:induction false} ListLowered(items: seq<Json>, conj: bool, m: Override, item: Item, db: Primitives)
    requires LowerList(items).Success?
    ensures SubsValue(LowerList(items).value, conj, m, item, db) == ListMeaning(items, conj, m, item, db)
    decreases SizeList(items), |items|
  {
    if items != [] {
      var before, last := items[..|items| - 1], items[|items| - 1];
      ListLowered(before, conj, m, item, db);
      Lowered(last, m, item, db);
      SubsAppend(LowerList(before).value, Lower(last).value, conj, m, item, db);
      hide SubsValue, ConjValue, Lower, MeaningWith;
    }
  }

  lemma SubsAppend(subs: seq<Conj>, cs: seq<Clause>, conj: bool, m: Override, item: Item, db: Primitives)
    ensures var before, last := SubsValue(subs, conj, m, item, db), ConjValue(cs, m, item, db);
            SubsValue(if cs == [] then subs else subs + [Conj(cs)], conj, m, item, db)
            == if conj then Meet(before, last) else Either(before, last)
  {
    if cs != [] {
      var sub := Conj(SwapAll(cs, m));
      assert SwapSubs(subs + [Conj(cs)], m) == SwapSubs(subs, m) + [sub];
      JoinedSubs(SwapSubs(subs, m), sub, item, db);
      NoSubs(Tables(map[], map[]), item, db);
      hide EverySub, SomeSub, AllHold, Swap;
    }
  }

  lemma JoinedSubs(subs: seq<Conj>, sub: Conj, item: Item, db: Primitives)
    ensures EverySub(subs + [sub], item, db) <==> EverySub(subs, item, db) && AllHold(sub.clauses, item, db)
    ensures SomeSub(subs + [sub], item, db) <==> SomeSub(subs, item, db) || AllHold(sub.clauses, item, db)
  {
    hide AllHold;
    assert forall s :: s in subs + [sub] <==> s in subs || s == sub;
  }

  // ---------------------------------------------------------------- shape of the lowered clauses

  lemma {:induction false} LoweredProper(node: Json)
    requires Lower(node).Success?
    ensures AllProper(Lower(node).value)
    decreases Size(node), 0
  {
    EntriesSize(node);
    EntriesProper(Entries(node));
  }

  lemma {:induction false} EntriesProper(es: seq<Field>)
    requires LowerEntries(es).Success?
    ensures AllProper(LowerEntries(es).value)
    decreases SizeEntries(es), |es|
  {
    if es != [] {
      var before, e := es[..|es| - 1], es[|es| - 1];
      EntriesProper(before);
      EntryProper(e);
    }
  }

  lemma {:induction false} EntryProper(e: Field)
    requires LowerEntry(e).Success?
    ensures AllProper(LowerEntry(e).value)
    decreases SizeEntry(e), 0
  {
    if Missing(e.value) {
    } else if e.key == "and" || e.key == "or" {
      AlternativesSize(e.value);
      ListProper(Alternatives(e.value));
    } else if e.key == "not" {
      LoweredProper(e.value);
    } else {
      OpsProper(e.key, Entries(e.value));
    }
  }

  lemma {:induction false} ListProper(items: seq<Json>)
    requires LowerList(items).Success?
    ensures SubsProper(LowerList(items).value)
    decreases SizeList(items), |items|
  {
    if items != [] {
      ListProper(items[..|items| - 1]);
      LoweredProper(items[|items| - 1]);
    }
  }

  lemma {:induction false} OpsProper(field: string, ops: seq<Field>)
    requires LowerOps(field, ops).Success?
    ensures AllProper(LowerOps(field, ops).value)
  {
    if ops != [] {
      OpsProper(field, ops[..|ops| - 1]);
    }
  }
}
