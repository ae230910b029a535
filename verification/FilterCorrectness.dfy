/**
  What the output of the filter transform in `ministack/core/appsync_js.py` means: the compiled
  expression, read with DynamoDB's precedence and the emitted tables, has the truth value of the filter.
 */
module FilterCorrectness {
  import opened Results
  import opened ConditionExpressions
  import opened PlaceholderKeys
  import opened FilterTransform
  import opened FilterParsing
  import opened FilterMeaning

  // ---------------------------------------------------------------- the tables

  function OperandsOf(c: Clause): seq<Operand>
    decreases c, 0
  {
    match c
    case Comparison(_, _, v) => [v]
    case Applied(_, _, v) => [v]
    case NotContains(_, v) => [v]
    case Present(_, _) => []
    case Interval(_, lo, hi) => [lo, hi]
    case Member(_, vs) => vs
    case Group(_, subs) => SubOperands(subs)
    case Negation(body) => Operands(body.clauses)
    case Stray(_) => []
  }

  /** Every value written for these clauses, in the order of writing. */
  function Operands(cs: seq<Clause>): seq<Operand>
    decreases cs, 1
  {
    if cs == [] then [] else Operands(cs[..|cs| - 1]) + OperandsOf(cs[|cs| - 1])
  }

  function SubOperands(subs: seq<Conj>): seq<Operand>
    decreases subs, 1
  {
    if subs == [] then [] else SubOperands(subs[..|subs| - 1]) + Operands(subs[|subs| - 1].clauses)
  }

  /** The value table after these writes: later ones replace earlier ones. */
  function Written(values: map<string, Attr>, os: seq<Operand>): map<string, Attr> {
    if os == [] then values
    else Written(values, os[..|os| - 1])[os[|os| - 1].Key() := os[|os| - 1].attr]
  }

  lemma {:induction false} WrittenAppend(values: map<string, Attr>, a: seq<Operand>, b: seq<Operand>)
    ensures Written(values, a + b) == Written(Written(values, a), b)
  {
    if b == [] {
      assert a + b == a;
    } else {
      var last := |b| - 1;
      assert (a + b)[..|a + b| - 1] == a + b[..last];
      WrittenAppend(values, a, b[..last]);
    }
  }

  lemma {:induction false} OperandsAppend(a: seq<Clause>, b: seq<Clause>)
    ensures Operands(a + b) == Operands(a) + Operands(b)
  {
    hide OperandsOf;
    if b == [] {
      assert a + b == a;
    } else {
      var last := |b| - 1;
      assert (a + b)[..|a + b| - 1] == a + b[..last];
      OperandsAppend(a, b[..last]);
    }
  }

  /** No (field, operator, position) is used for two different operands. */
  ghost predicate ConflictFree(os: seq<Operand>) {
    forall i, j :: 0 <= i < j < |os| && os[i].field == os[j].field && os[i].op == os[j].op && os[i].index == os[j].index
      ==> os[i].attr == os[j].attr
  }

  ghost predicate AllBound(os: seq<Operand>, values: map<string, Attr>) {
    forall i :: 0 <= i < |os| ==> os[i].Key() in values && values[os[i].Key()] == os[i].attr
  }

  ghost predicate OperatorsNamed(os: seq<Operand>) {
    forall i :: 0 <= i < |os| ==> OperatorName(os[i].op)
  }

  /** The value found under a placeholder is the last one written there. */
  lemma {:induction false} WrittenLast(os: seq<Operand>, i: nat)
    requires i < |os|
    ensures os[i].Key() in Written(map[], os)
    ensures (forall j :: i < j < |os| ==> os[j].Key() != os[i].Key()) ==> Written(map[], os)[os[i].Key()] == os[i].attr
  {
    var last := |os| - 1;
    if i < last {
      WrittenLast(os[..last], i);
    }
  }

  lemma {:induction false} WrittenFrom(os: seq<Operand>, key: string) returns (j: nat)
    requires key in Written(map[], os)
    ensures j < |os| && os[j].Key() == key && Written(map[], os)[key] == os[j].attr
  {
    var last := |os| - 1;
    if os[last].Key() == key {
      j := last;
    } else {
      j := WrittenFrom(os[..last], key);
    }
  }

  /** Every placeholder keeps the operand it was made from exactly when no two uses conflict. */
  lemma BoundIffConflictFree(os: seq<Operand>)
    requires OperatorsNamed(os)
    ensures AllBound(os, Written(map[], os)) <==> ConflictFree(os)
  {
    var values := Written(map[], os);
    if ConflictFree(os) {
      forall i | 0 <= i < |os| ensures os[i].Key() in values && values[os[i].Key()] == os[i].attr {
        WrittenLast(os, i);
        var j := WrittenFrom(os, os[i].Key());
        KeysInjective(os[i].field, os[i].op, os[i].index, os[j].field, os[j].op, os[j].index);
      }
    }
    if AllBound(os, values) {
      forall i, j | 0 <= i < j < |os| && os[i].field == os[j].field && os[i].op == os[j].op && os[i].index == os[j].index
        ensures os[i].attr == os[j].attr
      {
        assert os[i].Key() == os[j].Key();
      }
    }
  }

  /** The placeholders lead to the operand their slot was used for last. */
  lemma {:induction false} WrittenIsLast(os: seq<Operand>, o: Operand)
    requires OperatorsNamed(os) && OperatorName(o.op)
    ensures o.Key() in Written(map[], os) <==> SlotOf(o) in Last(os)
    ensures SlotOf(o) in Last(os) ==> Written(map[], os)[o.Key()] == Last(os)[SlotOf(o)]
  {
    if os != [] {
      var front, last := os[..|os| - 1], os[|os| - 1];
      WrittenIsLast(front, o);
      if o.Key() == last.Key() {
        KeysInjective(o.field, o.op, o.index, last.field, last.op, last.index);
      }
    }
  }

  lemma {:induction false} UsedLast(os: seq<Operand>, i: nat)
    requires i < |os|
    ensures SlotOf(os[i]) in Last(os)
  {
    if i < |os| - 1 {
      UsedLast(os[..|os| - 1], i);
    }
  }

  /** The emitted values cover a filter's operands, each read as its slot was used last. */
  lemma WrittenCovers(os: seq<Operand>, names: map<string, string>)
    requires OperatorsNamed(os)
    ensures Covers(Tables(names, Written(map[], os)), os, Last(os))
  {
    forall i | 0 <= i < |os| ensures Bound(Reread(os[i], Last(os)), Tables(names, Written(map[], os))) {
      UsedLast(os, i);
      WrittenIsLast(os, os[i]);
    }
  }

  /** Without conflicts they cover the operands themselves. */
  lemma ConflictFreeCovers(os: seq<Operand>, names: map<string, string>)
    requires OperatorsNamed(os) && ConflictFree(os)
    ensures Covers(Tables(names, Written(map[], os)), os, map[])
  {
    BoundIffConflictFree(os);
  }

  // ---------------------------------------------------------------- names

  function NameTable(node: Json): map<string, string>
    decreases Size(node), 0
  {
    EntriesSize(node);
    EntriesNames(Entries(node))
  }

  function EntriesNames(es: seq<Field>): map<string, string>
    decreases SizeEntries(es), |es|
  {
    if es == [] then map[] else EntriesNames(es[..|es| - 1]) + EntryNames(es[|es| - 1])
  }

  function EntryNames(e: Field): map<string, string>
    decreases SizeEntry(e), 0
  {
    if Missing(e.value) then map[]
    else if e.key == "and" || e.key == "or" then
      AlternativesSize(e.value);
      ListNames(Alternatives(e.value))
    else if e.key == "not" then NameTable(e.value)
    else map[NameRef(e.key) := e.key]
  }

  function ListNames(items: seq<Json>): map<string, string>
    decreases SizeList(items), |items|
  {
    if items == [] then map[] else ListNames(items[..|items| - 1]) + NameTable(items[|items| - 1])
  }

  /** Name placeholders are the field name behind a `#`, so they cannot clash. */
  ghost predicate HashNames(names: map<string, string>) {
    forall k <- names :: k == NameRef(names[k])
  }

  lemma HashNamesAgree(a: map<string, string>, b: map<string, string>)
    requires HashNames(a) && HashNames(b)
    ensures HashNames(a + b)
    ensures forall k <- a :: k in a + b && (a + b)[k] == a[k]
    ensures forall k <- b :: k in a + b && (a + b)[k] == b[k]
  {
    forall k | k in a && k in b ensures a[k] == b[k] {
      assert a[k] == k[1..] && b[k] == k[1..];
    }
  }

  ghost predicate Extends(t: Tables, names: map<string, string>) {
    forall k <- names :: k in t.names && t.names[k] == names[k]
  }

  /** The table holds these operands, as read with the override. */
  ghost predicate Covers(t: Tables, os: seq<Operand>, m: Override) {
    forall i :: 0 <= i < |os| ==> Bound(Reread(os[i], m), t)
  }

  lemma CoversSplit(t: Tables, a: seq<Operand>, b: seq<Operand>, m: Override)
    requires Covers(t, a + b, m)
    ensures Covers(t, a, m) && Covers(t, b, m)
  {
    forall i | 0 <= i < |a| ensures Bound(Reread(a[i], m), t) {
      assert (a + b)[i] == a[i];
    }
    forall i | 0 <= i < |b| ensures Bound(Reread(b[i], m), t) {
      assert (a + b)[|a| + i] == b[i];
    }
  }

  // The tables that hold a filter's names and operands resolve all its clauses.

  lemma {:induction false} LoweredResolved(node: Json, m: Override, t: Tables)
    requires Lower(node).Success?
    requires Extends(t, NameTable(node)) && Covers(t, Operands(Lower(node).value), m)
    ensures AllResolved(SwapAll(Lower(node).value, m), t)
    decreases Size(node), 0
  {
    EntriesSize(node);
    EntriesResolved(Entries(node), m, t);
  }

  lemma {:induction false} EntriesResolved(es: seq<Field>, m: Override, t: Tables)
    requires LowerEntries(es).Success?
    requires Extends(t, EntriesNames(es)) && Covers(t, Operands(LowerEntries(es).value), m)
    ensures AllResolved(SwapAll(LowerEntries(es).value, m), t)
    decreases SizeEntries(es), |es|
  {
    if es != [] {
      var before, e := es[..|es| - 1], es[|es| - 1];
      EntriesHash(before);
      EntryHash(e);
      HashNamesAgree(EntriesNames(before), EntryNames(e));
      var a, b := LowerEntries(before).value, LowerEntry(e).value;
      OperandsAppend(a, b);
      CoversSplit(t, Operands(a), Operands(b), m);
      EntriesResolved(before, m, t);
      EntryResolved(e, m, t);
      ResolvedAppend(a, b, m, t);
      hide LowerEntry, EntryNames, AllResolved, SwapAll, Operands, Covers, HashNames;
    }
  }

  lemma {:induction false} EntryResolved(e: Field, m: Override, t: Tables)
    requires LowerEntry(e).Success?
    requires Extends(t, EntryNames(e)) && Covers(t, Operands(LowerEntry(e).value), m)
    ensures AllResolved(SwapAll(LowerEntry(e).value, m), t)
    decreases SizeEntry(e), 0
  {
    hide LowerOps, Lower, LowerList, Entries, Alternatives, NameTable, ListNames, Operands, SubOperands, SwapAll, AllResolved, Covers, Extends;
    if Missing(e.value) {
      NothingResolved(m, t);
    } else if e.key == "and" || e.key == "or" {
      AlternativesSize(e.value);
      var subs := LowerList(Alternatives(e.value)).value;
      GroupOperands(e.key == "and", subs);
      ListResolved(Alternatives(e.value), m, t);
      GroupResolved(e.key == "and", subs, m, t);
    } else if e.key == "not" {
      var body := Lower(e.value).value;
      NegationOperands(body);
      LoweredResolved(e.value, m, t);
      NegationResolved(body, m, t);
    } else {
      EntryNamed(e, t);
      OpsResolved(e.key, Entries(e.value), m, t);
    }
  }

  lemma EntryNamed(e: Field, t: Tables)
    requires !Missing(e.value) && !Combinator(e.key) && Extends(t, EntryNames(e))
    ensures Named(e.key, t)
  {
  }

  lemma GroupOperands(conj: bool, subs: seq<Conj>)
    ensures Operands(if subs == [] then [] else [Group(conj, subs)]) == SubOperands(subs)
  {
    if subs != [] {
      SingleOperands(Group(conj, subs));
    }
  }

  lemma NegationOperands(body: seq<Clause>)
    ensures Operands(if body == [] then [] else [Negation(Conj(body))]) == Operands(body)
  {
    if body != [] {
      SingleOperands(Negation(Conj(body)));
    }
  }

  lemma SingleOperands(c: Clause)
    ensures Operands([c]) == OperandsOf(c)
  {
    assert [c][..0] == [];
  }

  lemma NothingResolved(m: Override, t: Tables)
    ensures AllResolved(SwapAll([], m), t)
  {
  }

  lemma SingleResolved(c: Clause, m: Override, t: Tables)
    ensures AllResolved(SwapAll([c], m), t) <==> Resolved(Swap(c, m), t)
  {
    hide Resolved, Swap;
    SwapSingle(c, m);
    assert Swap(c, m) in [Swap(c, m)];
  }

  lemma ResolvedAppend(a: seq<Clause>, b: seq<Clause>, m: Override, t: Tables)
    ensures AllResolved(SwapAll(a + b, m), t) <==> AllResolved(SwapAll(a, m), t) && AllResolved(SwapAll(b, m), t)
  {
    hide Resolved, Swap;
    SwapAppend(a, b, m);
    var x, y := SwapAll(a, m), SwapAll(b, m);
    assert forall c :: c in x + y <==> c in x || c in y;
  }

  lemma GroupResolved(conj: bool, subs: seq<Conj>, m: Override, t: Tables)
    requires SubsResolved(SwapSubs(subs, m), t)
    ensures AllResolved(SwapAll(if subs == [] then [] else [Group(conj, subs)], m), t)
  {
    SingleResolved(Group(conj, subs), m, t);
    NothingResolved(m, t);
    hide AllResolved, SwapAll, SwapSubs;
  }

  lemma NegationResolved(body: seq<Clause>, m: Override, t: Tables)
    requires AllResolved(SwapAll(body, m), t)
    ensures AllResolved(SwapAll(if body == [] then [] else [Negation(Conj(body))], m), t)
  {
    SingleResolved(Negation(Conj(body)), m, t);
    NothingResolved(m, t);
    hide AllResolved, SwapAll, SwapSubs;
  }

  lemma {:induction false} ListResolved(items: seq<Json>, m: Override, t: Tables)
    requires LowerList(items).Success?
    requires Extends(t, ListNames(items)) && Covers(t, SubOperands(LowerList(items).value), m)
    ensures SubsResolved(SwapSubs(LowerList(items).value, m), t)
    decreases SizeList(items), |items|
  {
    if items != [] {
      var before, last := items[..|items| - 1], items[|items| - 1];
      ListHash(before);
      NodeHash(last);
      HashNamesAgree(ListNames(before), NameTable(last));
      var subs, cs := LowerList(before).value, Lower(last).value;
      if cs != [] {
        SubOperandsAppend(subs, cs);
        CoversSplit(t, SubOperands(subs), Operands(cs), m);
        LoweredResolved(last, m, t);
        SubsResolvedAppend(subs, cs, m, t);
      }
      ListResolved(before, m, t);
      hide Lower, NameTable, AllResolved, SwapAll, SwapSubs, SubsResolved, Operands, SubOperands, Covers, HashNames;
    }
  }

  lemma SubOperandsAppend(subs: seq<Conj>, cs: seq<Clause>)
    ensures SubOperands(subs + [Conj(cs)]) == SubOperands(subs) + Operands(cs)
  {
    assert (subs + [Conj(cs)])[..|subs|] == subs;
  }

  lemma SubsResolvedAppend(subs: seq<Conj>, cs: seq<Clause>, m: Override, t: Tables)
    ensures SubsResolved(SwapSubs(subs + [Conj(cs)], m), t)
       <==> SubsResolved(SwapSubs(subs, m), t) && AllResolved(SwapAll(cs, m), t)
  {
    hide AllResolved, SwapAll;
    var sub := Conj(SwapAll(cs, m));
    assert SwapSubs(subs + [Conj(cs)], m) == SwapSubs(subs, m) + [sub];
    assert forall s :: s in SwapSubs(subs, m) + [sub] <==> s in SwapSubs(subs, m) || s == sub;
  }

  lemma {:induction false} OpsResolved(field: string, ops: seq<Field>, m: Override, t: Tables)
    requires LowerOps(field, ops).Success?
    requires Named(field, t) && Covers(t, Operands(LowerOps(field, ops).value), m)
    ensures AllResolved(SwapAll(LowerOps(field, ops).value, m), t)
  {
    if ops != [] {
      var before, o := ops[..|ops| - 1], ops[|ops| - 1];
      if Missing(o.value) {
        OpsResolved(field, before, m, t);
      } else {
        var cs, c := LowerOps(field, before).value, LowerOp(field, o.key, o.value).value;
        OperandsAppend(cs, [c]);
        SingleOperands(c);
        CoversSplit(t, Operands(cs), OperandsOf(c), m);
        OpsResolved(field, before, m, t);
        OpResolved(field, o.key, o.value, m, t);
        SingleResolved(c, m, t);
        ResolvedAppend(cs, [c], m, t);
      }
      hide LowerOp, AllResolved, SwapAll, Operands, OperandsOf, Covers, Resolved, Swap, Named;
    }
  }

  /** An inherited name writes a part of its own and no value. */
  lemma InheritedStray(field: string, op: string)
    ensures LowerInherited(field, op).Success? ==>
      LowerInherited(field, op).value.Stray? && OperandsOf(LowerInherited(field, op).value) == []
  {
  }

  lemma OpResolved(field: string, op: string, v: Json, m: Override, t: Tables)
    requires LowerOp(field, op, v).Success?
    requires Named(field, t) && Covers(t, OperandsOf(LowerOp(field, op, v).value), m)
    ensures Resolved(Swap(LowerOp(field, op, v).value, m), t)
  {
    hide OpOf, LowerInherited, LowerKind, Covers, OperandsOf, Named;
    match OpOf(op)
    case None =>
      InheritedStray(field, op);
    case Some(kind) =>
      KindResolved(kind, field, op, v, m, t);
  }

  lemma KindResolved(kind: Op, field: string, op: string, v: Json, m: Override, t: Tables)
    requires LowerKind(kind, field, op, v).Success?
    requires Named(field, t) && Covers(t, OperandsOf(LowerKind(kind, field, op, v).value), m)
    ensures Resolved(Swap(LowerKind(kind, field, op, v).value, m), t)
  {
    hide Reread;
    var c := LowerKind(kind, field, op, v).value;
    var os := OperandsOf(c);
    if c.Interval? {
      assert Bound(Reread(os[0], m), t) && Bound(Reread(os[1], m), t);
    } else if !c.Present? && !c.Member? {
      assert Bound(Reread(os[0], m), t);
    }
  }

  lemma {:induction false} NodeHash(node: Json)
    ensures HashNames(NameTable(node))
    decreases Size(node), 0
  {
    EntriesSize(node);
    EntriesHash(Entries(node));
  }

  lemma {:induction false} EntriesHash(es: seq<Field>)
    ensures HashNames(EntriesNames(es))
    decreases SizeEntries(es), |es|
  {
    if es != [] {
      EntriesHash(es[..|es| - 1]);
      EntryHash(es[|es| - 1]);
    }
  }

  lemma {:induction false} EntryHash(e: Field)
    ensures HashNames(EntryNames(e))
    decreases SizeEntry(e), 0
  {
    if Missing(e.value) {
    } else if e.key == "and" || e.key == "or" {
      AlternativesSize(e.value);
      ListHash(Alternatives(e.value));
    } else if e.key == "not" {
      NodeHash(e.value);
    }
  }

  lemma {:induction false} ListHash(items: seq<Json>)
    ensures HashNames(ListNames(items))
    decreases SizeList(items), |items|
  {
    if items != [] {
      ListHash(items[..|items| - 1]);
      NodeHash(items[|items| - 1]);
    }
  }

  // Operators that reach a placeholder come from the operator table.

  lemma {:induction false} LoweredOperators(node: Json)
    requires Lower(node).Success?
    ensures OperatorsNamed(Operands(Lower(node).value))
    decreases Size(node), 0
  {
    EntriesSize(node);
    EntriesOperators(Entries(node));
  }

  lemma {:induction false} EntriesOperators(es: seq<Field>)
    requires LowerEntries(es).Success?
    ensures OperatorsNamed(Operands(LowerEntries(es).value))
    decreases SizeEntries(es), |es|
  {
    if es != [] {
      var before, e := es[..|es| - 1], es[|es| - 1];
      EntriesOperators(before);
      EntryOperators(e);
      OperandsAppend(LowerEntries(before).value, LowerEntry(e).value);
    }
  }

  lemma NoOperators()
    ensures OperatorsNamed([])
  {
  }

  lemma {:induction false} EntryOperators(e: Field)
    requires LowerEntry(e).Success?
    ensures OperatorsNamed(Operands(LowerEntry(e).value))
    decreases SizeEntry(e), 0
  {
    hide LowerOps, Lower, LowerList, Entries, Alternatives, SubOperands, OperandsOf, OperatorsNamed;
    if Missing(e.value) {
      assert OperatorsNamed([]) by {
        NoOperators();
      }
    } else if e.key == "and" || e.key == "or" {
      AlternativesSize(e.value);
      ListOperators(Alternatives(e.value));
      GroupOperands(e.key == "and", LowerList(Alternatives(e.value)).value);
    } else if e.key == "not" {
      LoweredOperators(e.value);
      NegationOperands(Lower(e.value).value);
    } else {
      OpsOperators(e.key, Entries(e.value));
    }
  }

  lemma {:induction false} ListOperators(items: seq<Json>)
    requires LowerList(items).Success?
    ensures OperatorsNamed(SubOperands(LowerList(items).value))
    decreases SizeList(items), |items|
  {
    if items != [] {
      var before, last := items[..|items| - 1], items[|items| - 1];
      ListOperators(before);
      LoweredOperators(last);
      var subs, cs := LowerList(before).value, Lower(last).value;
      if cs != [] {
        assert (subs + [Conj(cs)])[..|subs|] == subs;
      }
    }
  }

  lemma {:induction false} OpsOperators(field: string, ops: seq<Field>)
    requires LowerOps(field, ops).Success?
    ensures OperatorsNamed(Operands(LowerOps(field, ops).value))
  {
    if ops != [] {
      var before, o := ops[..|ops| - 1], ops[|ops| - 1];
      OpsOperators(field, before);
      if !Missing(o.value) {
        var c := LowerOp(field, o.key, o.value).value;
        OperandsAppend(LowerOps(field, before).value, [c]);
        SingleOperands(c);
        OpOperators(field, o.key, o.value);
      }
    }
  }

  lemma OpOperators(field: string, op: string, v: Json)
    requires LowerOp(field, op, v).Success?
    ensures OperatorsNamed(OperandsOf(LowerOp(field, op, v).value))
  {
    InheritedStray(field, op);
    if OpOf(op).Some? {
      KnownOperatorName(op);
    }
    hide OpOf, LowerInherited, OperatorName;
  }

  lemma KnownOperatorName(op: string)
    requires OpOf(op).Some?
    ensures OperatorName(op)
  {
  }

  // ---------------------------------------------------------------- the operators a filter uses

  /** One operator with its operand, somewhere in a filter. */
  datatype Use = Use(field: string, op: string, operand: Json)

  /** AppSync's filter operators. */
  const OPERATORS := {
    "eq", "ne", "lt", "le", "gt", "ge", "contains", "notContains", "beginsWith", "attributeType", "between", "in", "attributeExists"}

  predicate Supported(u: Use) {
    u.op in OPERATORS && (u.op == "in" ==> u.operand.Arr?)
  }

  lemma OperatorsKnown(op: string)
    ensures op in OPERATORS <==> OpOf(op).Some?
  {
  }

  /** The walk goes on after this use, though its operator may be no operator at all. */
  predicate Accepted(u: Use) {
    Supported(u) || Slips(u.op)
  }

  predicate EmptyIn(u: Use) {
    u.op == "in" && u.operand == Arr([])
  }

  function Uses(node: Json): seq<Use>
    decreases Size(node), 0
  {
    PropertiesSize(node);
    EntriesUses(Properties(node))
  }

  function EntriesUses(es: seq<Field>): seq<Use>
    decreases SizeEntries(es), |es|
  {
    if es == [] then [] else EntriesUses(es[..|es| - 1]) + EntryUses(es[|es| - 1])
  }

  function EntryUses(e: Field): seq<Use>
    decreases SizeEntry(e), 0
  {
    if Absent(e.value) then []
    else if e.key == "and" || e.key == "or" then
      AlternativesSize(e.value);
      ListUses(if e.value.Arr? then e.value.items else [e.value])
    else if e.key == "not" then Uses(e.value)
    else OpsUses(e.key, Properties(e.value))
  }

  function ListUses(items: seq<Json>): seq<Use>
    decreases SizeList(items), |items|
  {
    if items == [] then [] else ListUses(items[..|items| - 1]) + Uses(items[|items| - 1])
  }

  function OpsUses(field: string, ops: seq<Field>): seq<Use> {
    if ops == [] then []
    else
      var o := ops[|ops| - 1];
      OpsUses(field, ops[..|ops| - 1]) + (if Absent(o.value) then [] else [Use(field, o.key, o.value)])
  }

  predicate AllSupported(us: seq<Use>) {
    forall u <- us :: Supported(u)
  }

  predicate AllAccepted(us: seq<Use>) {
    forall u <- us :: Accepted(u)
  }

  predicate InsFilled(us: seq<Use>) {
    forall u <- us :: !EmptyIn(u)
  }

  /** Every use is one DynamoDB has words for. */
  predicate Readable(us: seq<Use>) {
    AllSupported(us) && InsFilled(us)
  }

  lemma SingleParsable(c: Clause)
    ensures AllParsable([c]) <==> Parsable(c)
  {
    assert c in [c];
  }

  /** The walk throws exactly on a use it does not accept, and its result is readable exactly when every use is. */
  lemma {:induction false} UsesDecide(node: Json)
    ensures Lower(node).Success? <==> AllAccepted(Uses(node))
    ensures Lower(node).Success? ==> (AllParsable(Lower(node).value) <==> Readable(Uses(node)))
    decreases Size(node), 0
  {
    EntriesSize(node);
    PropertiesAre(node);
    EntriesUsesDecide(Entries(node));
  }

  lemma {:induction false} EntriesUsesDecide(es: seq<Field>)
    ensures LowerEntries(es).Success? <==> AllAccepted(EntriesUses(es))
    ensures LowerEntries(es).Success? ==> (AllParsable(LowerEntries(es).value) <==> Readable(EntriesUses(es)))
    decreases SizeEntries(es), |es|
  {
    if es != [] {
      var before, e := es[..|es| - 1], es[|es| - 1];
      EntriesUsesDecide(before);
      EntryUsesDecide(e);
    }
  }

  lemma {:induction false} EntryUsesDecide(e: Field)
    ensures LowerEntry(e).Success? <==> AllAccepted(EntryUses(e))
    ensures LowerEntry(e).Success? ==> (AllParsable(LowerEntry(e).value) <==> Readable(EntryUses(e)))
    decreases SizeEntry(e), 0
  {
    if Missing(e.value) {
    } else if e.key == "and" || e.key == "or" {
      AlternativesSize(e.value);
      ListUsesDecide(Alternatives(e.value));
      if LowerEntry(e).Success? {
        SingleParsable(Group(e.key == "and", LowerList(Alternatives(e.value)).value));
      }
    } else if e.key == "not" {
      UsesDecide(e.value);
      if LowerEntry(e).Success? {
        SingleParsable(Negation(Conj(Lower(e.value).value)));
      }
    } else {
      PropertiesAre(e.value);
      OpsUsesDecide(e.key, Entries(e.value));
    }
  }

  lemma {:induction false} ListUsesDecide(items: seq<Json>)
    ensures LowerList(items).Success? <==> AllAccepted(ListUses(items))
    ensures LowerList(items).Success? ==> (SubsParsable(LowerList(items).value) <==> Readable(ListUses(items)))
    decreases SizeList(items), |items|
  {
    if items != [] {
      var before, last := items[..|items| - 1], items[|items| - 1];
      ListUsesDecide(before);
      UsesDecide(last);
      if LowerList(items).Success? {
        var subs, sub := LowerList(before).value, Conj(Lower(last).value);
        assert forall s :: s in subs + [sub] <==> s in subs || s == sub;
      }
    }
  }

  lemma {:induction false} OpsUsesDecide(field: string, ops: seq<Field>)
    ensures LowerOps(field, ops).Success? <==> AllAccepted(OpsUses(field, ops))
    ensures LowerOps(field, ops).Success? ==>
              (AllParsable(LowerOps(field, ops).value) <==> Readable(OpsUses(field, ops)))
  {
    if ops != [] {
      var before, o := ops[..|ops| - 1], ops[|ops| - 1];
      OpsUsesDecide(field, before);
      if !Missing(o.value) {
        var u := Use(field, o.key, o.value);
        assert u in [u];
        OpUseDecides(u);
        if LowerOps(field, ops).Success? {
          SingleParsable(LowerOp(field, o.key, o.value).value);
        }
      }
    }
  }

  lemma OpUseDecides(u: Use)
    ensures LowerOp(u.field, u.op, u.operand).Success? <==> Accepted(u)
    ensures Accepted(u) ==> (Parsable(LowerOp(u.field, u.op, u.operand).value) <==> Supported(u) && !EmptyIn(u))
  {
    SlipsOutside(u.op);
    OperatorsKnown(u.op);
    hide OPERATORS;
  }

  lemma SlipsOutside(op: string)
    ensures Slips(op) ==> OpOf(op) == None && op != "in" && op !in RAISING
  {
  }

  // ---------------------------------------------------------------- main results

  datatype Output = Output(expression: seq<Token>, tables: Tables)

  /** What `_ddbExpression` returns. */
  function Transformed(filter: Json): Result<Output, string> {
    match Lower(filter)
    case Failure(e) => Failure(e)
    case Success(cs) =>
      Success(Output(Join(PrintClauses(cs), AND), Tables(NameTable(filter), Written(map[], Operands(cs)))))
  }

  /** The values a filter writes. */
  function FilterOperands(filter: Json): seq<Operand> {
    match Lower(filter)
    case Failure(_) => []
    case Success(cs) => Operands(cs)
  }

  lemma {:induction false} PrintNonempty(cs: seq<Clause>)
    requires cs != []
    ensures Join(PrintClauses(cs), AND) != []
  {
    if |cs| == 1 {
      assert PrintClauses(cs) == [Print(cs[0])];
    }
  }

  /**
    The compiled expression means the filter with each operand replaced by the one its field,
    operator and position were used with last: it is empty when the filter says nothing, and
    otherwise DynamoDB reads it back, finds every placeholder and decides as that filter does.
   */
  lemma CompiledFilterReadsLast(filter: Json, item: Item, db: Primitives)
    requires AllSupported(Uses(filter)) && InsFilled(Uses(filter))
    ensures Transformed(filter).Success?
    ensures var out := Transformed(filter).value;
            match MeaningWith(filter, Last(FilterOperands(filter)), item, db)
            case None => out.expression == []
            case Some(truth) =>
              Parse(out.expression).Some? && Eval(Parse(out.expression).value, out.tables, item, db) == Some(truth)
  {
    AcceptedLowers(filter);
    ReadsLast(filter, item, db);
  }

  lemma ReadsLast(filter: Json, item: Item, db: Primitives)
    requires Lower(filter).Success? && AllParsable(Lower(filter).value)
    ensures var out := Transformed(filter).value;
            match MeaningWith(filter, Last(FilterOperands(filter)), item, db)
            case None => out.expression == []
            case Some(truth) =>
              Parse(out.expression).Some? && Eval(Parse(out.expression).value, out.tables, item, db) == Some(truth)
  {
    LoweredOperators(filter);
    WrittenCovers(FilterOperands(filter), NameTable(filter));
    OutputMeans(filter, Last(FilterOperands(filter)), item, db);
  }

  /** Without conflicting operands nothing is replaced: the compiled expression means the filter. */
  lemma CompiledFilterMeansFilter(filter: Json, item: Item, db: Primitives)
    requires AllSupported(Uses(filter)) && InsFilled(Uses(filter)) && ConflictFree(FilterOperands(filter))
    ensures Transformed(filter).Success?
    ensures var out := Transformed(filter).value;
            match Meaning(filter, item, db)
            case None => out.expression == []
            case Some(truth) =>
              Parse(out.expression).Some? && Eval(Parse(out.expression).value, out.tables, item, db) == Some(truth)
  {
    AcceptedLowers(filter);
    LoweredOperators(filter);
    ConflictFreeCovers(FilterOperands(filter), NameTable(filter));
    OutputMeans(filter, map[], item, db);
  }

  lemma AcceptedLowers(filter: Json)
    requires AllSupported(Uses(filter)) && InsFilled(Uses(filter))
    ensures Lower(filter).Success? && AllParsable(Lower(filter).value) && FilterOperands(filter) == Operands(Lower(filter).value)
  {
    assert AllAccepted(Uses(filter));
    hide Uses, Lower;
    UsesDecide(filter);
  }

  /** However its operands are read, if the emitted table holds them so. */
  lemma OutputMeans(filter: Json, m: Override, item: Item, db: Primitives)
    requires Lower(filter).Success? && AllParsable(Lower(filter).value)
    requires Covers(Transformed(filter).value.tables, Operands(Lower(filter).value), m)
    ensures var out := Transformed(filter).value;
            match MeaningWith(filter, m, item, db)
            case None => out.expression == []
            case Some(truth) =>
              Parse(out.expression).Some? && Eval(Parse(out.expression).value, out.tables, item, db) == Some(truth)
  {
    hide Lower, MeaningWith, NameTable, Covers, AllParsable;
    Lowered(filter, m, item, db);
    if Lower(filter).value != [] {
      OutputReads(filter, m, item, db);
    }
  }

  lemma OutputReads(filter: Json, m: Override, item: Item, db: Primitives)
    requires Lower(filter).Success? && Lower(filter).value != []
    ensures var cs := Lower(filter).value;
            var out := Transformed(filter).value;
            ReadsIf(AllParsable(cs), ParseOr(out.expression), [], Covers(out.tables, Operands(cs), m), out.tables, item, db,
                    AllHold(SwapAll(cs, m), item, db))
  {
    var cs := Lower(filter).value;
    var swapped := SwapAll(cs, m);
    var out := Transformed(filter).value;
    assert out.expression == Join(PrintClauses(cs), AND);
    LoweredProper(filter);
    ClausesShape(cs, m);
    ClausesPrint(cs, m);
    if Covers(out.tables, Operands(cs), m) {
      LoweredResolved(filter, m, out.tables);
    }
    hide Lower, Transformed, SwapAll, PrintClauses, Join, AllProper, AllParsable, AllResolved, AllHold, Covers, Operands;
    ConjParses(swapped, [], out.tables, item, db);
    assert out.expression + [] == out.expression;
    OrLast(out.expression, [], out.tables, item, db, AllParsable(cs), AllResolved(swapped, out.tables), AllHold(swapped, item, db));
    ReadsWhen(ParseOr(out.expression), [], out.tables, item, db, AllParsable(cs), AllResolved(swapped, out.tables),
              AllHold(swapped, item, db), Covers(out.tables, Operands(cs), m));
    hide ReadsIf, ParseOr;
  }

  lemma ReadsWhen(r: Parsed, rest: seq<Token>, t: Tables, item: Item, db: Primitives,
                  ok: bool, resolved: bool, truth: bool, covered: bool)
    requires ReadsIf(ok, r, rest, resolved, t, item, db, truth) && (covered ==> resolved)
    ensures ReadsIf(ok, r, rest, covered, t, item, db, truth)
  {
  }

  /** The transform throws exactly when some use is neither supported nor an inherited name that returns. */
  lemma TransformThrowsIff(filter: Json)
    ensures Transformed(filter).Failure? <==> exists u <- Uses(filter) :: !Supported(u) && !Slips(u.op)
  {
    UsesDecide(filter);
  }

  /** What is thrown for an operator the walk does not accept. */
  lemma OpFails(field: string, op: string, v: Json)
    ensures LowerOp(field, op, v).Failure? <==> (op !in OPERATORS && !Slips(op)) || (op == "in" && !v.Arr?)
    ensures op == "in" && !v.Arr? ==> LowerOp(field, op, v) == Failure("v.map is not a function")
    ensures op in RAISING ==> LowerOp(field, op, v) == Failure("TypeError")
    ensures op !in OPERATORS && !Slips(op) && op !in RAISING ==>
              LowerOp(field, op, v) == Failure("util.transform: unsupported operator " + op)
  {
    OperatorsKnown(op);
    SlipsOutside(op);
    RaisingOutside(op);
    ListOperator(op);
    InheritedFails(field, op);
    hide OPERATORS, RAISING, OpOf, LowerInherited;
  }

  lemma InheritedFails(field: string, op: string)
    ensures LowerInherited(field, op).Failure? <==> !Slips(op)
    ensures op in RAISING ==> LowerInherited(field, op) == Failure("TypeError")
    ensures !Slips(op) && op !in RAISING ==>
              LowerInherited(field, op) == Failure("util.transform: unsupported operator " + op)
  {
  }

  lemma RaisingOutside(op: string)
    ensures op in RAISING ==> OpOf(op) == None
  {
  }

  lemma ListOperator(op: string)
    ensures OpOf(op) == Some(InOp) <==> op == "in"
  {
  }

  predicate MarksValue(key: string, o: Operand) {
    key == ":" + o.field + "_" + o.op + (if o.index == None then "" else "_" + Decimal(o.index.value))
  }

  /** DynamoDB takes a name placeholder by its `#` and a value placeholder by its colon. */
  lemma PlaceholdersMarked(filter: Json)
    requires Transformed(filter).Success?
    ensures var t := Transformed(filter).value.tables;
            && (forall k <- t.names :: k == "#" + t.names[k])
            && (forall k <- t.values :: exists o <- FilterOperands(filter) :: MarksValue(k, o))
  {
    NodeHash(filter);
    var os := FilterOperands(filter);
    forall k | k in Written(map[], os)
      ensures exists o <- os :: MarksValue(k, o)
    {
      var j := WrittenFrom(os, k);
      assert os[j] in os;
    }
    hide Lower, NameTable, Decimal;
  }

  /** DynamoDB's grammar accepts an expression exactly when every operator is supported and no `in` list is empty. */
  lemma ParsesIffReadable(filter: Json)
    requires Transformed(filter).Success? && Transformed(filter).value.expression != []
    ensures Parse(Transformed(filter).value.expression).Some? <==> AllSupported(Uses(filter)) && InsFilled(Uses(filter))
  {
    UsesDecide(filter);
    OutputReads(filter, map[], map[], Primitives((_, _, _) => true, (_, _, _) => true));
  }

  /** What the three inherited names write for a field. */
  function StrayPart(field: string, op: string): Token
    requires Slips(op)
  {
    if op == "constructor" then Name(NameRef(field)) else if op == "toString" then Word("[object Undefined]") else Word("false")
  }

  /** No error tells an inherited name from an operator: `{a: {constructor: x}}` compiles to `#a`, which DynamoDB cannot read. */
  lemma InheritedNameCompiles(field: string, op: string, x: Json)
    requires !Combinator(field) && Slips(op) && !Missing(x)
    ensures var out := Transformed(Obj([Field(field, Obj([Field(op, x)]))]));
            out.Success? && out.value.expression == [StrayPart(field, op)] && Parse(out.value.expression) == None
  {
    SlipsOutside(op);
    var c := Stray(StrayPart(field, op));
    OneOp(field, op, x, c);
    SingleEntry(Field(field, Obj([Field(op, x)])));
    hide Lower, LowerEntry, NameTable;
    StrayPrints(c);
    StrayAlone(c.part);
  }

  lemma StrayPrints(c: Clause)
    requires c.Stray?
    ensures Join(PrintClauses([c]), AND) == [c.part]
  {
    assert [c][..0] == [];
    assert PrintClauses([c]) == [Print(c)];
  }

  lemma StrayAlone(part: Token)
    requires part.Name? || part.Word?
    ensures Parse([part]) == None
  {
    StrayParses(part, []);
    assert [part] + [] == [part];
    assert ParseNot([part]) == None;
    assert ParseAnd([part]) == None;
    assert ParseOr([part]) == None;
  }

  /** A field with one operator. */
  lemma OneOp(field: string, op: string, x: Json, c: Clause)
    requires !Combinator(field) && !Missing(x) && LowerOp(field, op, x) == Success(c)
    ensures LowerEntry(Field(field, Obj([Field(op, x)]))) == Success([c])
  {
    var ops := [Field(op, x)];
    assert ops[..0] == [] && LowerOps(field, []) == Success([]);
    assert [] + [c] == [c];
    assert LowerOps(field, ops) == Success([c]);
  }

  /** The emitted value table serves every operand of the filter exactly when none conflict. */
  lemma ValueTableFaithfulIff(filter: Json)
    requires Lower(filter).Success?
    ensures AllBound(FilterOperands(filter), Transformed(filter).value.tables.values)
       <==> ConflictFree(FilterOperands(filter))
  {
    LoweredOperators(filter);
    BoundIffConflictFree(FilterOperands(filter));
  }

  /** `{or: [{a: {eq: x}}, {a: {eq: y}}]}` */
  function EitherEq(x: Json, y: Json): Json {
    Obj([Field("or", Arr([Obj([Field("a", Obj([Field("eq", x)]))]), Obj([Field("a", Obj([Field("eq", y)]))])]))])
  }

  /**
    The hypothesis on conflicts is needed. For different numbers x and y the filter
    `{or: [{a: {eq: x}}, {a: {eq: y}}]}` writes `:a_eq` twice, so its output asks for y both times,
    and DynamoDB turns away an item whose `a` is x although the filter accepts it.
   */
  lemma RepeatedOperatorLosesValue(x: Json, y: Json, item: Item, db: Primitives)
    requires x.Num? && y.Num? && x != y
    requires Lookup(item, "a") == Some(ToAttr(x)) && forall actual, v :: db.compare(Eq, actual, v) <==> actual == Some(v)
    ensures Transformed(EitherEq(x, y)).Success? && !ConflictFree(FilterOperands(EitherEq(x, y)))
    ensures Meaning(EitherEq(x, y), item, db) == Some(true)
    ensures var out := Transformed(EitherEq(x, y)).value;
            Parse(out.expression).Some? && Eval(Parse(out.expression).value, out.tables, item, db) == Some(false)
  {
    EitherEqLowered(x, y);
    EitherEqOperands(x, y);
    var os := FilterOperands(EitherEq(x, y));
    assert os[0].attr != os[1].attr && os[0].index == os[1].index;
    EitherEqMeaning(x, y, map[], item, db);
    EitherEqMeaning(x, y, Last(os), item, db);
    ReadsLast(EitherEq(x, y), item, db);
    hide Lower, MeaningWith, Parse, Eval, Transformed;
  }

  function EqClause(x: Json): Clause {
    Comparison("a", Eq, Operand("a", "eq", None, ToAttr(x)))
  }

  function EitherGroup(x: Json, y: Json): Clause {
    Group(false, [Conj([EqClause(x)]), Conj([EqClause(y)])])
  }

  lemma EitherEqLowered(x: Json, y: Json)
    requires x.Num? && y.Num?
    ensures Lower(EitherEq(x, y)) == Success([EitherGroup(x, y)])
    ensures AllParsable([EitherGroup(x, y)])
  {
    var c1, c2 := EqClause(x), EqClause(y);
    var left, right := Obj([Field("a", Obj([Field("eq", x)]))]), Obj([Field("a", Obj([Field("eq", y)]))]);
    var items := [left, right];
    var subs := [Conj([c1]), Conj([c2])];
    SingleEq(x);
    SingleEq(y);
    assert items[..1] == [left] && [left][..0] == [];
    assert LowerList([]) == Success([]);
    assert [] + [Conj([c1])] == [Conj([c1])] && [Conj([c1])] + [Conj([c2])] == subs;
    assert LowerList([left]) == Success([Conj([c1])]);
    assert LowerList(items) == Success(subs);
    SingleEntry(Field("or", Arr(items)));
    SingleParsable(c1);
    SingleParsable(c2);
    SingleParsable(EitherGroup(x, y));
  }

  lemma SingleEntry(e: Field)
    requires LowerEntry(e).Success?
    ensures Lower(Obj([e])) == LowerEntry(e)
  {
    assert [e][..0] == [];
    assert LowerEntries([]) == Success([]) && [] + LowerEntry(e).value == LowerEntry(e).value;
  }

  lemma EitherEqOperands(x: Json, y: Json)
    requires x.Num? && y.Num?
    ensures FilterOperands(EitherEq(x, y)) == [EqClause(x).v, EqClause(y).v]
    ensures Last(FilterOperands(EitherEq(x, y))) == map[SlotOf(EqClause(y).v) := ToAttr(y)]
  {
    EitherEqLowered(x, y);
    var c1, c2 := EqClause(x), EqClause(y);
    var subs := [Conj([c1]), Conj([c2])];
    SingleOperands(EitherGroup(x, y));
    SingleOperands(c1);
    SingleOperands(c2);
    assert subs[..1] == [Conj([c1])] && [Conj([c1])][..0] == [];
    assert SubOperands(subs[..1]) == [c1.v];
    assert SubOperands(subs) == [c1.v, c2.v];
    LastOfTwo(c1.v, c2.v);
  }

  lemma LastOfTwo(o: Operand, o': Operand)
    requires SlotOf(o) == SlotOf(o')
    ensures Last([o, o']) == map[SlotOf(o') := o'.attr]
  {
    assert [o, o'][..1] == [o] && [o][..0] == [];
    assert Last([o]) == map[SlotOf(o) := o.attr];
  }

  lemma EitherEqMeaning(x: Json, y: Json, m: Override, item: Item, db: Primitives)
    requires x.Num? && y.Num?
    ensures MeaningWith(EitherEq(x, y), m, item, db)
         == Some(Holds(Swap(EqClause(x), m), item, db) || Holds(Swap(EqClause(y), m), item, db))
  {
    EitherEqLowered(x, y);
    Lowered(EitherEq(x, y), m, item, db);
    EitherValue(EqClause(x), EqClause(y), m, item, db);
    hide Lower, MeaningWith, ConjValue, Holds, Swap, EitherEq, EqClause;
  }

  lemma EitherValue(c: Clause, d: Clause, m: Override, item: Item, db: Primitives)
    ensures ConjValue([Group(false, [Conj([c]), Conj([d])])], m, item, db)
         == Some(Holds(Swap(c, m), item, db) || Holds(Swap(d, m), item, db))
  {
    hide ConjValue, Holds, Swap;
    GroupValue(false, [Conj([c]), Conj([d])], m, item, db);
    SubsAppend([Conj([c])], [d], false, m, item, db);
    SubsAppend([], [c], false, m, item, db);
    SingleHolds(c, m, item, db);
    SingleHolds(d, m, item, db);
    assert [] + [Conj([c])] == [Conj([c])] && [Conj([c])] + [Conj([d])] == [Conj([c]), Conj([d])];
  }

  lemma SingleEq(v: Json)
    requires v.Num?
    ensures var filter := Obj([Field("a", Obj([Field("eq", v)]))]);
            Lower(filter) == Success([EqClause(v)])
  {
    var ops := [Field("eq", v)];
    var e := Field("a", Obj(ops));
    assert ops[..0] == [] && [e][..0] == [];
    assert LowerOps("a", []) == Success([]);
    assert LowerOp("a", "eq", v) == Success(EqClause(v));
    assert [] + [EqClause(v)] == [EqClause(v)];
    assert LowerOps("a", ops) == Success([EqClause(v)]);
    assert LowerEntry(e) == Success([EqClause(v)]);
    assert LowerEntries([]) == Success([]);
    assert LowerEntries([e]) == Success([EqClause(v)]);
  }
}
