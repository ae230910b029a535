/** The transform as it runs: a walk that pushes parts and fills the two placeholder tables. */
module FilterCompiler {
  import opened Results
  import opened ConditionExpressions
  import opened FilterTransform
  import opened FilterCorrectness

  type Part = seq<Token>

  class Transform {
    var names: map<string, string>
    var values: map<string, Attr>

    constructor ()
      ensures names == map[] && values == map[]
    {
      names, values := map[], map[];
    }

    method AddName(field: string) returns (ref: string)
      modifies this`names
      ensures ref == NameRef(field)
      ensures names == old(names) + map[NameRef(field) := field]
    {
      ref := NameRef(field);
      names := names[ref := field];
    }

    method AddValue(o: Operand) returns (key: string)
      modifies this`values
      ensures key == o.Key()
      ensures values == Written(old(values), [o])
    {
      key := o.Key();
      values := values[key := o.attr];
      assert [o][..0] == [];
    }

    /** One entry of the operator table applied to a field. */
    method Build(n: string, field: string, op: string, v: Json) returns (r: Result<Part, string>)
      requires n == NameRef(field)
      modifies this`values
      ensures match LowerOp(field, op, v)
              case Failure(e) => r == Failure(e)
              case Success(c) => r == Success(Print(c)) && values == Written(old(values), OperandsOf(c))
    {
      match OpOf(op)
      case None =>
        r := BuildInherited(n, op);
        InheritedStray(field, op);
      case Some(kind) => r := BuildKind(kind, n, field, op, v);
    }

    /** `OPS[op]` where the table itself has no such property. */
    method BuildInherited(n: string, op: string) returns (r: Result<Part, string>)
      ensures forall field :: n == NameRef(field) ==>
        match LowerInherited(field, op)
        case Failure(e) => r == Failure(e)
        case Success(c) => r == Success(Print(c))
    {
      if op == "constructor" {
        return Success([Name(n)]);
      }
      if op == "toString" {
        return Success([Word("[object Undefined]")]);
      }
      if op == "isPrototypeOf" {
        return Success([Word("false")]);
      }
      return Failure(if op in RAISING then "TypeError" else "util.transform: unsupported operator " + op);
    }

    method BuildKind(kind: Op, n: string, field: string, op: string, v: Json) returns (r: Result<Part, string>)
      requires n == NameRef(field)
      modifies this`values
      ensures match LowerKind(kind, field, op, v)
              case Failure(e) => r == Failure(e)
              case Success(c) => r == Success(Print(c)) && values == Written(old(values), OperandsOf(c))
    {
      hide ToAttr, At, Values, Truthy;
      match kind
      case CmpOp(_) | FnOp(_) | NotContainsOp =>
        var part := BuildSingle(kind, n, Operand(field, op, None, ToAttr(v)));
        r := Success(part);
      case BetweenOp =>
        var part := BuildBetween(n, Operand(field, op, Some(0), ToAttr(At(v, 0))),
                                    Operand(field, op, Some(1), ToAttr(At(v, 1))));
        r := Success(part);
      case InOp =>
        if !v.Arr? {
          return Failure("v.map is not a function");
        }
        var list := BuildValues(field, op, v.items);
        r := Success([Name(n), IN, LParen] + list + [RParen]);
      case ExistsOp =>
        r := Success([Call(if Truthy(v) then AttributeExists else AttributeNotExists), LParen, Name(n), RParen]);
    }

    method BuildSingle(kind: Op, n: string, o: Operand) returns (part: Part)
      requires kind.CmpOp? || kind.FnOp? || kind.NotContainsOp?
      modifies this`values
      ensures part == match kind
                      case CmpOp(cmp) => [Name(n), Cmp(cmp), Val(o.Key())]
                      case FnOp(fn) => [Call(fn), LParen, Name(n), Comma, Val(o.Key()), RParen]
                      case _ => [NOT, Call(Contains), LParen, Name(n), Comma, Val(o.Key()), RParen]
      ensures values == Written(old(values), [o])
    {
      var k := AddValue(o);
      match kind
      case CmpOp(cmp) => part := [Name(n), Cmp(cmp), Val(k)];
      case FnOp(fn) => part := [Call(fn), LParen, Name(n), Comma, Val(k), RParen];
      case NotContainsOp => part := [NOT, Call(Contains), LParen, Name(n), Comma, Val(k), RParen];
    }

    method BuildBetween(n: string, lo: Operand, hi: Operand) returns (part: Part)
      modifies this`values
      ensures part == [Name(n), BETWEEN, Val(lo.Key()), AND, Val(hi.Key())]
      ensures values == Written(old(values), [lo, hi])
    {
      var k0 := AddValue(lo);
      var k1 := AddValue(hi);
      WrittenAppend(old(values), [lo], [hi]);
      assert [lo] + [hi] == [lo, hi];
      part := [Name(n), BETWEEN, Val(k0), AND, Val(k1)];
    }

    method BuildValues(field: string, op: string, items: seq<Json>) returns (list: seq<Token>)
      modifies this`values
      ensures list == Values(InOperands(field, op, items))
      ensures values == Written(old(values), InOperands(field, op, items))
    {
      ghost var os := InOperands(field, op, items);
      list := [];
      var i := 0;
      assert os[..0] == [];
      while i < |items|
        invariant 0 <= i <= |items|
        invariant list == Values(os[..i])
        invariant values == Written(old(values), os[..i])
      {
        var o := Operand(field, op, Some(i), ToAttr(items[i]));
        assert os[..i + 1] == os[..i] + [o] && os[..i + 1][..i] == os[..i];
        var k := AddValue(o);
        WrittenAppend(old(values), os[..i], [o]);
        list := if i == 0 then [Val(k)] else list + [Comma, Val(k)];
        i := i + 1;
      }
      assert os[..i] == os;
    }

    method BuildAll(field: string, ops: seq<Field>) returns (r: Result<seq<Part>, string>)
      modifies this`values
      ensures match LowerOps(field, ops)
              case Failure(e) => r == Failure(e)
              case Success(cs) => r == Success(PrintClauses(cs)) && values == Written(old(values), Operands(cs))
    {
      var parts: seq<Part> := [];
      ghost var cs: seq<Clause> := [];
      var i := 0;
      assert ops[..0] == [];
      while i < |ops|
        invariant 0 <= i <= |ops|
        invariant LowerOps(field, ops[..i]) == Success(cs)
        invariant parts == PrintClauses(cs)
        invariant values == Written(old(values), Operands(cs))
      {
        assert ops[..i + 1][..i] == ops[..i];
        if !Missing(ops[i].value) {
          var part := Build(NameRef(field), field, ops[i].key, ops[i].value);
          if part.Failure? {
            OpsFailure(field, ops, i + 1);
            return Failure(part.error);
          }
          ghost var c := LowerOp(field, ops[i].key, ops[i].value).value;
          WrittenAppend(old(values), Operands(cs), OperandsOf(c));
          assert (cs + [c])[..|cs|] == cs;
          parts := parts + [part.value];
          cs := cs + [c];
        }
        i := i + 1;
      }
      assert ops[..i] == ops;
      r := Success(parts);
    }

    method Walk(node: Json) returns (r: Result<seq<Token>, string>)
      modifies this
      ensures match Lower(node)
              case Failure(e) => r == Failure(e)
              case Success(cs) =>
                && r == Success(Join(PrintClauses(cs), AND))
                && names == old(names) + NameTable(node)
                && values == Written(old(values), Operands(cs))
      decreases Size(node), 0
    {
      EntriesSize(node);
      var es := Entries(node);
      var parts: seq<Part> := [];
      ghost var cs: seq<Clause> := [];
      var i := 0;
      assert es[..0] == [];
      while i < |es|
        invariant 0 <= i <= |es|
        invariant LowerEntries(es[..i]) == Success(cs)
        invariant parts == PrintClauses(cs)
        invariant names == old(names) + EntriesNames(es[..i])
        invariant values == Written(old(values), Operands(cs))
      {
        EntrySize(es, i);
        var more := WalkEntry(es[i]);
        if more.Failure? {
          EntriesStop(es, i);
          return Failure(more.error);
        }
        ghost var added := LowerEntry(es[i]).value;
        EntriesStep(es, i, cs, old(names), old(values));
        parts := parts + more.value;
        cs := cs + added;
        i := i + 1;
      }
      assert es[..i] == es;
      r := Success(Join(parts, AND));
    }

    /** What one entry of a filter object pushes onto the parts. */
    method WalkEntry(e: Field) returns (r: Result<seq<Part>, string>)
      modifies this
      ensures match LowerEntry(e)
              case Failure(err) => r == Failure(err)
              case Success(cs) =>
                && r == Success(PrintClauses(cs))
                && names == old(names) + EntryNames(e)
                && values == Written(old(values), Operands(cs))
      decreases SizeEntry(e), 0
    {
      if Missing(e.value) {
        return Success([]);
      }
      if e.key == "and" || e.key == "or" {
        r := WalkGroup(e);
      } else if e.key == "not" {
        r := WalkNot(e);
      } else {
        var n := AddName(e.key);
        r := BuildAll(e.key, Entries(e.value));
      }
    }

    method WalkGroup(e: Field) returns (r: Result<seq<Part>, string>)
      requires !Missing(e.value) && (e.key == "and" || e.key == "or")
      modifies this
      ensures match LowerList(Alternatives(e.value))
              case Failure(err) => r == Failure(err)
              case Success(subs) =>
                var cs := if subs == [] then [] else [Group(e.key == "and", subs)];
                && r == Success(PrintClauses(cs))
                && names == old(names) + ListNames(Alternatives(e.value))
                && values == Written(old(values), Operands(cs))
      decreases 1 + Size(e.value), |Alternatives(e.value)| + 1
    {
      AlternativesBelow(e.value);
      var sub := WalkList(Alternatives(e.value));
      if sub.Failure? {
        return Failure(sub.error);
      }
      ghost var subs := LowerList(Alternatives(e.value)).value;
      if sub.value == [] {
        return Success([]);
      }
      SingleOperands(Group(e.key == "and", subs));
      SinglePrint(Group(e.key == "and", subs));
      r := Success([[LParen] + Join(sub.value, if e.key == "and" then AND else OR) + [RParen]]);
    }

    method WalkNot(e: Field) returns (r: Result<seq<Part>, string>)
      requires !Missing(e.value) && e.key == "not"
      modifies this
      ensures match Lower(e.value)
              case Failure(err) => r == Failure(err)
              case Success(body) =>
                var cs := if body == [] then [] else [Negation(Conj(body))];
                && r == Success(PrintClauses(cs))
                && names == old(names) + NameTable(e.value)
                && values == Written(old(values), Operands(cs))
      decreases Size(e.value), 1
    {
      var sub := Walk(e.value);
      if sub.Failure? {
        return Failure(sub.error);
      }
      ghost var body := Lower(e.value).value;
      NonemptyIff(body);
      if sub.value == [] {
        return Success([]);
      }
      SingleOperands(Negation(Conj(body)));
      SinglePrint(Negation(Conj(body)));
      r := Success([[NOT, LParen] + sub.value + [RParen]]);
    }

    /** `list.map(walk).filter(Boolean)`. */
    method WalkList(items: seq<Json>) returns (r: Result<seq<Part>, string>)
      modifies this
      ensures match LowerList(items)
              case Failure(err) => r == Failure(err)
              case Success(subs) =>
                && r == Success(PrintAlternatives(subs))
                && names == old(names) + ListNames(items)
                && values == Written(old(values), SubOperands(subs))
      decreases SizeList(items), |items|
    {
      var parts: seq<Part> := [];
      ghost var subs: seq<Conj> := [];
      var i := 0;
      assert items[..0] == [];
      while i < |items|
        invariant 0 <= i <= |items|
        invariant LowerList(items[..i]) == Success(subs)
        invariant parts == PrintAlternatives(subs)
        invariant names == old(names) + ListNames(items[..i])
        invariant values == Written(old(values), SubOperands(subs))
      {
        ListItemSize(items, i);
        var sub := Walk(items[i]);
        if sub.Failure? {
          ListStop(items, i);
          return Failure(sub.error);
        }
        ghost var cs := Lower(items[i]).value;
        ListStep(items, i, subs, old(names), old(values));
        if sub.value != [] {
          parts := parts + [sub.value];
          subs := subs + [Conj(cs)];
        }
        i := i + 1;
      }
      assert items[..i] == items;
      r := Success(parts);
    }
  }

  /** `_ddbExpression`. */
  method CompileFilter(filter: Json) returns (r: Result<Output, string>)
    ensures r == Transformed(filter)
  {
    var t := new Transform();
    var expression := t.Walk(filter);
    OutputOf(filter);
    match expression
    case Failure(e) => r := Failure(e);
    case Success(tokens) => r := Success(Output(tokens, Tables(t.names, t.values)));
  }

  lemma OutputOf(filter: Json)
    ensures Lower(filter).Failure? ==> Transformed(filter) == Failure(Lower(filter).error)
    ensures Lower(filter).Success? ==>
              Transformed(filter) == Success(Output(Join(PrintClauses(Lower(filter).value), AND),
                Tables(map[] + NameTable(filter), Written(map[], Operands(Lower(filter).value)))))
  {
    assert map[] + NameTable(filter) == NameTable(filter);
  }

  // ---------------------------------------------------------------- loop lemmas

  lemma AlternativesBelow(value: Json)
    ensures SizeList(Alternatives(value)) <= 1 + Size(value)
  {
    AlternativesSize(value);
  }

  lemma EntriesStep(es: seq<Field>, i: nat, cs: seq<Clause>, names: map<string, string>, values: map<string, Attr>)
    requires i < |es| && LowerEntries(es[..i]) == Success(cs) && LowerEntry(es[i]).Success?
    ensures LowerEntries(es[..i + 1]) == Success(cs + LowerEntry(es[i]).value)
    ensures PrintClauses(cs + LowerEntry(es[i]).value) == PrintClauses(cs) + PrintClauses(LowerEntry(es[i]).value)
    ensures Written(Written(values, Operands(cs)), Operands(LowerEntry(es[i]).value))
         == Written(values, Operands(cs + LowerEntry(es[i]).value))
    ensures names + EntriesNames(es[..i + 1]) == names + EntriesNames(es[..i]) + EntryNames(es[i])
  {
    LowerStep(es, i);
    NamesStep(es, i, names);
    PrintAppend(cs, LowerEntry(es[i]).value);
    WriteStep(cs, LowerEntry(es[i]).value, values);
  }

  lemma LowerStep(es: seq<Field>, i: nat)
    requires i < |es| && LowerEntries(es[..i]).Success? && LowerEntry(es[i]).Success?
    ensures LowerEntries(es[..i + 1]) == Success(LowerEntries(es[..i]).value + LowerEntry(es[i]).value)
  {
    assert es[..i + 1][..i] == es[..i];
  }

  lemma NamesStep(es: seq<Field>, i: nat, names: map<string, string>)
    requires i < |es|
    ensures names + EntriesNames(es[..i + 1]) == names + EntriesNames(es[..i]) + EntryNames(es[i])
  {
    assert es[..i + 1][..i] == es[..i];
  }

  lemma WriteStep(a: seq<Clause>, b: seq<Clause>, values: map<string, Attr>)
    ensures Written(Written(values, Operands(a)), Operands(b)) == Written(values, Operands(a + b))
  {
    WrittenAppend(values, Operands(a), Operands(b));
    OperandsAppend(a, b);
  }

  lemma EntriesStop(es: seq<Field>, i: nat)
    requires i < |es| && LowerEntries(es[..i]).Success? && LowerEntry(es[i]).Failure?
    ensures LowerEntries(es) == Failure(LowerEntry(es[i]).error)
  {
    EntriesStopNow(es, i);
    hide LowerEntries, LowerEntry;
    EntriesFailure(es, i + 1);
  }

  lemma EntriesStopNow(es: seq<Field>, i: nat)
    requires i < |es| && LowerEntries(es[..i]).Success? && LowerEntry(es[i]).Failure?
    ensures LowerEntries(es[..i + 1]) == Failure(LowerEntry(es[i]).error)
  {
    hide LowerEntry;
    assert es[..i + 1][..i] == es[..i];
  }

  lemma ListStep(items: seq<Json>, i: nat, subs: seq<Conj>, names: map<string, string>, values: map<string, Attr>)
    requires i < |items| && LowerList(items[..i]) == Success(subs) && Lower(items[i]).Success?
    ensures Join(PrintClauses(Lower(items[i]).value), AND) == [] <==> Lower(items[i]).value == []
    ensures LowerList(items[..i + 1]) == Success(With(subs, Lower(items[i]).value))
    ensures PrintAlternatives(With(subs, Lower(items[i]).value))
         == PrintAlternatives(subs)
          + (if Lower(items[i]).value == [] then [] else [Join(PrintClauses(Lower(items[i]).value), AND)])
    ensures Written(Written(values, SubOperands(subs)), Operands(Lower(items[i]).value))
         == Written(values, SubOperands(With(subs, Lower(items[i]).value)))
    ensures names + ListNames(items[..i + 1]) == names + ListNames(items[..i]) + NameTable(items[i])
  {
    LowerListStep(items, i);
    ListNamesStep(items, i, names);
    NonemptyIff(Lower(items[i]).value);
    WithStep(subs, Lower(items[i]).value, values);
  }

  function With(subs: seq<Conj>, cs: seq<Clause>): seq<Conj> {
    if cs == [] then subs else subs + [Conj(cs)]
  }

  lemma LowerListStep(items: seq<Json>, i: nat)
    requires i < |items| && LowerList(items[..i]).Success? && Lower(items[i]).Success?
    ensures LowerList(items[..i + 1]) == Success(With(LowerList(items[..i]).value, Lower(items[i]).value))
  {
    assert items[..i + 1][..i] == items[..i];
  }

  lemma ListNamesStep(items: seq<Json>, i: nat, names: map<string, string>)
    requires i < |items|
    ensures names + ListNames(items[..i + 1]) == names + ListNames(items[..i]) + NameTable(items[i])
  {
    assert items[..i + 1][..i] == items[..i];
  }

  lemma WithStep(subs: seq<Conj>, cs: seq<Clause>, values: map<string, Attr>)
    ensures PrintAlternatives(With(subs, cs)) == PrintAlternatives(subs) + (if cs == [] then [] else [Join(PrintClauses(cs), AND)])
    ensures Written(Written(values, SubOperands(subs)), Operands(cs)) == Written(values, SubOperands(With(subs, cs)))
  {
    WrittenAppend(values, SubOperands(subs), Operands(cs));
    assert (subs + [Conj(cs)])[..|subs|] == subs;
  }

  lemma ListStop(items: seq<Json>, i: nat)
    requires i < |items| && LowerList(items[..i]).Success? && Lower(items[i]).Failure?
    ensures LowerList(items) == Failure(Lower(items[i]).error)
  {
    ListStopNow(items, i);
    hide LowerList, Lower;
    ListFailure(items, i + 1);
  }

  lemma ListStopNow(items: seq<Json>, i: nat)
    requires i < |items| && LowerList(items[..i]).Success? && Lower(items[i]).Failure?
    ensures LowerList(items[..i + 1]) == Failure(Lower(items[i]).error)
  {
    hide Lower;
    assert items[..i + 1][..i] == items[..i];
  }

  // An error met on the way is the error of the whole.

  lemma {:induction false} OpsFailure(field: string, ops: seq<Field>, m: nat)
    requires m <= |ops| && LowerOps(field, ops[..m]).Failure?
    ensures LowerOps(field, ops) == LowerOps(field, ops[..m])
    decreases |ops|
  {
    if m < |ops| {
      assert ops[..|ops| - 1][..m] == ops[..m];
      OpsFailure(field, ops[..|ops| - 1], m);
    } else {
      assert ops[..m] == ops;
    }
  }

  lemma {:induction false} EntriesFailure(es: seq<Field>, m: nat)
    requires m <= |es| && LowerEntries(es[..m]).Failure?
    ensures LowerEntries(es) == LowerEntries(es[..m])
    decreases |es|
  {
    if m < |es| {
      assert es[..|es| - 1][..m] == es[..m];
      EntriesFailure(es[..|es| - 1], m);
    } else {
      assert es[..m] == es;
    }
  }

  lemma {:induction false} ListFailure(items: seq<Json>, m: nat)
    requires m <= |items| && LowerList(items[..m]).Failure?
    ensures LowerList(items) == LowerList(items[..m])
    decreases |items|
  {
    if m < |items| {
      assert items[..|items| - 1][..m] == items[..m];
      ListFailure(items[..|items| - 1], m);
    } else {
      assert items[..m] == items;
    }
  }

  lemma {:induction false} EntrySize(es: seq<Field>, i: nat)
    requires i < |es|
    ensures SizeEntry(es[i]) <= SizeEntries(es)
  {
    if i < |es| - 1 {
      EntrySize(es[..|es| - 1], i);
    }
  }

  lemma {:induction false} ListItemSize(items: seq<Json>, i: nat)
    requires i < |items|
    ensures Size(items[i]) < SizeList(items)
  {
    if i < |items| - 1 {
      ListItemSize(items[..|items| - 1], i);
    }
  }

  lemma {:induction false} PrintAppend(a: seq<Clause>, b: seq<Clause>)
    ensures PrintClauses(a + b) == PrintClauses(a) + PrintClauses(b)
  {
    if b == [] {
      assert a + b == a;
    } else {
      var last := |b| - 1;
      assert (a + b)[..|a + b| - 1] == a + b[..last];
      PrintAppend(a, b[..last]);
    }
  }

  lemma SinglePrint(c: Clause)
    ensures PrintClauses([c]) == [Print(c)]
  {
    assert [c][..0] == [];
  }

  lemma NonemptyIff(cs: seq<Clause>)
    ensures Join(PrintClauses(cs), AND) == [] <==> cs == []
  {
    if cs != [] {
      PrintNonempty(cs);
    }
  }
}
