/** Reading an emitted expression back: what it parses to means what its clauses say. */
module FilterParsing {
  import opened Results
  import opened ConditionExpressions
  import opened FilterTransform

  // ---------------------------------------------------------------- the meaning of clauses

  /** Whether an item satisfies a clause. Groups and negations follow logic, not text. */
  ghost predicate Holds(c: Clause, item: Item, db: Primitives)
    decreases c, 0
  {
    match c
    case Comparison(f, cmp, v) => db.compare(cmp, Lookup(item, f), v.attr)
    case Applied(fn, f, v) => db.test(fn, Lookup(item, f), v.attr)
    case NotContains(f, v) => !db.test(Contains, Lookup(item, f), v.attr)
    case Present(f, present) => (f in item) == present
    case Interval(f, lo, hi) => Within(db, Lookup(item, f), lo.attr, hi.attr)
    case Member(f, vs) => exists v <- vs :: db.compare(Eq, Lookup(item, f), v.attr)
    case Group(true, subs) => forall sub <- subs :: AllHold(sub.clauses, item, db)
    case Group(false, subs) => exists sub <- subs :: AllHold(sub.clauses, item, db)
    case Negation(body) => !AllHold(body.clauses, item, db)
    case Stray(_) => false
  }

  ghost predicate AllHold(cs: seq<Clause>, item: Item, db: Primitives)
    decreases cs, 1
  {
    forall c <- cs :: Holds(c, item, db)
  }

  /** DynamoDB's grammar has no words for IN with no values, nor for what an inherited name writes. */
  predicate Parsable(c: Clause)
    decreases c, 0
  {
    match c
    case Member(_, vs) => vs != []
    case Group(_, subs) => forall sub <- subs :: AllParsable(sub.clauses)
    case Negation(body) => AllParsable(body.clauses)
    case Stray(_) => false
    case _ => true
  }

  predicate AllParsable(cs: seq<Clause>)
    decreases cs, 1
  {
    forall c <- cs :: Parsable(c)
  }

  /** Groups and negations are never empty, only functions of two arguments take an operand, and a stray part is a name or a word. */
  predicate Proper(c: Clause)
    decreases c, 0
  {
    match c
    case Group(_, subs) => subs != [] && forall sub <- subs :: sub.clauses != [] && AllProper(sub.clauses)
    case Negation(body) => body.clauses != [] && AllProper(body.clauses)
    case Applied(fn, _, _) => fn != AttributeExists && fn != AttributeNotExists
    case Stray(part) => part.Name? || part.Word?
    case _ => true
  }

  predicate AllProper(cs: seq<Clause>)
    decreases cs, 1
  {
    forall c <- cs :: Proper(c)
  }

  predicate Bound(o: Operand, t: Tables) {
    o.Key() in t.values && t.values[o.Key()] == o.attr
  }

  predicate Named(field: string, t: Tables) {
    NameRef(field) in t.names && t.names[NameRef(field)] == field
  }

  /** Every placeholder of the clause leads back to the field and the operand it was made from. */
  predicate Resolved(c: Clause, t: Tables)
    decreases c, 0
  {
    match c
    case Comparison(f, _, v) => Named(f, t) && Bound(v, t)
    case Applied(_, f, v) => Named(f, t) && Bound(v, t)
    case NotContains(f, v) => Named(f, t) && Bound(v, t)
    case Present(f, _) => Named(f, t)
    case Interval(f, lo, hi) => Named(f, t) && Bound(lo, t) && Bound(hi, t)
    case Member(f, vs) => Named(f, t) && forall v <- vs :: Bound(v, t)
    case Group(_, subs) => forall sub <- subs :: AllResolved(sub.clauses, t)
    case Negation(body) => AllResolved(body.clauses, t)
    case Stray(_) => true
  }

  predicate AllResolved(cs: seq<Clause>, t: Tables)
    decreases cs, 1
  {
    forall c <- cs :: Resolved(c, t)
  }

  // ---------------------------------------------------------------- joined parts, from the front

  lemma {:induction false} JoinFront(parts: seq<seq<Token>>, sep: Token)
    requires |parts| >= 2
    ensures Join(parts, sep) == parts[0] + [sep] + Join(parts[1..], sep)
  {
    var last := |parts| - 1;
    if last == 1 {
      assert parts[..1] == [parts[0]] && parts[1..] == [parts[1]];
    } else {
      JoinFront(parts[..last], sep);
      assert parts[..last][1..] == parts[1..][..last - 1];
      assert parts[1..][last - 1] == parts[last];
    }
  }

  lemma {:induction false} PrintClausesFront(cs: seq<Clause>)
    requires cs != []
    ensures PrintClauses(cs) == [Print(cs[0])] + PrintClauses(cs[1..])
  {
    var last := |cs| - 1;
    if last > 0 {
      PrintClausesFront(cs[..last]);
      assert cs[1..][..last - 1] == cs[..last][1..];
      assert cs[1..][last - 1] == cs[last];
    }
  }

  lemma {:induction false} PrintAlternativesFront(subs: seq<Conj>)
    requires subs != []
    ensures PrintAlternatives(subs) == [PrintConj(subs[0])] + PrintAlternatives(subs[1..])
  {
    var last := |subs| - 1;
    if last > 0 {
      PrintAlternativesFront(subs[..last]);
      assert subs[1..][..last - 1] == subs[..last][1..];
      assert subs[1..][last - 1] == subs[last];
    }
  }

  /** The first part, a separator, and the remaining parts: what the parser meets. */
  lemma JoinThen(parts: seq<seq<Token>>, first: seq<Token>, others: seq<seq<Token>>, sep: Token, rest: seq<Token>)
    requires parts == [first] + others && others != []
    ensures Join(parts, sep) + rest == first + ([sep] + (Join(others, sep) + rest))
  {
    JoinFront(parts, sep);
    assert parts[0] == first && parts[1..] == others;
    Regroup(first, sep, Join(others, sep), rest);
  }

  lemma Regroup(a: seq<Token>, sep: Token, b: seq<Token>, c: seq<Token>)
    ensures (a + [sep] + b) + c == a + ([sep] + (b + c))
  {
  }

  lemma JoinSingle(first: seq<Token>, sep: Token)
    ensures Join([first], sep) == first
  {
  }

  // ---------------------------------------------------------------- parsing what was printed

  type Parsed = Option<(Expr, seq<Token>)>

  /** A parse that consumed exactly up to `rest`, with the given truth value when `resolved`. */
  ghost predicate Reads(r: Parsed, rest: seq<Token>, resolved: bool, t: Tables, item: Item, db: Primitives, truth: bool) {
    && r.Some?
    && r.value.1 == rest
    && (resolved ==> Eval(r.value.0, t, item, db) == Some(truth))
  }

  function Keys(vs: seq<Operand>): (ks: seq<string>)
    ensures |ks| == |vs| && forall i :: 0 <= i < |vs| ==> ks[i] == vs[i].Key()
  {
    seq(|vs|, i requires 0 <= i < |vs| => vs[i].Key())
  }

  lemma {:induction false} ValuesParse(vs: seq<Operand>, list: seq<Token>, rest: seq<Token>)
    requires vs != [] && list == Values(vs) + [RParen] + rest
    ensures ParseValues(list) == Some((Keys(vs), rest))
    decreases |vs|
  {
    var key := vs[0].Key();
    if |vs| == 1 {
      assert list == [Val(key), RParen] + rest;
      assert Keys(vs) == [key];
    } else {
      var others := Values(vs[1..]) + [RParen] + rest;
      ValuesFront(vs);
      Reassociate([Val(key), Comma], Values(vs[1..]), [RParen], rest);
      ValuesParse(vs[1..], others, rest);
      KeysFront(vs);
    }
  }

  lemma KeysFront(vs: seq<Operand>)
    requires vs != []
    ensures Keys(vs) == [vs[0].Key()] + Keys(vs[1..])
  {
  }

  lemma Reassociate(a: seq<Token>, b: seq<Token>, c: seq<Token>, d: seq<Token>)
    ensures (a + b) + c + d == a + (b + c + d)
  {
  }

  lemma {:induction false} ValuesFront(vs: seq<Operand>)
    requires |vs| >= 2
    ensures Values(vs) == [Val(vs[0].Key()), Comma] + Values(vs[1..])
    decreases |vs|
  {
    var last := |vs| - 1;
    if last == 1 {
      assert vs[..1] == [vs[0]] && vs[1..] == [vs[1]];
    } else {
      ValuesFront(vs[..last]);
      assert vs[..last][1..] == vs[1..][..last - 1];
      assert vs[1..][last - 1] == vs[last];
    }
  }

  /** A clause in the grammar reads exactly; one outside it does not parse. */
  ghost predicate ReadsIf(ok: bool, r: Parsed, rest: seq<Token>, resolved: bool, t: Tables, item: Item, db: Primitives, truth: bool) {
    if ok then Reads(r, rest, resolved, t, item, db, truth) else r.None?
  }

  lemma MemberEval(c: Clause, t: Tables, item: Item, db: Primitives)
    requires c.Member? && Resolved(c, t)
    ensures Eval(OneOf(NameRef(c.field), Keys(c.vs)), t, item, db) == Some(Holds(c, item, db))
  {
    KeysEval(c.vs, t.values, Lookup(item, c.field), db);
  }

  lemma KeysEval(vs: seq<Operand>, values: map<string, Attr>, actual: Option<Attr>, db: Primitives)
    requires forall v <- vs :: v.Key() in values && values[v.Key()] == v.attr
    ensures forall k <- Keys(vs) :: k in values
    ensures (exists k <- Keys(vs) :: db.compare(Eq, actual, values[k])) <==> (exists v <- vs :: db.compare(Eq, actual, v.attr))
  {
    var keys := Keys(vs);
    forall k | k in keys ensures k in values {
      var i :| 0 <= i < |keys| && keys[i] == k;
      assert vs[i] in vs;
    }
    if k :| k in keys && db.compare(Eq, actual, values[k]) {
      var i :| 0 <= i < |keys| && keys[i] == k;
      assert vs[i] in vs;
    }
    if v :| v in vs && db.compare(Eq, actual, v.attr) {
      var i :| 0 <= i < |vs| && vs[i] == v;
      assert keys[i] in keys;
    }
  }

  lemma MemberParses(c: Clause, rest: seq<Token>, t: Tables, item: Item, db: Primitives)
    requires c.Member?
    ensures ReadsIf(Parsable(c), ParseNot(Print(c) + rest), rest, Resolved(c, t), t, item, db, Holds(c, item, db))
  {
    var name := NameRef(c.field);
    var list := Values(c.vs) + [RParen] + rest;
    var ts := Print(c) + rest;
    assert ts == [Name(name), IN, LParen] + list;
    if c.vs == [] {
      assert list[0] == RParen;
      InParses(name, list);
    } else {
      ValuesParse(c.vs, list, rest);
      InParses(name, list);
      if Resolved(c, t) {
        MemberEval(c, t, item, db);
      }
    }
  }

  lemma InParses(name: string, list: seq<Token>)
    ensures ParseNot([Name(name), IN, LParen] + list)
         == match ParseValues(list)
            case None => None
            case Some((values, rest)) => Some((OneOf(name, values), rest))
  {
    var ts := [Name(name), IN, LParen] + list;
    assert ts[3..] == list;
    assert ts[0] == Name(name) && ts[1] == IN && ts[2] == LParen;
  }

  lemma CallParses(fn: Fn, name: string, key: string, rest: seq<Token>)
    requires fn != AttributeExists && fn != AttributeNotExists
    ensures ParseNot([Call(fn), LParen, Name(name), Comma, Val(key), RParen] + rest) == Some((Test(fn, name, key), rest))
  {
    var ts := [Call(fn), LParen, Name(name), Comma, Val(key), RParen] + rest;
    assert ts[1..] == [LParen, Name(name), Comma, Val(key), RParen] + rest;
    assert ts[1..][5..] == rest;
  }

  lemma NotCallParses(name: string, key: string, rest: seq<Token>)
    ensures ParseNot([NOT, Call(Contains), LParen, Name(name), Comma, Val(key), RParen] + rest)
         == Some((Not(Test(Contains, name, key)), rest))
  {
    CallParses(Contains, name, key, rest);
    var call := [Call(Contains), LParen, Name(name), Comma, Val(key), RParen] + rest;
    assert ([NOT, Call(Contains), LParen, Name(name), Comma, Val(key), RParen] + rest)[1..] == call;
  }

  lemma ExistsParses(name: string, present: bool, rest: seq<Token>)
    ensures ParseNot([Call(if present then AttributeExists else AttributeNotExists), LParen, Name(name), RParen] + rest)
         == Some((Exists(name, present), rest))
  {
    var ts := [Call(if present then AttributeExists else AttributeNotExists), LParen, Name(name), RParen] + rest;
    assert ts[1..] == [LParen, Name(name), RParen] + rest;
    assert ts[1..][3..] == rest;
  }

  lemma CompareParses(name: string, cmp: Comparator, key: string, rest: seq<Token>)
    ensures ParseNot([Name(name), Cmp(cmp), Val(key)] + rest) == Some((Compare(name, cmp, key), rest))
  {
    assert ([Name(name), Cmp(cmp), Val(key)] + rest)[3..] == rest;
  }

  lemma RangeParses(name: string, lo: string, hi: string, rest: seq<Token>)
    ensures ParseNot([Name(name), BETWEEN, Val(lo), AND, Val(hi)] + rest) == Some((Range(name, lo, hi), rest))
  {
    assert ([Name(name), BETWEEN, Val(lo), AND, Val(hi)] + rest)[5..] == rest;
  }

  lemma AtomParses(c: Clause, rest: seq<Token>, t: Tables, item: Item, db: Primitives)
    requires !c.Group? && !c.Negation? && !c.Member? && !c.Stray? && Proper(c)
    ensures ReadsIf(true, ParseNot(Print(c) + rest), rest, Resolved(c, t), t, item, db, Holds(c, item, db))
  {
    if c.Comparison? || c.Interval? {
      CompareAtomParses(c, rest, t, item, db);
    } else {
      TestAtomParses(c, rest, t, item, db);
    }
  }

  lemma CompareAtomParses(c: Clause, rest: seq<Token>, t: Tables, item: Item, db: Primitives)
    requires c.Comparison? || c.Interval?
    ensures Reads(ParseNot(Print(c) + rest), rest, Resolved(c, t), t, item, db, Holds(c, item, db))
  {
    match c
    case Comparison(f, cmp, v) => CompareParses(NameRef(f), cmp, v.Key(), rest);
    case Interval(f, lo, hi) => RangeParses(NameRef(f), lo.Key(), hi.Key(), rest);
  }

  lemma TestAtomParses(c: Clause, rest: seq<Token>, t: Tables, item: Item, db: Primitives)
    requires c.Applied? || c.NotContains? || c.Present?
    requires Proper(c)
    ensures Reads(ParseNot(Print(c) + rest), rest, Resolved(c, t), t, item, db, Holds(c, item, db))
  {
    match c
    case Applied(fn, f, v) => CallParses(fn, NameRef(f), v.Key(), rest);
    case NotContains(f, v) => NotCallParses(NameRef(f), v.Key(), rest);
    case Present(f, present) => ExistsParses(NameRef(f), present, rest);
  }

  /** What a conjunction reads as when a further AND may follow it in `rest`. */
  ghost predicate ReadsOn(ok: bool, r: Parsed, rest: seq<Token>, resolved: bool, t: Tables, item: Item, db: Primitives, truth: bool) {
    if !ok then r.None?
    else if !StartsWith(rest, AND) then Reads(r, rest, resolved, t, item, db, truth)
    else
      match ParseAnd(rest[1..])
      case None => r.None?
      case Some((e, rest')) =>
        && r.Some? && r.value.1 == rest'
        && forall b :: resolved && Eval(e, t, item, db) == Some(b)
             ==> Eval(r.value.0, t, item, db) == Some(truth && b)
  }

  lemma AndLast(ts: seq<Token>, rest: seq<Token>, t: Tables, item: Item, db: Primitives, ok: bool, resolved: bool, truth: bool)
    requires ReadsIf(ok, ParseNot(ts), rest, resolved, t, item, db, truth)
    ensures ReadsOn(ok, ParseAnd(ts), rest, resolved, t, item, db, truth)
  {
  }

  lemma AndNext(ts: seq<Token>, others: seq<Token>, rest: seq<Token>, t: Tables, item: Item, db: Primitives,
                ok: bool, resolved: bool, truth: bool, ok': bool, resolved': bool, truth': bool)
    requires ReadsIf(ok, ParseNot(ts), [AND] + others, resolved, t, item, db, truth)
    requires ReadsOn(ok', ParseAnd(others), rest, resolved', t, item, db, truth')
    ensures ReadsOn(ok && ok', ParseAnd(ts), rest, resolved && resolved', t, item, db, truth && truth')
  {
    assert ([AND] + others)[1..] == others;
  }

  lemma AndGroup(ts: seq<Token>, others: seq<Token>, rest: seq<Token>, t: Tables, item: Item, db: Primitives,
                 ok: bool, resolved: bool, truth: bool, ok': bool, resolved': bool, truth': bool)
    requires !StartsWith(rest, AND)
    requires ReadsOn(ok, ParseAnd(ts), [AND] + others, resolved, t, item, db, truth)
    requires ReadsIf(ok', ParseAnd(others), rest, resolved', t, item, db, truth')
    ensures ReadsIf(ok && ok', ParseAnd(ts), rest, resolved && resolved', t, item, db, truth && truth')
  {
    assert ([AND] + others)[1..] == others;
  }

  lemma NoneAfter(r: Parsed, rest: seq<Token>, t: Tables, item: Item, db: Primitives, ok: bool, resolved: bool, truth: bool)
    requires !StartsWith(rest, AND) && ReadsOn(ok, r, rest, resolved, t, item, db, truth)
    ensures ReadsIf(ok, r, rest, resolved, t, item, db, truth)
  {
  }

  lemma AndAlone(ts: seq<Token>, rest: seq<Token>, t: Tables, item: Item, db: Primitives, ok: bool, resolved: bool, truth: bool)
    requires !StartsWith(rest, OR) && ReadsIf(ok, ParseAnd(ts), rest, resolved, t, item, db, truth)
    ensures ReadsIf(ok, ParseOr(ts), rest, resolved, t, item, db, truth)
  {
  }

  lemma OrLast(ts: seq<Token>, rest: seq<Token>, t: Tables, item: Item, db: Primitives, ok: bool, resolved: bool, truth: bool)
    requires !StartsWith(rest, AND) && !StartsWith(rest, OR)
    requires ReadsOn(ok, ParseAnd(ts), rest, resolved, t, item, db, truth)
    ensures ReadsIf(ok, ParseOr(ts), rest, resolved, t, item, db, truth)
  {
  }

  lemma OrNext(ts: seq<Token>, others: seq<Token>, rest: seq<Token>, t: Tables, item: Item, db: Primitives,
               ok: bool, resolved: bool, truth: bool, ok': bool, resolved': bool, truth': bool)
    requires ReadsOn(ok, ParseAnd(ts), [OR] + others, resolved, t, item, db, truth)
    requires ReadsIf(ok', ParseOr(others), rest, resolved', t, item, db, truth')
    ensures ReadsIf(ok && ok', ParseOr(ts), rest, resolved && resolved', t, item, db, truth || truth')
  {
    assert ([OR] + others)[1..] == others;
  }

  /** A parenthesised expression is one operand. */
  lemma ParenthesisParses(body: seq<Token>, rest: seq<Token>, t: Tables, item: Item, db: Primitives,
                          ok: bool, resolved: bool, truth: bool)
    requires ReadsIf(ok, ParseOr(body + ([RParen] + rest)), [RParen] + rest, resolved, t, item, db, truth)
    ensures ReadsIf(ok, ParseNot([LParen] + body + [RParen] + rest), rest, resolved, t, item, db, truth)
  {
    var ts := [LParen] + body + [RParen] + rest;
    assert ts[1..] == body + ([RParen] + rest);
    assert ([RParen] + rest)[1..] == rest;
  }

  lemma NotParses(arg: seq<Token>, rest: seq<Token>, t: Tables, item: Item, db: Primitives,
                  ok: bool, resolved: bool, truth: bool)
    requires ReadsIf(ok, ParseNot(arg + rest), rest, resolved, t, item, db, truth)
    ensures ReadsIf(ok, ParseNot([NOT] + arg + rest), rest, resolved, t, item, db, !truth)
  {
    assert ([NOT] + arg + rest)[1..] == arg + rest;
  }

  /** What may follow a complete operand: the end, a connective or a closing parenthesis. */
  predicate Closes(rest: seq<Token>) {
    rest == [] || rest[0] == AND || rest[0] == OR || rest[0] == RParen
  }

  lemma StrayParses(part: Token, rest: seq<Token>)
    requires (part.Name? || part.Word?) && Closes(rest)
    ensures ParseNot([part] + rest) == None
  {
    var ts := [part] + rest;
    assert ts[0] == part && (|ts| > 1 ==> ts[1] == rest[0]);
  }

  /** A clause is one operand of NOT, whatever complete expression goes on after it. */
  lemma {:induction false} ClauseParses(c: Clause, rest: seq<Token>, t: Tables, item: Item, db: Primitives)
    requires Proper(c) && Closes(rest)
    ensures ReadsIf(Parsable(c), ParseNot(Print(c) + rest), rest, Resolved(c, t), t, item, db, Holds(c, item, db))
    decreases c, 0
  {
    match c
    case Group(true, subs) =>
      AndListParses(subs, [RParen] + rest, t, item, db);
      AndAlone(Join(PrintAlternatives(subs), AND) + ([RParen] + rest), [RParen] + rest, t, item, db,
               SubsParsable(subs), SubsResolved(subs, t), EverySub(subs, item, db));
      GroupParses(c, rest, t, item, db);
    case Group(false, subs) =>
      OrListParses(subs, [RParen] + rest, t, item, db);
      GroupParses(c, rest, t, item, db);
    case Negation(body) =>
      ConjParses(body.clauses, [RParen] + rest, t, item, db);
      NegationParses(body, rest, t, item, db);
    case Member(_, _) => MemberParses(c, rest, t, item, db);
    case Stray(part) => StrayParses(part, rest);
    case _ => AtomParses(c, rest, t, item, db);
  }

  lemma GroupParses(c: Clause, rest: seq<Token>, t: Tables, item: Item, db: Primitives)
    requires c.Group?
    requires var body := Join(PrintAlternatives(c.subs), if c.conj then AND else OR);
             ReadsIf(SubsParsable(c.subs), ParseOr(body + ([RParen] + rest)), [RParen] + rest, SubsResolved(c.subs, t),
                     t, item, db, if c.conj then EverySub(c.subs, item, db) else SomeSub(c.subs, item, db))
    ensures ReadsIf(Parsable(c), ParseNot(Print(c) + rest), rest, Resolved(c, t), t, item, db, Holds(c, item, db))
  {
    ParenthesisParses(Join(PrintAlternatives(c.subs), if c.conj then AND else OR), rest, t, item, db,
                      SubsParsable(c.subs), SubsResolved(c.subs, t),
                      if c.conj then EverySub(c.subs, item, db) else SomeSub(c.subs, item, db));
  }

  lemma NegationParses(body: Conj, rest: seq<Token>, t: Tables, item: Item, db: Primitives)
    requires var cs := body.clauses;
             ReadsOn(AllParsable(cs), ParseAnd(PrintConj(body) + ([RParen] + rest)), [RParen] + rest, AllResolved(cs, t),
                     t, item, db, AllHold(cs, item, db))
    ensures var c := Negation(body);
            ReadsIf(Parsable(c), ParseNot(Print(c) + rest), rest, Resolved(c, t), t, item, db, Holds(c, item, db))
  {
    var cs := body.clauses;
    var ok, resolved, truth := AllParsable(cs), AllResolved(cs, t), AllHold(cs, item, db);
    OrLast(PrintConj(body) + ([RParen] + rest), [RParen] + rest, t, item, db, ok, resolved, truth);
    ParenthesisParses(PrintConj(body), rest, t, item, db, ok, resolved, truth);
    var arg := [LParen] + PrintConj(body) + [RParen];
    NotParses(arg, rest, t, item, db, ok, resolved, truth);
    assert Print(Negation(body)) == [NOT] + arg;
  }

  /** AND binds the clauses of one filter, and goes on into a further AND when one follows. */
  lemma {:induction false} ConjParses(cs: seq<Clause>, rest: seq<Token>, t: Tables, item: Item, db: Primitives)
    requires cs != [] && AllProper(cs) && Closes(rest)
    ensures ReadsOn(AllParsable(cs), ParseAnd(Join(PrintClauses(cs), AND) + rest), rest,
                    AllResolved(cs, t), t, item, db, AllHold(cs, item, db))
    decreases cs, 1
  {
    var c, others := cs[0], cs[1..];
    var ok, resolved, truth := Parsable(c), Resolved(c, t), Holds(c, item, db);
    SplitFront(cs, t, item, db);
    PrintClausesFront(cs);
    if others == [] {
      JoinSingle(Print(c), AND);
      ClauseParses(c, rest, t, item, db);
      AndLast(Print(c) + rest, rest, t, item, db, ok, resolved, truth);
      assert PrintClauses(cs) == [Print(c)];
    } else {
      JoinThen(PrintClauses(cs), Print(c), PrintClauses(others), AND, rest);
      var later := Join(PrintClauses(others), AND) + rest;
      ClauseParses(c, [AND] + later, t, item, db);
      ConjParses(others, rest, t, item, db);
      AndNext(Print(c) + ([AND] + later), later, rest, t, item, db, ok, resolved, truth,
              AllParsable(others), AllResolved(others, t), AllHold(others, item, db));
    }
  }

  lemma SplitFront(cs: seq<Clause>, t: Tables, item: Item, db: Primitives)
    requires cs != []
    ensures AllParsable(cs) <==> Parsable(cs[0]) && AllParsable(cs[1..])
    ensures AllResolved(cs, t) <==> Resolved(cs[0], t) && AllResolved(cs[1..], t)
    ensures AllHold(cs, item, db) <==> Holds(cs[0], item, db) && AllHold(cs[1..], item, db)
    ensures AllProper(cs) <==> Proper(cs[0]) && AllProper(cs[1..])
  {
    assert cs == [cs[0]] + cs[1..];
  }

  ghost predicate SubsProper(subs: seq<Conj>) {
    forall sub <- subs :: sub.clauses != [] && AllProper(sub.clauses)
  }

  ghost predicate SubsParsable(subs: seq<Conj>) {
    forall sub <- subs :: AllParsable(sub.clauses)
  }

  ghost predicate SubsResolved(subs: seq<Conj>, t: Tables) {
    forall sub <- subs :: AllResolved(sub.clauses, t)
  }

  ghost predicate EverySub(subs: seq<Conj>, item: Item, db: Primitives) {
    forall sub <- subs :: AllHold(sub.clauses, item, db)
  }

  ghost predicate SomeSub(subs: seq<Conj>, item: Item, db: Primitives) {
    exists sub <- subs :: AllHold(sub.clauses, item, db)
  }

  lemma SubsFront(subs: seq<Conj>, t: Tables, item: Item, db: Primitives)
    requires subs != []
    ensures var cs, others := subs[0].clauses, subs[1..];
            && (SubsProper(subs) <==> cs != [] && AllProper(cs) && SubsProper(others))
            && (SubsParsable(subs) <==> AllParsable(cs) && SubsParsable(others))
            && (SubsResolved(subs, t) <==> AllResolved(cs, t) && SubsResolved(others, t))
            && (EverySub(subs, item, db) <==> AllHold(cs, item, db) && EverySub(others, item, db))
            && (SomeSub(subs, item, db) <==> AllHold(cs, item, db) || SomeSub(others, item, db))
  {
    hide AllProper, AllParsable, AllResolved, AllHold;
    assert subs == [subs[0]] + subs[1..];
  }

  lemma NoAlternatives()
    ensures PrintAlternatives([]) == []
  {
  }

  lemma NoSubs(t: Tables, item: Item, db: Primitives)
    ensures SubsParsable([]) && SubsResolved([], t) && EverySub([], item, db) && !SomeSub([], item, db)
  {
  }

  /** Filters under `and`: their clauses flow into one conjunction. */
  lemma {:induction false} AndListParses(subs: seq<Conj>, rest: seq<Token>, t: Tables, item: Item, db: Primitives)
    requires subs != [] && SubsProper(subs) && Closes(rest) && !StartsWith(rest, AND)
    ensures ReadsIf(SubsParsable(subs), ParseAnd(Join(PrintAlternatives(subs), AND) + rest), rest,
                    SubsResolved(subs, t), t, item, db, EverySub(subs, item, db))
    decreases subs, 1
  {
    var cs, others := subs[0].clauses, subs[1..];
    PrintAlternativesFront(subs);
    SubsFront(subs, t, item, db);
    hide ReadsIf, ReadsOn, ParseAnd, ParseOr, Join, PrintAlternatives, PrintConj;
    hide AllProper, AllParsable, AllResolved, AllHold, SubsProper, SubsParsable, SubsResolved, EverySub, SomeSub;
    if others == [] {
      NoSubs(t, item, db);
      NoAlternatives();
      JoinSingle(PrintConj(subs[0]), AND);
      ConjParses(cs, rest, t, item, db);
      assert PrintAlternatives(subs) == [PrintConj(subs[0])];
      NoneAfter(ParseAnd(PrintConj(subs[0]) + rest), rest, t, item, db, AllParsable(cs), AllResolved(cs, t), AllHold(cs, item, db));
    } else {
      JoinThen(PrintAlternatives(subs), PrintConj(subs[0]), PrintAlternatives(others), AND, rest);
      var later := Join(PrintAlternatives(others), AND) + rest;
      ConjParses(cs, [AND] + later, t, item, db);
      AndListParses(others, rest, t, item, db);
      AndGroup(PrintConj(subs[0]) + ([AND] + later), later, rest, t, item, db,
               AllParsable(cs), AllResolved(cs, t), AllHold(cs, item, db),
               SubsParsable(others), SubsResolved(others, t), EverySub(others, item, db));
    }
  }

  /** Filters under `or`: each is a conjunction of its own, since AND binds tighter than OR. */
  lemma {:induction false} OrListParses(subs: seq<Conj>, rest: seq<Token>, t: Tables, item: Item, db: Primitives)
    requires subs != [] && SubsProper(subs) && Closes(rest) && !StartsWith(rest, AND) && !StartsWith(rest, OR)
    ensures ReadsIf(SubsParsable(subs), ParseOr(Join(PrintAlternatives(subs), OR) + rest), rest,
                    SubsResolved(subs, t), t, item, db, SomeSub(subs, item, db))
    decreases subs, 1
  {
    var cs, others := subs[0].clauses, subs[1..];
    PrintAlternativesFront(subs);
    SubsFront(subs, t, item, db);
    hide ReadsIf, ReadsOn, ParseAnd, ParseOr, Join, PrintAlternatives, PrintConj;
    hide AllProper, AllParsable, AllResolved, AllHold, SubsProper, SubsParsable, SubsResolved, EverySub, SomeSub;
    if others == [] {
      NoSubs(t, item, db);
      NoAlternatives();
      JoinSingle(PrintConj(subs[0]), OR);
      ConjParses(cs, rest, t, item, db);
      assert PrintAlternatives(subs) == [PrintConj(subs[0])];
      OrLast(PrintConj(subs[0]) + rest, rest, t, item, db, AllParsable(cs), AllResolved(cs, t), AllHold(cs, item, db));
    } else {
      JoinThen(PrintAlternatives(subs), PrintConj(subs[0]), PrintAlternatives(others), OR, rest);
      var later := Join(PrintAlternatives(others), OR) + rest;
      ConjParses(cs, [OR] + later, t, item, db);
      OrListParses(others, rest, t, item, db);
      OrNext(PrintConj(subs[0]) + ([OR] + later), later, rest, t, item, db,
             AllParsable(cs), AllResolved(cs, t), AllHold(cs, item, db),
             SubsParsable(others), SubsResolved(others, t), SomeSub(others, item, db));
    }
  }
}
