/**
  What policies say (`ministack/core/iam_evaluator.py`), over their own lists: wildcards as cuts of a
  value, letters up to case, operators by their names. Every decision is then a statement about the
  policies' statements alone.
 */
module IamMeaning {
  import C = IamConditions
  import opened IamGlob
  import opened IamPrincipals
  import opened IamDecision
  import opened PythonText
  import opened Results
  import opened TextMeaning

  // ---------------------------------------------------------------- wildcards

  /** A pattern names a value: wildcards within a line, and one final newline may be left over. */
  ghost predicate Wild(value: string, pattern: string, ignoreCase: bool) {
    || pattern == "*"
    || LineGlob(pattern, value, ignoreCase)
    || (value != "" && value[|value| - 1] == '\n' && LineGlob(pattern, value[..|value| - 1], ignoreCase))
  }

  /** On a value without a newline that is being cut into one part per pattern character. */
  lemma WildIsGlob(value: string, pattern: string, ignoreCase: bool)
    requires NoNewline(value)
    ensures Wild(value, pattern, ignoreCase) <==> Glob(pattern, value, ignoreCase)
  {
    hide LineGlob, Glob;
    FnmatchExactly(value, pattern, ignoreCase);
    FnmatchIsGlob(value, pattern, ignoreCase);
  }

  /** Two characters count as the same, up to case when that is ignored. */
  lemma SameCharIff(c: char, d: char, ignoreCase: bool)
    ensures SameChar(c, d, ignoreCase) <==> if ignoreCase then CaseVariants(c, d) else c == d
  {
    SameLowerIff(c, d);
  }

  predicate NoWildcard(pattern: string) {
    forall i :: 0 <= i < |pattern| ==> pattern[i] != '*' && pattern[i] != '?'
  }

  predicate EqualUpToCase(s: string, t: string) {
    |s| == |t| && forall i :: 0 <= i < |s| ==> CaseVariants(s[i], t[i])
  }

  /** A pattern without wildcards names a line exactly when it is the line, up to case when that is ignored. */
  lemma PlainPatternIff(value: string, pattern: string, ignoreCase: bool)
    requires NoNewline(value) && NoWildcard(pattern)
    ensures Fnmatch(value, pattern, ignoreCase) <==> if ignoreCase then EqualUpToCase(pattern, value) else pattern == value
  {
    FnmatchIsGlob(value, pattern, ignoreCase);
    hide Fnmatch;
    if parts :| Splits(pattern, parts, value, ignoreCase) {
      SingleParts(parts);
      forall i | 0 <= i < |pattern| ensures SameChar(pattern[i], value[i], ignoreCase) {
        assert Fits(pattern[i], parts[i], ignoreCase);
      }
      forall i | 0 <= i < |pattern| ensures if ignoreCase then CaseVariants(pattern[i], value[i]) else pattern[i] == value[i] {
        SameCharIff(pattern[i], value[i], ignoreCase);
      }
    }
    if if ignoreCase then EqualUpToCase(pattern, value) else pattern == value {
      SinglesConcat(value);
      forall i | 0 <= i < |pattern| ensures Fits(pattern[i], Singles(value)[i], ignoreCase) {
        SameCharIff(pattern[i], value[i], ignoreCase);
      }
      assert Splits(pattern, Singles(value), value, ignoreCase);
    }
  }

  lemma {:induction false} SingleParts(parts: seq<string>)
    requires forall i :: 0 <= i < |parts| ==> |parts[i]| == 1
    ensures |Concat(parts)| == |parts| && forall i :: 0 <= i < |parts| ==> Concat(parts)[i] == parts[i][0]
  {
    if parts != [] {
      assert forall i :: 0 <= i < |parts| - 1 ==> parts[1..][i] == parts[i + 1];
      SingleParts(parts[1..]);
    }
  }

  // ---------------------------------------------------------------- statements

  /** Some listed pattern names the value or, with none listed, no excluded one does. */
  ghost predicate Listed(value: string, patterns: seq<string>, excluded: seq<string>, ignoreCase: bool) {
    if patterns == [] then forall p <- excluded :: !Wild(value, p, ignoreCase)
    else exists p <- patterns :: Wild(value, p, ignoreCase)
  }

  /** The statement is about this action, whatever its case, and this resource, and its conditions are met. */
  ghost predicate Counts(ctx: Context, s: Statement) {
    && Listed(ctx.action, s.actions, s.notActions, true)
    && Listed(ctx.resourceArn, s.resources, s.notResources, false)
    && C.Met(ctx.readers, ctx.lookup, s.conditions)
  }

  lemma ListedIff(value: string, patterns: seq<string>, excluded: seq<string>, ignoreCase: bool)
    ensures ListMatches(value, patterns, excluded, ignoreCase) <==> Listed(value, patterns, excluded, ignoreCase)
  {
    forall p ensures Fnmatch(value, p, ignoreCase) <==> Wild(value, p, ignoreCase) {
      FnmatchExactly(value, p, ignoreCase);
    }
    hide Fnmatch, Wild;
  }

  /** A statement applies exactly when it counts. */
  lemma AppliesIff(ctx: Context, s: Statement)
    ensures Applies(ctx, s) <==> Counts(ctx, s)
  {
    hide ListMatches, Listed, C.Met;
    ListedIff(ctx.action, s.actions, s.notActions, true);
    ListedIff(ctx.resourceArn, s.resources, s.notResources, false);
  }

  // ---------------------------------------------------------------- decisions of layers

  /** Some statement of that effect in the layer's documents counts. */
  ghost predicate Speaks(ctx: Context, layer: Layer, effect: Effect) {
    exists stmts <- layer, s <- stmts :: s.effect == effect && Counts(ctx, s)
  }

  lemma SpeaksIff(ctx: Context, layer: Layer, effect: Effect)
    ensures LayerHas(ctx, layer, effect) <==> Speaks(ctx, layer, effect)
  {
    hide Counts, Applies, Flat;
    if LayerHas(ctx, layer, effect) {
      var s :| s in Flat(layer) && s.effect == effect && Applies(ctx, s);
      AppliesIff(ctx, s);
      var stmts :| stmts in layer && s in stmts;
    }
    if Speaks(ctx, layer, effect) {
      var stmts, s :| stmts in layer && s in stmts && s.effect == effect && Counts(ctx, s);
      AppliesIff(ctx, s);
      assert s in Flat(layer);
    }
  }

  /** A request is denied by any Deny that counts, and allowed without one by an Allow in the policies and in every limit. */
  lemma EvaluateMeans(ctx: Context, policies: Layer, limits: seq<Layer>)
    ensures var d := Evaluate(ctx, policies, limits).decision;
      && (d == Denied <==> Speaks(ctx, policies, Deny) || exists layer <- limits :: Speaks(ctx, layer, Deny))
      && (d == Allowed <==>
            && !Speaks(ctx, policies, Deny) && (forall layer <- limits :: !Speaks(ctx, layer, Deny))
            && Speaks(ctx, policies, Allow) && (forall layer <- limits :: Speaks(ctx, layer, Allow)))
  {
    hide LayerHas, Speaks, Evaluate;
    EvaluateIff(ctx, policies, limits);
    forall layer, effect ensures LayerHas(ctx, layer, effect) <==> Speaks(ctx, layer, effect) {
      SpeaksIff(ctx, layer, effect);
    }
  }

  /** The first statement of the effect that counts, in document order, carries this sid. */
  ghost predicate FirstSid(ctx: Context, layer: Layer, effect: Effect, sid: string) {
    exists i, j :: FirstSidAt(ctx, layer, effect, sid, i, j)
  }

  ghost predicate FirstSidAt(ctx: Context, layer: Layer, effect: Effect, sid: string, i: int, j: int) {
    && 0 <= i < |layer| && 0 <= j < |layer[i]|
    && layer[i][j].effect == effect && Counts(ctx, layer[i][j]) && layer[i][j].sid == sid
    && (forall k :: 0 <= k < j ==> layer[i][k].effect != effect || !Counts(ctx, layer[i][k]))
    && (forall l :: 0 <= l < i ==> forall s <- layer[l] :: s.effect != effect || !Counts(ctx, s))
  }

  /** Where a statement of the flattened layer stands. */
  lemma {:induction false} FlatPlace(layer: Layer, n: nat) returns (i: nat, j: nat)
    requires n < |Flat(layer)|
    ensures i < |layer| && j < |layer[i]| && Flat(layer)[n] == layer[i][j]
    ensures forall k :: 0 <= k < j ==> layer[i][k] in Flat(layer)[..n]
    ensures forall l :: 0 <= l < i ==> forall s <- layer[l] :: s in Flat(layer)[..n]
  {
    var first, rest := layer[0], Flat(layer[1..]);
    assert Flat(layer) == first + rest;
    if n < |first| {
      i, j := 0, n;
      assert forall k :: 0 <= k < n ==> Flat(layer)[..n][k] == first[k];
    } else {
      var i', j' := FlatPlace(layer[1..], n - |first|);
      i, j := i' + 1, j';
      var before := Flat(layer)[..n];
      assert before == first + rest[..n - |first|];
      forall l | 0 <= l < i ensures forall s <- layer[l] :: s in before {
        assert l > 0 ==> layer[l] == layer[1..][l - 1];
      }
    }
  }

  lemma FirstMatchSid(ctx: Context, layer: Layer, effect: Effect)
    requires FirstMatch(ctx, Flat(layer), effect).Some?
    ensures FirstSid(ctx, layer, effect, FirstMatch(ctx, Flat(layer), effect).value.sid)
  {
    hide Applies, Counts, Flat;
    var flat := Flat(layer);
    var s := FirstMatch(ctx, flat, effect).value;
    var n: nat :| n < |flat| && flat[n] == s && !Has(ctx, flat[..n], effect) && s.effect == effect && Applies(ctx, s);
    var i, j := FlatPlace(layer, n);
    forall t ensures Applies(ctx, t) <==> Counts(ctx, t) {
      AppliesIff(ctx, t);
    }
    assert FirstSidAt(ctx, layer, effect, s.sid, i, j);
  }

  lemma {:induction false} FirstDenySid(ctx: Context, layers: seq<Layer>)
    requires FirstDeny(ctx, layers).Some?
    ensures exists k :: 0 <= k < |layers| && FirstSid(ctx, layers[k], Deny, FirstDeny(ctx, layers).value.sid)
                        && forall l :: 0 <= l < k ==> !Speaks(ctx, layers[l], Deny)
  {
    hide FirstMatch, Flat, FirstSid, Speaks;
    LayerDenies(ctx, layers[0]);
    SpeaksIff(ctx, layers[0], Deny);
    if FirstMatch(ctx, Flat(layers[0]), Deny).Some? {
      FirstMatchSid(ctx, layers[0], Deny);
      assert FirstSid(ctx, layers[0], Deny, FirstDeny(ctx, layers).value.sid);
    } else {
      FirstDenySid(ctx, layers[1..]);
      var k :| 0 <= k < |layers[1..]| && FirstSid(ctx, layers[1..][k], Deny, FirstDeny(ctx, layers[1..]).value.sid)
               && forall l :: 0 <= l < k ==> !Speaks(ctx, layers[1..][l], Deny);
      assert layers[k + 1] == layers[1..][k];
      assert forall l :: 0 < l < k + 1 ==> layers[l] == layers[1..][l - 1];
    }
  }

  lemma LayerDenies(ctx: Context, layer: Layer)
    ensures LayerHas(ctx, layer, Deny) == FirstMatch(ctx, Flat(layer), Deny).Some?
  {
  }

  /** A decision names the statement that made it: the first Allow of the policies, or the first Deny of the first layer to deny. */
  lemma EvaluateNames(ctx: Context, policies: Layer, limits: seq<Layer>)
    ensures var r := Evaluate(ctx, policies, limits); var layers := [policies] + limits;
      && (r.decision == Allowed ==> FirstSid(ctx, policies, Allow, r.sid))
      && (r.decision == Denied ==>
            exists k :: 0 <= k < |layers| && FirstSid(ctx, layers[k], Deny, r.sid)
                        && forall l :: 0 <= l < k ==> !Speaks(ctx, layers[l], Deny))
      && (r.decision == Implicit ==> r.sid == "") && r.resourcePolicyArn == ""
  {
    hide FirstSid, Speaks, Flat;
    if FirstDeny(ctx, [policies] + limits).Some? {
      FirstDenySid(ctx, [policies] + limits);
    } else if FirstMatch(ctx, Flat(policies), Allow).Some? {
      FirstMatchSid(ctx, policies, Allow);
    }
    hide FirstDeny, FirstMatch;
  }

  // ---------------------------------------------------------------- resource policies

  lemma {:induction false} SelectedJoin(a: Document, b: Document, mode: Mode, caller: string)
    ensures Selected(a + b, mode, caller) == Selected(a, mode, caller) + Selected(b, mode, caller)
  {
    hide Selects;
    if b == [] {
      assert a + b == a;
    } else {
      var last := |b| - 1;
      assert (a + b)[..|a + b| - 1] == a + b[..last];
      SelectedJoin(a, b[..last], mode, caller);
    }
  }

  /** Selection goes statement by statement, in the order of the document. */
  lemma SelectedInOrder(a: Document, raw: RawStatement, b: Document, mode: Mode, caller: string)
    ensures Selected(a + [raw] + b, mode, caller)
         == Selected(a, mode, caller) + (if Selects(mode, raw.principal, caller) then [raw] else []) + Selected(b, mode, caller)
  {
    SelectedJoin(a + [raw], b, mode, caller);
    SelectedJoin(a, [raw], mode, caller);
    assert [raw][..0] == [];
    assert Selected([raw], mode, caller) == if Selects(mode, raw.principal, caller) then [raw] else [];
    hide Selects;
  }

  lemma {:induction false} ParseJoin(a: Document, b: Document)
    ensures Parse(a + b) == Parse(a) + Parse(b)
  {
    if a == [] {
      assert a + b == b;
    } else {
      assert (a + b)[1..] == a[1..] + b;
      ParseJoin(a[1..], b);
    }
  }

  /** Parsing keeps the order too, and drops what has no parsed form. */
  lemma ParsedInOrder(a: Document, raw: RawStatement, b: Document)
    ensures Parse(a + [raw] + b) == Parse(a) + (if raw.parsed.Some? then [raw.parsed.value] else []) + Parse(b)
  {
    ParseJoin(a + [raw], b);
    ParseJoin(a, [raw]);
    assert [raw][1..] == [];
  }

  /** Some statement of the document that the mode selects has the effect and counts. */
  ghost predicate Says(ctx: Context, doc: Document, mode: Mode, effect: Effect) {
    exists raw <- doc :: raw.parsed.Some? && raw.parsed.value.effect == effect
                         && Selects(mode, raw.principal, ctx.principalArn) && Counts(ctx, raw.parsed.value)
  }

  lemma SaysIff(ctx: Context, doc: Document, mode: Mode, effect: Effect)
    ensures DocumentHas(ctx, doc, mode, effect) <==> Says(ctx, doc, mode, effect)
  {
    forall s ensures Applies(ctx, s) <==> Counts(ctx, s) {
      AppliesIff(ctx, s);
    }
    hide Applies, Counts, Selects;
  }

  /**
    The combined decision, for any document: a Deny that counts anywhere denies. Without one the
    identity's side and the resource's must both allow; in the owner's account the identity's is
    enough unless the resource's is required, and so is the resource's when it names the caller
    beyond the account and either every limit allows or it names the caller's own ARN.
   */
  lemma AuthorizeMeans(ctx: Context, policies: Layer, limits: seq<Layer>, doc: Document, owner: Option<string>, required: bool)
    ensures var d := Authorize(ctx, policies, limits, doc, owner, required).decision;
      var denied := Speaks(ctx, policies, Deny) || (exists layer <- limits :: Speaks(ctx, layer, Deny)) || Says(ctx, doc, Full(None), Deny);
      var within := forall layer <- limits :: Speaks(ctx, layer, Allow);
      var same := owner == None || owner == Some(ctx.principalAccount);
      && (d == Denied <==> denied)
      && (d == Allowed <==>
            && !denied
            && ( || (Speaks(ctx, policies, Allow) && within && (Says(ctx, doc, Full(None), Allow) || (same && !required)))
                 || (same && Says(ctx, doc, Full(None), Allow) && !Says(ctx, doc, Named, Deny) && Says(ctx, doc, Named, Allow)
                     && (within || Says(ctx, doc, Direct, Allow)))))
  {
    hide LayerHas, Speaks, DocumentHas, Says, Authorize;
    AuthorizeAnyDocument(ctx, policies, limits, doc, owner, required);
    forall layer, effect ensures LayerHas(ctx, layer, effect) <==> Speaks(ctx, layer, effect) {
      SpeaksIff(ctx, layer, effect);
    }
    forall mode, effect ensures DocumentHas(ctx, doc, mode, effect) <==> Says(ctx, doc, mode, effect) {
      SaysIff(ctx, doc, mode, effect);
    }
  }

  // ---------------------------------------------------------------- conditions

  ghost predicate Below(x: C.Float, y: C.Float) {
    && x != C.NotANumber && y != C.NotANumber && x != y
    && (x == C.NegInfinity || y == C.PosInfinity || (x.Finite? && y.Finite? && x.value < y.value))
  }

  ghost predicate Same(x: C.Float, y: C.Float) {
    x == y && x != C.NotANumber
  }

  ghost predicate NumberTest(r: C.Readers, relation: string, a: string, e: string) {
    r.number(a).Some? && r.number(e).Some? &&
    var x, y := r.number(a).value, r.number(e).value;
    if relation == "equals" then Same(x, y)
    else if relation == "notequals" then !Same(x, y)
    else if relation == "lessthan" then Below(x, y)
    else if relation == "lessthanequals" then Below(x, y) || Same(x, y)
    else if relation == "greaterthan" then Below(y, x)
    else Below(y, x) || Same(x, y)
  }

  /** An empty text is no date. */
  ghost predicate DateTest(r: C.Readers, relation: string, a: string, e: string) {
    a != "" && e != "" && r.date(a).Some? && r.date(e).Some? &&
    var x, y := r.date(a).value, r.date(e).value;
    if relation == "equals" then x == y
    else if relation == "notequals" then x != y
    else if relation == "lessthan" then x < y
    else if relation == "lessthanequals" then x <= y
    else if relation == "greaterthan" then x > y
    else x >= y
  }

  const RELATIONS := {"equals", "notequals", "lessthan", "lessthanequals", "greaterthan", "greaterthanequals"}

  /** What an operator asks of one value of the request and one of the policy; none for other names. */
  ghost function TestOf(r: C.Readers, name: string, a: string, e: string): Option<bool> {
    if name == "stringequals" || name == "binaryequals" then Some(a == e)
    else if name == "stringnotequals" then Some(a != e)
    else if name == "stringequalsignorecase" || name == "bool" then Some(EqualUpToCase(a, e))
    else if name == "stringnotequalsignorecase" then Some(!EqualUpToCase(a, e))
    else if name == "stringlike" || name == "arnequals" || name == "arnlike" then Some(Wild(a, e, false))
    else if name == "stringnotlike" || name == "arnnotequals" || name == "arnnotlike" then Some(!Wild(a, e, false))
    else if name == "ipaddress" then Some(r.inNetwork(a, e))
    else if name == "notipaddress" then Some(!r.inNetwork(a, e))
    else if "numeric" <= name && name[7..] in RELATIONS then Some(NumberTest(r, name[7..], a, e))
    else if "date" <= name && name[4..] in RELATIONS then Some(DateTest(r, name[4..], a, e))
    else None
  }

  lemma LowerAgree(a: string, e: string)
    ensures Lower(a) == Lower(e) <==> EqualUpToCase(a, e)
  {
    if |a| == |e| {
      forall i | 0 <= i < |a| ensures Lower(a)[i] == Lower(e)[i] <==> CaseVariants(a[i], e[i]) {
        SameLowerIff(a[i], e[i]);
      }
    }
    hide CaseVariants, LowerChar;
  }

  lemma NumbersTested(r: C.Readers, cmp: C.Comparison, a: string, e: string)
    ensures C.CompareNumbers(r, cmp, a, e) <==> NumberTest(r, C.ComparisonName(cmp), a, e)
  {
  }

  lemma DatesTested(r: C.Readers, cmp: C.Comparison, a: string, e: string)
    ensures C.CompareDates(r, cmp, a, e) <==> DateTest(r, C.ComparisonName(cmp), a, e)
  {
  }

  lemma RelationNames(cmp: C.Comparison)
    ensures C.ComparisonName(cmp) in RELATIONS
  {
  }

  lemma RelationNamed(relation: string) returns (cmp: C.Comparison)
    requires relation in RELATIONS
    ensures C.ComparisonName(cmp) == relation
  {
    cmp := if relation == "equals" then C.Eq else if relation == "notequals" then C.Neq
           else if relation == "lessthan" then C.Lt else if relation == "lessthanequals" then C.Lte
           else if relation == "greaterthan" then C.Gt else C.Gte;
  }

  lemma NumericTested(r: C.Readers, cmp: C.Comparison, a: string, e: string)
    ensures TestOf(r, C.BaseName(C.Numeric(cmp)), a, e) == Some(C.CompareNumbers(r, cmp, a, e))
  {
    RelationNames(cmp);
    NumbersTested(r, cmp, a, e);
    NumericRelation(r, C.ComparisonName(cmp), a, e);
    hide TestOf, C.ComparisonName, NumberTest, C.CompareNumbers, RELATIONS;
  }

  lemma DateTested(r: C.Readers, cmp: C.Comparison, a: string, e: string)
    ensures TestOf(r, C.BaseName(C.Date(cmp)), a, e) == Some(C.CompareDates(r, cmp, a, e))
  {
    RelationNames(cmp);
    DatesTested(r, cmp, a, e);
    DateRelation(r, C.ComparisonName(cmp), a, e);
    hide TestOf, C.ComparisonName, DateTest, C.CompareDates, RELATIONS;
  }

  lemma DateRelation(r: C.Readers, relation: string, a: string, e: string)
    requires relation in RELATIONS
    ensures TestOf(r, "date" + relation, a, e) == Some(DateTest(r, relation, a, e))
  {
    hide RELATIONS, DateTest, Wild, EqualUpToCase;
    var name := "date" + relation;
    assert name[4..] == relation && name[0] == 'd' && "date" <= name;
  }

  lemma NumericRelation(r: C.Readers, relation: string, a: string, e: string)
    requires relation in RELATIONS
    ensures TestOf(r, "numeric" + relation, a, e) == Some(NumberTest(r, relation, a, e))
  {
    hide RELATIONS, NumberTest, Wild, EqualUpToCase;
    var name := "numeric" + relation;
    assert name[7..] == relation && name[1] == 'u' && "numeric" <= name;
  }

  lemma TextTested(r: C.Readers, base: C.Base, a: string, e: string)
    requires !C.NeedsReading(base)
    ensures TestOf(r, C.BaseName(base), a, e) == Some(C.Compare(r, base, a, e))
  {
    LowerAgree(a, e);
    FnmatchExactly(a, e, false);
    hide Lower, EqualUpToCase, Fnmatch, LineGlob, C.ComparisonName, C.CompareNumbers, C.CompareDates, NumberTest, DateTest;
    if C.BaseName(base)[0] == 's' {
      StringTested(r, base, a, e);
    } else {
      OtherTested(r, base, a, e);
    }
    hide TestOf, C.Compare, C.BaseName;
  }

  lemma StringTested(r: C.Readers, base: C.Base, a: string, e: string)
    requires !C.NeedsReading(base) && C.BaseName(base)[0] == 's'
    requires (Lower(a) == Lower(e) <==> EqualUpToCase(a, e)) && (Fnmatch(a, e, false) <==> Wild(a, e, false))
    ensures TestOf(r, C.BaseName(base), a, e) == Some(C.Compare(r, base, a, e))
  {
    hide Lower, EqualUpToCase, Fnmatch, Wild, C.ComparisonName, C.CompareNumbers, C.CompareDates, NumberTest, DateTest;
  }

  lemma OtherTested(r: C.Readers, base: C.Base, a: string, e: string)
    requires !C.NeedsReading(base) && C.BaseName(base)[0] != 's'
    requires (Lower(a) == Lower(e) <==> EqualUpToCase(a, e)) && (Fnmatch(a, e, false) <==> Wild(a, e, false))
    ensures TestOf(r, C.BaseName(base), a, e) == Some(C.Compare(r, base, a, e))
  {
    hide Lower, EqualUpToCase, Fnmatch, Wild, C.ComparisonName, C.CompareNumbers, C.CompareDates, NumberTest, DateTest;
  }

  lemma BaseTested(r: C.Readers, base: C.Base, a: string, e: string)
    ensures TestOf(r, C.BaseName(base), a, e) == Some(C.Compare(r, base, a, e))
  {
    match base
    case Numeric(cmp) => NumericTested(r, cmp, a, e);
    case Date(cmp) => DateTested(r, cmp, a, e);
    case _ => TextTested(r, base, a, e);
  }

  lemma TextNamed(r: C.Readers, name: string, a: string, e: string) returns (base: C.Base)
    requires TestOf(r, name, a, e).Some?
    ensures C.BaseName(base) == name
  {
    if "numeric" <= name && name[7..] in RELATIONS {
      var cmp := RelationNamed(name[7..]);
      base := C.Numeric(cmp);
      assert name == C.NUMERIC + name[7..];
    } else if "date" <= name && name[4..] in RELATIONS {
      var cmp := RelationNamed(name[4..]);
      base := C.Date(cmp);
      assert name == C.DATE + name[4..];
    } else if name in STRING_TESTS {
      base := StringNamed(name);
    } else {
      base := OtherNamed(name);
    }
    hide C.ComparisonName;
  }

  const STRING_TESTS := {"stringequals", "stringnotequals", "stringequalsignorecase", "stringnotequalsignorecase", "stringlike", "stringnotlike"}

  lemma StringNamed(name: string) returns (base: C.Base)
    requires name in STRING_TESTS
    ensures C.BaseName(base) == name
  {
    base := if name == "stringequals" then C.StringEquals
            else if name == "stringnotequals" then C.StringNotEquals
            else if name == "stringequalsignorecase" then C.StringEqualsIgnoreCase
            else if name == "stringnotequalsignorecase" then C.StringNotEqualsIgnoreCase
            else if name == "stringlike" then C.StringLike else C.StringNotLike;
    hide C.ComparisonName;
  }

  lemma OtherNamed(name: string) returns (base: C.Base)
    requires name in {"binaryequals", "bool", "arnequals", "arnlike", "arnnotequals", "arnnotlike", "ipaddress", "notipaddress"}
    ensures C.BaseName(base) == name
  {
    base := if name == "binaryequals" then C.BinaryEquals else if name == "bool" then C.Bool
            else if name == "arnequals" then C.ArnEquals else if name == "arnlike" then C.ArnLike
            else if name == "arnnotequals" then C.ArnNotEquals else if name == "arnnotlike" then C.ArnNotLike
            else if name == "ipaddress" then C.IpAddress else C.NotIpAddress;
    hide C.ComparisonName;
  }

  /** The dispatch table holds exactly these tests, under these names. */
  lemma TableIff(r: C.Readers, name: string, a: string, e: string)
    ensures TestOf(r, name, a, e) == match C.LookUp(name) case None => None case Some(base) => Some(C.Compare(r, base, a, e))
  {
    hide TestOf, C.LookUp, C.BaseName, C.Compare;
    if C.LookUp(name).Some? {
      C.LookUpInverse(name);
      BaseTested(r, C.LookUp(name).value, a, e);
    } else if TestOf(r, name, a, e).Some? {
      var base := TextNamed(r, name, a, e);
      C.LookUpName(base);
    }
  }

  const NEGATIONS := {"stringnotequals", "stringnotequalsignorecase", "stringnotlike", "numericnotequals", "datenotequals",
                      "arnnotequals", "arnnotlike", "notipaddress"}

  /** One value against the policy's list: a negation wants all its values, any other operator one. */
  ghost predicate Satisfies(r: C.Readers, name: string, value: string, expected: seq<string>) {
    if name in NEGATIONS then forall e <- expected :: TestOf(r, name, value, e) == Some(true)
    else exists e <- expected :: TestOf(r, name, value, e) == Some(true)
  }

  /** The whole list for `forallvalues:`, one member for `foranyvalue:`, and otherwise the value as it prints. */
  ghost predicate SatisfiedBy(r: C.Readers, prefix: string, name: string, ifExists: bool, actual: C.Value, expected: seq<string>) {
    match actual
    case Absent => ifExists || prefix == "forallvalues:" || (prefix == "" && name in NEGATIONS)
    case One(text) => Satisfies(r, name, text, expected)
    case Many(items, text) =>
      if prefix == "forallvalues:" then forall v <- items :: Satisfies(r, name, v, expected)
      else if prefix == "foranyvalue:" then exists v <- items :: Satisfies(r, name, v, expected)
      else Satisfies(r, name, text, expected)
  }

  lemma SatisfiesIff(r: C.Readers, base: C.Base, value: string, expected: seq<string>)
    ensures C.MatchesExpected(r, base, value, expected) <==> Satisfies(r, C.BaseName(base), value, expected)
  {
    hide TestOf, C.BaseName, C.Compare, C.Negated;
    forall e | e in expected ensures TestOf(r, C.BaseName(base), value, e) == Some(C.Compare(r, base, value, e)) {
      BaseTested(r, base, value, e);
    }
    C.NegatedBaseName(base);
  }

  /** A condition under an operator's name, however cased, prefixed and suffixed, asks exactly this. */
  lemma ConditionIff(r: C.Readers, operator: string, prefix: string, name: string, ifExists: bool, actual: C.Value, expected: seq<string>)
    requires prefix in {"", "forallvalues:", "foranyvalue:"} && TestOf(r, name, "", "").Some?
    requires Lower(operator) == prefix + name + (if ifExists then "ifexists" else "")
    ensures C.Evaluate(r, operator, actual, expected) <==> SatisfiedBy(r, prefix, name, ifExists, actual, expected)
  {
    hide TestOf, C.BaseName, C.LookUp, C.MatchesExpected, Satisfies, C.ParseOperator;
    var base := TextNamed(r, name, "", "");
    var q := if prefix == "" then C.Plain else if prefix == "forallvalues:" then C.ForAll else C.ForAny;
    var op := C.Operator(base, q, ifExists);
    C.NamesParse(op, operator);
    C.NegatedBaseName(base);
    forall value ensures C.MatchesExpected(r, base, value, expected) <==> Satisfies(r, name, value, expected) {
      SatisfiesIff(r, base, value, expected);
    }
    assert actual.One? ==> actual.text in C.Items(actual);
  }

  /** `Null` asks whether the key is absent or, with any other word than true, present. */
  lemma NullIff(r: C.Readers, operator: string, actual: C.Value, expected: seq<string>)
    requires Lower(operator) == "null"
    ensures C.Evaluate(r, operator, actual, expected) <==>
      if expected == [] || EqualUpToCase(expected[0], "true") then actual == C.Absent else actual != C.Absent
  {
    if expected != [] {
      LowerAgree(expected[0], "true");
      assert Lower("true") == "true";
    }
    hide EqualUpToCase;
  }

  /** Any other operator is met by nothing. */
  lemma OtherOperatorsFail(r: C.Readers, operator: string, actual: C.Value, expected: seq<string>)
    requires Lower(operator) != "null"
    requires forall prefix, name, suffix ::
      Lower(operator) == prefix + name + suffix && prefix in {"", "forallvalues:", "foranyvalue:"} && suffix in {"", "ifexists"}
      ==> TestOf(r, name, "", "").None?
    ensures !C.Evaluate(r, operator, actual, expected)
  {
    hide TestOf, C.LookUp, C.EvaluateKnown;
    var lowered := Lower(operator);
    hide Lower;
    var (stem, ifExists) := C.StripIfExists(lowered);
    var (name, q) := C.StripQuantifier(stem);
    var prefix := PrefixCut(stem);
    var suffix := SuffixCut(lowered);
    assert lowered == prefix + name + suffix;
    TableIff(r, name, "", "");
    hide C.StripIfExists, C.StripQuantifier;
  }

  lemma SuffixCut(name: string) returns (suffix: string)
    ensures name == C.StripIfExists(name).0 + suffix && suffix in {"", "ifexists"}
  {
    suffix := if C.StripIfExists(name).1 then "ifexists" else "";
  }

  lemma PrefixCut(name: string) returns (prefix: string)
    ensures name == prefix + C.StripQuantifier(name).0 && prefix in {"", "forallvalues:", "foranyvalue:"}
  {
    var q := C.StripQuantifier(name).1;
    prefix := if q == C.Plain then "" else if q == C.ForAll then "forallvalues:" else "foranyvalue:";
  }

  /** One key of a block: the case variants of a request tag are judged one by one, all of them for a negation. */
  lemma KeyIff(r: C.Readers, lookup: string -> C.Value, operator: string, prefix: string, name: string, ifExists: bool, key: string, expected: C.Expected)
    requires prefix in {"", "forallvalues:", "foranyvalue:"} && TestOf(r, name, "", "").Some?
    requires Lower(operator) == prefix + name + (if ifExists then "ifexists" else "")
    ensures var actual := lookup(key);
      var list := match expected case List(items) => items case Text(t) => [t] case Other(t) => [t];
      C.KeyMet(r, lookup, operator, key, expected) <==>
        if actual.Many? && |key| >= 15 && EqualUpToCase(key[..15], "aws:requesttag/") then
          if name in NEGATIONS then forall v <- actual.items :: SatisfiedBy(r, prefix, name, ifExists, C.One(v), list)
          else exists v <- actual.items :: SatisfiedBy(r, prefix, name, ifExists, C.One(v), list)
        else SatisfiedBy(r, prefix, name, ifExists, actual, list)
  {
    hide TestOf, C.BaseName, C.LookUp, SatisfiedBy, C.Evaluate, C.BareName, C.NegatedName, C.ParseOperator, EqualUpToCase;
    var actual := lookup(key);
    var list := C.ExpectedList(expected);
    TagKeyIff(key);
    var base := TextNamed(r, name, "", "");
    var q := if prefix == "" then C.Plain else if prefix == "forallvalues:" then C.ForAll else C.ForAny;
    C.NamesParse(C.Operator(base, q, ifExists), operator);
    C.BareNameNegated(operator);
    C.NegatedBaseName(base);
    NegationsAre(name);
    forall v: C.Value ensures C.Evaluate(r, operator, v, list) <==> SatisfiedBy(r, prefix, name, ifExists, v, list) {
      ConditionIff(r, operator, prefix, name, ifExists, v, list);
    }
  }

  /** Conditions are met exactly when no key of any block fails; a block that is no dictionary asks nothing. */
  lemma MetIff(r: C.Readers, lookup: string -> C.Value, conditions: C.Conditions)
    ensures C.Met(r, lookup, conditions) <==>
      !exists i, j :: 0 <= i < |conditions| && conditions[i].1.Keys? && 0 <= j < |conditions[i].1.keys|
                      && !C.KeyMet(r, lookup, conditions[i].0, conditions[i].1.keys[j].0, conditions[i].1.keys[j].1)
  {
    hide C.KeyMet;
    if C.Met(r, lookup, conditions) {
      forall i, j | 0 <= i < |conditions| && conditions[i].1.Keys? && 0 <= j < |conditions[i].1.keys|
        ensures C.KeyMet(r, lookup, conditions[i].0, conditions[i].1.keys[j].0, conditions[i].1.keys[j].1)
      {
        assert conditions[i] in conditions && conditions[i].1.keys[j] in conditions[i].1.keys;
      }
    }
  }

  lemma NegationsAre(name: string)
    ensures C.NegatedName(name) <==> name in NEGATIONS
  {
  }

  lemma TagKeyIff(key: string)
    ensures C.REQUEST_TAG <= Lower(key) <==> |key| >= 15 && EqualUpToCase(key[..15], "aws:requesttag/")
  {
    var tag := "aws:requesttag/";
    if |key| >= 15 {
      LowerAgree(key[..15], tag);
      assert Lower(key)[..15] == Lower(key[..15]);
      assert Lower(tag) == tag;
    }
    hide EqualUpToCase;
  }
}
