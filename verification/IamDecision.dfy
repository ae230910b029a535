/**
  The IAM decision engine (`ministack/core/iam_evaluator.py`): identity policies under limits,
  resource policies in three selections, their combination, and role trust policies.
 */
module IamDecision {
  import C = IamConditions
  import opened IamGlob
  import opened IamPrincipals
  import opened Results

  datatype Effect = Allow | Deny

  /** A parsed statement; parsing keeps only those whose effect is one of the two. */
  datatype Statement = Statement(sid: string, effect: Effect, actions: seq<string>, notActions: seq<string>,
                                 resources: seq<string>, notResources: seq<string>, conditions: C.Conditions)

  datatype Context = Context(principalArn: string, principalAccount: string, action: string, resourceArn: string,
                             readers: C.Readers, lookup: string -> C.Value)

  datatype Decision = Allowed | Denied | Implicit

  datatype EvalResult = EvalResult(decision: Decision, sid: string, resourcePolicyArn: string)

  /** One layer: the statement lists of its documents. */
  type Layer = seq<seq<Statement>>

  // ---------------------------------------------------------------- statements

  predicate ListMatches(value: string, patterns: seq<string>, excluded: seq<string>, ignoreCase: bool) {
    if patterns != [] then exists p <- patterns :: Fnmatch(value, p, ignoreCase)
    else if excluded != [] then forall p <- excluded :: !Fnmatch(value, p, ignoreCase)
    else true
  }

  predicate ActionMatches(ctx: Context, s: Statement) {
    ListMatches(ctx.action, s.actions, s.notActions, true)
  }

  predicate ResourceMatches(ctx: Context, s: Statement) {
    ListMatches(ctx.resourceArn, s.resources, s.notResources, false)
  }

  predicate Applies(ctx: Context, s: Statement) {
    ActionMatches(ctx, s) && ResourceMatches(ctx, s) && C.Met(ctx.readers, ctx.lookup, s.conditions)
  }

  predicate Has(ctx: Context, stmts: seq<Statement>, effect: Effect) {
    exists s <- stmts :: s.effect == effect && Applies(ctx, s)
  }

  /** `_first_match` */
  function FirstMatch(ctx: Context, stmts: seq<Statement>, effect: Effect): (r: Option<Statement>)
    ensures r.Some? == Has(ctx, stmts, effect)
    ensures r.Some? ==> exists i :: 0 <= i < |stmts| && stmts[i] == r.value && !Has(ctx, stmts[..i], effect)
                                    && r.value.effect == effect && Applies(ctx, r.value)
  {
    if stmts == [] then None
    else if stmts[0].effect == effect && Applies(ctx, stmts[0]) then
      assert stmts[..0] == [];
      Some(stmts[0])
    else
      var r := FirstMatch(ctx, stmts[1..], effect);
      assert stmts == [stmts[0]] + stmts[1..];
      assert forall i :: 0 <= i < |stmts| - 1 ==> stmts[..i + 1] == [stmts[0]] + stmts[1..][..i] && stmts[i + 1] == stmts[1..][i];
      r
  }

  // ---------------------------------------------------------------- layers

  function Flat(layer: Layer): (r: seq<Statement>)
    ensures forall s :: s in r <==> exists stmts <- layer :: s in stmts
  {
    if layer == [] then []
    else
      assert layer == [layer[0]] + layer[1..];
      layer[0] + Flat(layer[1..])
  }

  predicate LayerHas(ctx: Context, layer: Layer, effect: Effect) {
    Has(ctx, Flat(layer), effect)
  }

  function FirstDeny(ctx: Context, layers: seq<Layer>): (r: Option<Statement>)
    ensures r.Some? == exists layer <- layers :: LayerHas(ctx, layer, Deny)
  {
    if layers == [] then None
    else
      assert layers == [layers[0]] + layers[1..];
      var deny := FirstMatch(ctx, Flat(layers[0]), Deny);
      assert deny.Some? == LayerHas(ctx, layers[0], Deny);
      if deny.Some? then deny else FirstDeny(ctx, layers[1..])
  }

  /** `evaluate` */
  function Evaluate(ctx: Context, policies: Layer, limits: seq<Layer>): EvalResult {
    var deny := FirstDeny(ctx, [policies] + limits);
    var allow := FirstMatch(ctx, Flat(policies), Allow);
    if deny.Some? then EvalResult(Denied, deny.value.sid, "")
    else if allow.Some? && forall layer <- limits :: FirstMatch(ctx, Flat(layer), Allow).Some? then
      EvalResult(Allowed, allow.value.sid, "")
    else EvalResult(Implicit, "", "")
  }

  predicate AllAllow(ctx: Context, limits: seq<Layer>) {
    forall layer <- limits :: LayerHas(ctx, layer, Allow)
  }

  predicate NoneDenies(ctx: Context, layers: seq<Layer>) {
    forall layer <- layers :: !LayerHas(ctx, layer, Deny)
  }

  /** Any Deny anywhere denies; otherwise an identity Allow counts when every limit allows too. */
  lemma EvaluateIff(ctx: Context, policies: Layer, limits: seq<Layer>)
    ensures var d := Evaluate(ctx, policies, limits).decision;
      && (d == Denied <==> LayerHas(ctx, policies, Deny) || !NoneDenies(ctx, limits))
      && (d == Allowed <==>
            !LayerHas(ctx, policies, Deny) && NoneDenies(ctx, limits) && LayerHas(ctx, policies, Allow) && AllAllow(ctx, limits))
  {
    hide LayerHas;
    forall layer ensures LayerHas(ctx, layer, Allow) == FirstMatch(ctx, Flat(layer), Allow).Some? {
      LayerAllows(ctx, layer);
    }
    assert forall layer :: layer in [policies] + limits <==> layer == policies || layer in limits;
  }

  lemma LayerAllows(ctx: Context, layer: Layer)
    ensures LayerHas(ctx, layer, Allow) == FirstMatch(ctx, Flat(layer), Allow).Some?
  {
  }

  // ---------------------------------------------------------------- order and grouping

  /** The two layers hold the same statements, in whatever documents and order. */
  ghost predicate SameStatements(a: Layer, b: Layer) {
    forall s :: s in Flat(a) <==> s in Flat(b)
  }

  ghost predicate Covers(a: seq<Layer>, b: seq<Layer>) {
    forall y <- b :: exists x <- a :: SameStatements(x, y)
  }

  /** Reordering or regrouping statements and documents, or reordering limits, never changes the decision. */
  lemma OrderIrrelevant(ctx: Context, policies: Layer, limits: seq<Layer>, policies': Layer, limits': seq<Layer>)
    requires SameStatements(policies, policies')
    requires Covers(limits, limits') && Covers(limits', limits)
    ensures Evaluate(ctx, policies, limits).decision == Evaluate(ctx, policies', limits').decision
  {
    EvaluateIff(ctx, policies, limits);
    EvaluateIff(ctx, policies', limits');
  }

  // ---------------------------------------------------------------- monotonicity

  /** The layer with a statement put into its i-th document at position j. */
  function Insert(layer: Layer, i: nat, j: nat, s: Statement): Layer
    requires i < |layer| && j <= |layer[i]|
  {
    layer[i := layer[i][..j] + [s] + layer[i][j..]]
  }

  lemma InsertStatement(layer: Layer, i: nat, j: nat, s: Statement, t: Statement)
    requires i < |layer| && j <= |layer[i]|
    ensures t in Flat(Insert(layer, i, j, s)) <==> t in Flat(layer) || t == s
  {
    hide Flat;
    var doc, doc' := layer[i], layer[i][..j] + [s] + layer[i][j..];
    var layer' := Insert(layer, i, j, s);
    assert doc == doc[..j] + doc[j..];
    assert t in doc' <==> t in doc || t == s;
    assert layer'[i] == doc' && doc' in layer' && doc in layer;
    if d :| d in layer' && t in d {
      var k :| 0 <= k < |layer'| && layer'[k] == d;
      assert k != i ==> layer[k] == d;
      assert layer[k] in layer;
    }
    if d :| d in layer && t in d {
      var k :| 0 <= k < |layer| && layer[k] == d;
      assert k != i ==> layer'[k] == d;
      assert layer'[k] in layer';
    }
  }

  /** A statement of one effect adds nothing to the other effect and at most itself to its own. */
  lemma InsertHas(ctx: Context, layer: Layer, i: nat, j: nat, s: Statement, effect: Effect)
    requires i < |layer| && j <= |layer[i]|
    ensures LayerHas(ctx, layer, effect) ==> LayerHas(ctx, Insert(layer, i, j, s), effect)
    ensures s.effect != effect ==> LayerHas(ctx, layer, effect) == LayerHas(ctx, Insert(layer, i, j, s), effect)
  {
    forall t ensures t in Flat(Insert(layer, i, j, s)) <==> t in Flat(layer) || t == s {
      InsertStatement(layer, i, j, s, t);
    }
    hide Flat;
    hide Insert;
    hide Applies;
  }

  /** A stack of layers: the identity policies first, then the limits. */
  function Decide(ctx: Context, layers: seq<Layer>): Decision
    requires layers != []
  {
    Evaluate(ctx, layers[0], layers[1..]).decision
  }

  lemma DecideIff(ctx: Context, layers: seq<Layer>)
    requires layers != []
    ensures Decide(ctx, layers) == Allowed <==> NoneDenies(ctx, layers) && AllAllow(ctx, layers)
    ensures Decide(ctx, layers) == Denied <==> !NoneDenies(ctx, layers)
  {
    hide LayerHas;
    EvaluateIff(ctx, layers[0], layers[1..]);
    assert layers == [layers[0]] + layers[1..];
  }

  /** A Deny put anywhere, into the policies or a limit, never turns a decision into Allow. */
  lemma AddedDeny(ctx: Context, layers: seq<Layer>, k: nat, i: nat, j: nat, s: Statement)
    requires k < |layers| && i < |layers[k]| && j <= |layers[k][i]| && s.effect == Deny
    ensures Decide(ctx, layers[k := Insert(layers[k], i, j, s)]) == Allowed ==> Decide(ctx, layers) == Allowed
    ensures Decide(ctx, layers) == Denied ==> Decide(ctx, layers[k := Insert(layers[k], i, j, s)]) == Denied
  {
    hide LayerHas;
    hide Insert;
    var layers' := layers[k := Insert(layers[k], i, j, s)];
    DecideIff(ctx, layers);
    DecideIff(ctx, layers');
    InsertHas(ctx, layers[k], i, j, s, Allow);
    InsertHas(ctx, layers[k], i, j, s, Deny);
    Pointwise(ctx, layers, layers', k);
  }

  /** An Allow put anywhere never takes an Allow away, and changes nothing about denials. */
  lemma AddedAllow(ctx: Context, layers: seq<Layer>, k: nat, i: nat, j: nat, s: Statement)
    requires k < |layers| && i < |layers[k]| && j <= |layers[k][i]| && s.effect == Allow
    ensures Decide(ctx, layers) == Allowed ==> Decide(ctx, layers[k := Insert(layers[k], i, j, s)]) == Allowed
    ensures Decide(ctx, layers) == Denied <==> Decide(ctx, layers[k := Insert(layers[k], i, j, s)]) == Denied
  {
    hide LayerHas;
    hide Insert;
    var layers' := layers[k := Insert(layers[k], i, j, s)];
    DecideIff(ctx, layers);
    DecideIff(ctx, layers');
    InsertHas(ctx, layers[k], i, j, s, Allow);
    InsertHas(ctx, layers[k], i, j, s, Deny);
    Pointwise(ctx, layers, layers', k);
  }

  /** What every layer but one decides is the same in both stacks. */
  lemma Pointwise(ctx: Context, layers: seq<Layer>, layers': seq<Layer>, k: nat)
    requires k < |layers| == |layers'| && layers' == layers[k := layers'[k]]
    ensures AllAllow(ctx, layers) <==>
      LayerHas(ctx, layers[k], Allow) && forall i :: 0 <= i < |layers| && i != k ==> LayerHas(ctx, layers[i], Allow)
    ensures AllAllow(ctx, layers') <==>
      LayerHas(ctx, layers'[k], Allow) && forall i :: 0 <= i < |layers| && i != k ==> LayerHas(ctx, layers[i], Allow)
    ensures NoneDenies(ctx, layers) <==>
      !LayerHas(ctx, layers[k], Deny) && forall i :: 0 <= i < |layers| && i != k ==> !LayerHas(ctx, layers[i], Deny)
    ensures NoneDenies(ctx, layers') <==>
      !LayerHas(ctx, layers'[k], Deny) && forall i :: 0 <= i < |layers| && i != k ==> !LayerHas(ctx, layers[i], Deny)
  {
    hide LayerHas;
    forall i | 0 <= i < |layers| ensures layers[i] in layers && layers'[i] in layers' && (i != k ==> layers'[i] == layers[i]) {
    }
  }

  /** A further limit only narrows: it never turns a refusal into Allow nor lifts a denial. */
  lemma AddedLimit(ctx: Context, policies: Layer, limits: seq<Layer>, i: nat, limit: Layer)
    requires i <= |limits|
    ensures var d, d' := Evaluate(ctx, policies, limits).decision,
                         Evaluate(ctx, policies, limits[..i] + [limit] + limits[i..]).decision;
      && (d' == Allowed <==> d == Allowed && LayerHas(ctx, limit, Allow) && !LayerHas(ctx, limit, Deny))
      && (d' == Denied <==> d == Denied || LayerHas(ctx, limit, Deny))
  {
    hide LayerHas;
    var limits' := limits[..i] + [limit] + limits[i..];
    EvaluateIff(ctx, policies, limits);
    EvaluateIff(ctx, policies, limits');
    assert limits == limits[..i] + limits[i..];
    assert forall layer :: layer in limits' <==> layer in limits || layer == limit;
  }

  // ---------------------------------------------------------------- resource policies

  /** A statement of a resource or trust policy; one whose effect is neither Allow nor Deny has no parsed form. */
  datatype RawStatement = RawStatement(principal: Principal, parsed: Option<Statement>)

  type Document = seq<RawStatement>

  datatype Mode = Full(service: Option<string>) | Named | Direct

  predicate Selects(mode: Mode, principal: Principal, caller: string) {
    match mode
    case Direct => NamesCallerDirectly(principal, caller)
    case Named => NamesCaller(principal, caller)
    case Full(service) =>
      if principal.Fields? then
        || PrincipalMatches(Fields(principal.aws, [], []), caller)
        || (service.Some? && service.value != "" && ServiceMatches(principal, service.value))
      else PrincipalMatches(principal, caller)
  }

  function Selected(doc: Document, mode: Mode, caller: string): seq<RawStatement> {
    if doc == [] then []
    else
      var front := Selected(doc[..|doc| - 1], mode, caller);
      var last := doc[|doc| - 1];
      if Selects(mode, last.principal, caller) then front + [last] else front
  }

  /** `parse_policy_document` on statements already picked. */
  function Parse(stmts: seq<RawStatement>): (r: seq<Statement>)
    ensures forall s :: s in r <==> exists raw <- stmts :: raw.parsed == Some(s)
  {
    if stmts == [] then []
    else
      assert stmts == [stmts[0]] + stmts[1..];
      var rest := Parse(stmts[1..]);
      if stmts[0].parsed.Some? then [stmts[0].parsed.value] + rest else rest
  }

  function ResourceVerdict(ctx: Context, doc: Document, mode: Mode): EvalResult {
    Evaluate(ctx, [Parse(Selected(doc, mode, ctx.principalArn))], [])
  }

  /** `evaluate_resource_policy`: collects the statements that count, then evaluates them. */
  method EvaluateResourcePolicy(ctx: Context, doc: Document, mode: Mode) returns (r: EvalResult)
    ensures r == ResourceVerdict(ctx, doc, mode)
  {
    var caller := ctx.principalArn;
    var applicable: seq<RawStatement> := [];
    for k := 0 to |doc|
      invariant applicable == Selected(doc[..k], mode, caller)
    {
      var principal := doc[k].principal;
      assert doc[..k + 1][..k] == doc[..k];
      if mode.Direct? {
        if NamesCallerDirectly(principal, caller) {
          applicable := applicable + [doc[k]];
        }
      } else if mode.Named? {
        if NamesCaller(principal, caller) {
          applicable := applicable + [doc[k]];
        }
      } else if principal.Fields? {
        if PrincipalMatches(Fields(principal.aws, [], []), caller) {
          applicable := applicable + [doc[k]];
        } else if mode.service.Some? && mode.service.value != "" && ServiceMatches(principal, mode.service.value) {
          applicable := applicable + [doc[k]];
        }
      } else if PrincipalMatches(principal, caller) {
        applicable := applicable + [doc[k]];
      }
    }
    assert doc[..|doc|] == doc;
    return Evaluate(ctx, [Parse(applicable)], []);
  }

  /** Some statement of the document counts in this mode, has the effect and applies to the request. */
  predicate DocumentHas(ctx: Context, doc: Document, mode: Mode, effect: Effect) {
    exists raw <- doc ::
      && Selects(mode, raw.principal, ctx.principalArn)
      && raw.parsed.Some?
      && raw.parsed.value.effect == effect
      && Applies(ctx, raw.parsed.value)
  }

  lemma {:induction false} SelectedMembers(doc: Document, mode: Mode, caller: string)
    ensures forall raw :: raw in Selected(doc, mode, caller) <==> raw in doc && Selects(mode, raw.principal, caller)
  {
    if doc != [] {
      hide Selects;
      SelectedMembers(doc[..|doc| - 1], mode, caller);
      assert doc == doc[..|doc| - 1] + [doc[|doc| - 1]];
    }
  }

  lemma ResourceHas(ctx: Context, doc: Document, mode: Mode, effect: Effect)
    ensures LayerHas(ctx, [Parse(Selected(doc, mode, ctx.principalArn))], effect) == DocumentHas(ctx, doc, mode, effect)
  {
    hide Applies;
    hide Selects;
    var caller := ctx.principalArn;
    var stmts := Parse(Selected(doc, mode, caller));
    SelectedMembers(doc, mode, caller);
    assert Flat([stmts]) == stmts by {
      assert [stmts][1..] == [];
    }
    if DocumentHas(ctx, doc, mode, effect) {
      var raw :| raw in doc && Selects(mode, raw.principal, caller) && raw.parsed.Some?
                 && raw.parsed.value.effect == effect && Applies(ctx, raw.parsed.value);
      assert raw in Selected(doc, mode, caller);
      assert raw.parsed.value in stmts;
    }
  }

  /** A resource policy denies when a statement that counts denies, and allows when none does and one allows. */
  lemma ResourceVerdictIff(ctx: Context, doc: Document, mode: Mode)
    ensures var d := ResourceVerdict(ctx, doc, mode).decision;
      && (d == Denied <==> DocumentHas(ctx, doc, mode, Deny))
      && (d == Allowed <==> !DocumentHas(ctx, doc, mode, Deny) && DocumentHas(ctx, doc, mode, Allow))
  {
    hide LayerHas;
    hide DocumentHas;
    EvaluateIff(ctx, [Parse(Selected(doc, mode, ctx.principalArn))], []);
    ResourceHas(ctx, doc, mode, Allow);
    ResourceHas(ctx, doc, mode, Deny);
  }

  ghost predicate WellFormedDocument(doc: Document) {
    forall raw <- doc :: WellFormed(raw.principal)
  }

  /** The selections nest: direct within named within full. */
  lemma SelectionsNest(ctx: Context, doc: Document, effect: Effect)
    ensures DocumentHas(ctx, doc, Direct, effect) ==> DocumentHas(ctx, doc, Named, effect)
    ensures WellFormedDocument(doc) && DocumentHas(ctx, doc, Named, effect) ==> DocumentHas(ctx, doc, Full(None), effect)
  {
    hide Applies;
    hide NamesCaller;
    hide NamesCallerDirectly;
    hide PrincipalMatches;
    forall raw | raw in doc && NamesCallerDirectly(raw.principal, ctx.principalArn)
      ensures NamesCaller(raw.principal, ctx.principalArn)
    {
      DirectIsNamed(raw.principal, ctx.principalArn);
    }
    if WellFormedDocument(doc) {
      forall raw | raw in doc && NamesCaller(raw.principal, ctx.principalArn)
        ensures Selects(Full(None), raw.principal, ctx.principalArn)
      {
        NamedIsSelected(raw.principal, ctx.principalArn);
      }
    }
  }

  lemma NamedIsSelected(principal: Principal, caller: string)
    requires WellFormed(principal) && NamesCaller(principal, caller)
    ensures Selects(Full(None), principal, caller)
  {
    if principal.Fields? {
      NamedUnlessAccount(principal.aws, principal.service, principal.federated, caller);
      NamedUnlessAccount(principal.aws, [], [], caller);
      NamedIsMatched(Fields(principal.aws, [], []), caller);
    } else {
      NamedIsMatched(principal, caller);
    }
  }

  // ---------------------------------------------------------------- identity and resource together

  /** `combine_resource_policy` */
  function Combine(identity: EvalResult, ctx: Context, doc: Document, owner: Option<string>, required: bool, limits: seq<Layer>): EvalResult {
    var resource := ResourceVerdict(ctx, doc, Full(None));
    var sameAccount := owner == None || owner == Some(ctx.principalAccount);
    if identity.decision == Denied then identity
    else if resource.decision == Denied then resource.(resourcePolicyArn := ctx.resourceArn)
    else if identity.decision == Allowed && (resource.decision == Allowed || (sameAccount && !required)) then identity
    else if sameAccount && resource.decision == Allowed then
      var named := ResourceVerdict(ctx, doc, Named);
      var withinLimits := forall layer <- limits :: FirstMatch(ctx, Flat(layer), Allow).Some?;
      if named.decision == Allowed && (withinLimits || ResourceVerdict(ctx, doc, Direct).decision == Allowed) then named
      else if identity.decision == Allowed then resource else identity
    else if identity.decision == Allowed then resource else identity
  }

  /** The whole decision on a request: identity policies under limits, combined with the resource's policy. */
  function Authorize(ctx: Context, policies: Layer, limits: seq<Layer>, doc: Document, owner: Option<string>, required: bool): EvalResult {
    Combine(Evaluate(ctx, policies, limits), ctx, doc, owner, required, limits)
  }

  /** The identity policies and every limit allow. */
  predicate IdentityAllows(ctx: Context, policies: Layer, limits: seq<Layer>) {
    LayerHas(ctx, policies, Allow) && AllAllow(ctx, limits)
  }

  /** In the owner's account a resource Allow stands alone when it names the caller and limits allow, or names it directly. */
  predicate ResourceAlone(ctx: Context, limits: seq<Layer>, doc: Document) {
    DocumentHas(ctx, doc, Named, Allow) && (AllAllow(ctx, limits) || DocumentHas(ctx, doc, Direct, Allow))
  }

  predicate SameAccount(ctx: Context, owner: Option<string>) {
    owner == None || owner == Some(ctx.principalAccount)
  }

  predicate NothingDenies(ctx: Context, policies: Layer, limits: seq<Layer>, doc: Document) {
    !LayerHas(ctx, policies, Deny) && NoneDenies(ctx, limits) && !DocumentHas(ctx, doc, Full(None), Deny)
  }

  /** What the resource's policy must say, for any document at all, to allow alone in the owner's account. */
  predicate ResourceStands(ctx: Context, limits: seq<Layer>, doc: Document) {
    && DocumentHas(ctx, doc, Full(None), Allow)
    && !DocumentHas(ctx, doc, Named, Deny)
    && ResourceAlone(ctx, limits, doc)
  }

  /** The combined decision for any document, well-formed or not. */
  lemma AuthorizeAnyDocument(ctx: Context, policies: Layer, limits: seq<Layer>, doc: Document, owner: Option<string>, required: bool)
    ensures var d := Authorize(ctx, policies, limits, doc, owner, required).decision;
      && (d == Denied <==> !NothingDenies(ctx, policies, limits, doc))
      && (d == Allowed <==>
            && NothingDenies(ctx, policies, limits, doc)
            && ( || (IdentityAllows(ctx, policies, limits)
                     && (DocumentHas(ctx, doc, Full(None), Allow) || (SameAccount(ctx, owner) && !required)))
                 || (SameAccount(ctx, owner) && ResourceStands(ctx, limits, doc))))
  {
    hide LayerHas;
    hide DocumentHas;
    hide Evaluate;
    hide ResourceVerdict;
    EvaluateIff(ctx, policies, limits);
    ResourceVerdictIff(ctx, doc, Full(None));
    ResourceVerdictIff(ctx, doc, Named);
    ResourceVerdictIff(ctx, doc, Direct);
    SelectionsNest(ctx, doc, Allow);
    SelectionsNest(ctx, doc, Deny);
    forall layer | layer in limits ensures LayerHas(ctx, layer, Allow) == FirstMatch(ctx, Flat(layer), Allow).Some? {
      LayerAllows(ctx, layer);
    }
  }

  /** The combined decision for well-formed principals, as its rule is stated. */
  lemma AuthorizeIff(ctx: Context, policies: Layer, limits: seq<Layer>, doc: Document, owner: Option<string>, required: bool)
    requires WellFormedDocument(doc)
    ensures var d := Authorize(ctx, policies, limits, doc, owner, required).decision;
      && (d == Denied <==> !NothingDenies(ctx, policies, limits, doc))
      && (d == Allowed <==>
            && NothingDenies(ctx, policies, limits, doc)
            && ( || (IdentityAllows(ctx, policies, limits)
                     && (DocumentHas(ctx, doc, Full(None), Allow) || (SameAccount(ctx, owner) && !required)))
                 || (SameAccount(ctx, owner) && ResourceAlone(ctx, limits, doc))))
  {
    hide LayerHas;
    hide DocumentHas;
    hide Authorize;
    AuthorizeAnyDocument(ctx, policies, limits, doc, owner, required);
    SelectionsNest(ctx, doc, Allow);
    SelectionsNest(ctx, doc, Deny);
  }

  /** With the resource's policy in play a further limit still never turns a refusal into Allow. */
  lemma AuthorizeAddedLimit(ctx: Context, policies: Layer, limits: seq<Layer>, i: nat, limit: Layer, doc: Document, owner: Option<string>, required: bool)
    requires i <= |limits|
    ensures Authorize(ctx, policies, limits[..i] + [limit] + limits[i..], doc, owner, required).decision == Allowed ==>
      Authorize(ctx, policies, limits, doc, owner, required).decision == Allowed
  {
    hide LayerHas;
    hide DocumentHas;
    hide Authorize;
    var limits' := limits[..i] + [limit] + limits[i..];
    AuthorizeAnyDocument(ctx, policies, limits, doc, owner, required);
    AuthorizeAnyDocument(ctx, policies, limits', doc, owner, required);
    assert limits == limits[..i] + limits[i..];
    assert forall layer :: layer in limits ==> layer in limits';
  }

  // ---------------------------------------------------------------- trust policies

  /** `_trust_principal_matches` */
  predicate TrustMatches(principal: Principal, caller: string, federated: bool) {
    if !federated then PrincipalMatches(principal, caller)
    else principal == Text("*") || (principal.Fields? && caller in principal.federated)
  }

  const WEB_IDENTITY := "sts:AssumeRoleWithWebIdentity"

  /** A trust statement speaks about actions, names the caller and meets its conditions; resources play no part. */
  predicate TrustApplies(ctx: Context, raw: RawStatement, caller: string) {
    && raw.parsed.Some?
    && (raw.parsed.value.actions != [] || raw.parsed.value.notActions != [])
    && ActionMatches(ctx, raw.parsed.value)
    && TrustMatches(raw.principal, caller, ctx.action == WEB_IDENTITY)
    && C.Met(ctx.readers, ctx.lookup, raw.parsed.value.conditions)
  }

  predicate TrustHas(ctx: Context, doc: Document, caller: string, effect: Effect) {
    exists raw <- doc :: TrustApplies(ctx, raw, caller) && raw.parsed.value.effect == effect
  }

  /** `evaluate_trust_policy`: despite stopping at the first Deny, only which statements apply matters, not their order. */
  method EvaluateTrustPolicy(doc: Document, caller: string, ctx: Context) returns (allowed: bool)
    ensures allowed <==> !TrustHas(ctx, doc, caller, Deny) && TrustHas(ctx, doc, caller, Allow)
  {
    var federated := ctx.action == WEB_IDENTITY;
    allowed := false;
    for k := 0 to |doc|
      invariant forall raw <- doc[..k] :: TrustApplies(ctx, raw, caller) ==> raw.parsed.value.effect == Allow
      invariant allowed == TrustHas(ctx, doc[..k], caller, Allow)
    {
      var raw := doc[k];
      assert doc[..k + 1] == doc[..k] + [raw];
      if raw.parsed.None? {
        continue;
      }
      var s := raw.parsed.value;
      if (s.actions == [] && s.notActions == []) || !ActionMatches(ctx, s) {
        continue;
      }
      if !TrustMatches(raw.principal, caller, federated) {
        continue;
      }
      var met := C.ConditionsMet(ctx.readers, ctx.lookup, s.conditions);
      if !met {
        continue;
      }
      assert TrustApplies(ctx, raw, caller);
      if s.effect == Deny {
        assert raw in doc;
        return false;
      }
      allowed := true;
    }
    assert doc[..|doc|] == doc;
  }
}
