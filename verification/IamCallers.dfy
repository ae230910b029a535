/**
  Which callers a principal reaches (`ministack/core/iam_evaluator.py`), said of the texts themselves:
  colon-separated fields, path segments, account ids and the ARN forms of roots, users and sessions.
 */
module IamCallers {
  import C = IamConditions
  import opened IamDecision
  import opened IamGlob
  import opened IamPrincipals
  import opened IamMeaning
  import opened PythonText
  import opened Results
  import opened TextMeaning

  // ---------------------------------------------------------------- fields and segments

  /** The text's fifth colon-separated field. */
  ghost predicate FifthField(arn: string, field: string) {
    exists a, b, c, d, rest :: FieldsOf(arn, a, b, c, d, field, rest)
  }

  ghost predicate FieldsOf(arn: string, a: string, b: string, c: string, d: string, field: string, rest: string) {
    && ':' !in a && ':' !in b && ':' !in c && ':' !in d && ':' !in field
    && arn == a + ":" + (b + ":" + (c + ":" + (d + ":" + (field + rest)))) && (rest == "" || rest[0] == ':')
  }

  lemma FieldsSplit(arn: string, a: string, b: string, c: string, d: string, field: string, rest: string)
    requires FieldsOf(arn, a, b, c, d, field, rest)
    ensures AccountField(arn) == Some(field)
  {
    hide SplitOn;
    var tail := field + rest;
    HeadField(field, rest);
    SplitFirst(d, tail, ':');
    SplitFirst(c, d + ":" + tail, ':');
    SplitFirst(b, c + ":" + (d + ":" + tail), ':');
    SplitFirst(a, b + ":" + (c + ":" + (d + ":" + tail)), ':');
  }

  lemma HeadField(field: string, rest: string)
    requires ':' !in field && (rest == "" || rest[0] == ':')
    ensures SplitOn(field + rest, ':')[0] == field
  {
    if rest == "" {
      SplitPlain(field, ':');
      assert field + rest == field;
    } else {
      SplitFirst(field, rest[1..], ':');
      assert field + rest == field + [':'] + rest[1..];
    }
  }

  /** Cuts off the first field, when another follows. */
  lemma NextField(s: string) returns (head: string, tail: string)
    requires |SplitOn(s, ':')| > 1
    ensures ':' !in head && s == head + ":" + tail && SplitOn(s, ':') == [head] + SplitOn(tail, ':')
  {
    head, tail := FirstSplit(s, ':');
  }

  /** The account field is the fifth. */
  lemma AccountFieldIff(arn: string, field: string)
    ensures AccountField(arn) == Some(field) <==> FifthField(arn, field)
  {
    if AccountField(arn) == Some(field) {
      FieldFound(arn, field);
    }
    if FifthField(arn, field) {
      var a, b, c, d, rest :| FieldsOf(arn, a, b, c, d, field, rest);
      FieldsSplit(arn, a, b, c, d, field, rest);
    }
  }

  lemma FieldFound(arn: string, field: string)
    requires AccountField(arn) == Some(field)
    ensures FifthField(arn, field)
  {
    hide SplitOn;
    var a, r1 := NextField(arn);
    var b, r2 := NextField(r1);
    var c, r3 := NextField(r2);
    var d, r4 := NextField(r3);
    var head, tail := FirstSplit(r4, ':');
    var rest := if ':' in r4 then ":" + tail else "";
    assert r4 == field + rest;
    assert arn == a + ":" + (b + ":" + (c + ":" + (d + ":" + (field + rest))));
    assert FieldsOf(arn, a, b, c, d, field, rest);
  }

  /** What follows the last slash. */
  ghost predicate LastSegment(s: string, segment: string) {
    '/' !in segment && (s == segment || exists front :: s == front + "/" + segment)
  }

  lemma {:induction false} LastSegmentIff(s: string, segment: string)
    ensures LastPart(s) == segment <==> LastSegment(s, segment)
    decreases |s|
  {
    var head, tail := FirstSplit(s, '/');
    if '/' in s {
      LastSegmentIff(tail, segment);
      assert LastPart(s) == LastPart(tail);
      if LastSegment(tail, segment) {
        if tail == segment {
          assert s == head + "/" + segment;
        } else {
          var front :| tail == front + "/" + segment;
          assert s == (head + "/" + front) + "/" + segment;
        }
      }
      if LastSegment(s, segment) {
        LaterSegment(s, head, tail, segment);
      }
    } else {
      OnlySegment(s, segment);
    }
  }

  lemma OnlySegment(s: string, segment: string)
    requires '/' !in s
    ensures LastSegment(s, segment) <==> segment == s
  {
    forall front ensures s != front + "/" + segment {
      assert (front + "/" + segment)[|front|] == '/';
    }
  }

  lemma LaterSegment(s: string, head: string, tail: string, segment: string)
    requires s == head + "/" + tail && '/' !in head && LastSegment(s, segment)
    ensures LastSegment(tail, segment)
  {
    assert s[|head|] == '/';
    var front :| s == front + "/" + segment;
    assert s[|front|] == '/' && s[|front| + 1..] == segment;
    if |front| > |head| {
      var rest := front[|head| + 1..];
      assert tail == s[|head| + 1..] == rest + "/" + segment;
    } else {
      assert |front| >= |head|;
      assert tail == s[|head| + 1..];
    }
  }

  /** The text up to the first slash. */
  ghost predicate FirstSegment(s: string, segment: string) {
    '/' !in segment && (s == segment || segment + "/" <= s)
  }

  lemma FirstSegmentIff(s: string, segment: string)
    ensures SplitOn(s, '/')[0] == segment <==> FirstSegment(s, segment)
  {
    var head, tail := FirstSplit(s, '/');
    if FirstSegment(s, segment) {
      if s == segment {
        SplitPlain(s, '/');
      } else {
        assert s == segment + ['/'] + s[|segment| + 1..];
        SplitFirst(segment, s[|segment| + 1..], '/');
      }
    }
  }

  ghost predicate Holds(s: string, part: string) {
    exists before, after :: s == before + part + after
  }

  lemma HoldsIff(s: string, part: string)
    ensures Contains(s, part) <==> Holds(s, part)
  {
    if i :| 0 <= i <= |s| && StartsWith(s[i..], part) {
      assert s == s[..i] + part + s[i..][|part|..];
    }
    if before, after :| s == before + part + after {
      assert s[|before|..] == part + after;
      assert StartsWith(s[|before|..], part);
    }
  }

  /** `part` stands nowhere before that place. */
  ghost predicate NotBefore(s: string, part: string, k: nat)
    requires k <= |s|
  {
    forall i :: 0 <= i < k ==> !(part <= s[i..])
  }

  /** `rest` follows the first place where `part` stands. */
  ghost predicate Follows(s: string, part: string, rest: string) {
    exists front :: s == front + part + rest && NotBefore(s, part, |front|)
  }

  lemma {:induction false} AfterIff(s: string, part: string, rest: string)
    requires Contains(s, part)
    ensures After(s, part) == rest <==> Follows(s, part, rest)
  {
    AfterFollows(s, part);
    forall r | Follows(s, part, r) ensures r == After(s, part) {
      var front :| s == front + part + r && NotBefore(s, part, |front|);
      forall i | 0 <= i < |front| ensures !StartsWith((front + part + r)[i..], part) {
        assert !(part <= s[i..]);
      }
      AfterFirst(front, part, r);
    }
  }

  lemma {:induction false} AfterFollows(s: string, part: string)
    requires Contains(s, part)
    ensures Follows(s, part, After(s, part))
  {
    if StartsWith(s, part) {
      assert s == "" + part + s[|part|..];
    } else {
      assert s[0..] == s;
      assert forall i :: 1 <= i <= |s| ==> s[i..] == s[1..][i - 1..];
      AfterFollows(s[1..], part);
      FollowsLater(s, part, After(s[1..], part));
      hide Follows;
    }
  }

  lemma SliceShift(s: string, i: nat)
    requires 0 < i <= |s|
    ensures s[i..] == s[1..][i - 1..]
  {
  }

  lemma NotBeforeLater(s: string, part: string, k: nat)
    requires k < |s| && !(part <= s) && NotBefore(s[1..], part, k)
    ensures NotBefore(s, part, k + 1)
  {
    forall i | 0 <= i < k + 1 ensures !(part <= s[i..]) {
      if i > 0 {
        SliceShift(s, i);
      } else {
        assert s[0..] == s;
      }
    }
  }

  lemma FollowsLater(s: string, part: string, r: string)
    requires s != "" && !(part <= s) && Follows(s[1..], part, r)
    ensures Follows(s, part, r)
  {
    hide NotBefore;
    var front :| s[1..] == front + part + r && NotBefore(s[1..], part, |front|);
    NotBeforeLater(s, part, |front|);
    Regroup(s[0], front, part, r);
    assert s == [s[0]] + s[1..];
    assert |[s[0]] + front| == |front| + 1;
  }

  lemma Regroup(c: char, front: string, part: string, r: string)
    ensures [c] + (front + part + r) == ([c] + front) + part + r
  {
  }

  // ---------------------------------------------------------------- entries

  predicate TwelveDigits(s: string) {
    |s| == 12 && forall i :: 0 <= i < 12 ==> s[i] in "0123456789"
  }

  lemma TwelveDigitsIff(s: string)
    ensures AccountId(s) <==> TwelveDigits(s)
  {
    forall c: char ensures IsDigit(c) <==> c in "0123456789" {
      DigitIs(c);
    }
    assert forall i :: 0 <= i < |s| ==> s[i] in s;
    hide IsDigit;
  }

  lemma DigitIs(c: char)
    ensures IsDigit(c) <==> c in "0123456789"
  {
    assert c == c as int as char;
  }

  /** A lone account id; the expression lets a final newline pass. */
  predicate AccountAlone(p: string) {
    TwelveDigits(p) || (|p| == 13 && p[12] == '\n' && TwelveDigits(p[..12]))
  }

  lemma AccountAloneIff(p: string)
    ensures AccountShorthand(p) <==> AccountAlone(p)
  {
    TwelveDigitsIff(p);
    if p != "" {
      TwelveDigitsIff(p[..|p| - 1]);
    }
    hide AccountId, TwelveDigits;
    assert AccountId(p[..if p != "" then |p| - 1 else 0]) ==> true;
  }

  /** A role's ARN and a session of a role of that name in the same account. */
  ghost predicate RoleOf(p: string, caller: string) {
    exists account, role, rest :: RoleOfBy(p, caller, account, role, rest)
  }

  ghost predicate RoleOfBy(p: string, caller: string, account: string, role: string, rest: string) {
    && Holds(p, ":role/") && Follows(caller, ":assumed-role/", rest)
    && FifthField(p, account) && FifthField(caller, account)
    && LastSegment(p, role) && FirstSegment(rest, role)
  }

  lemma RoleOfIff(p: string, caller: string)
    ensures NamesSession(p, caller) <==> RoleOf(p, caller)
  {
    hide AccountField, LastPart, After, SplitOn, Contains, FifthField, LastSegment, FirstSegment, Follows, Holds;
    HoldsIff(p, ":role/");
    if NamesSession(p, caller) {
      var account, rest, role := AccountField(p).value, After(caller, ASSUMED_ROLE), LastPart(p);
      AccountFieldIff(p, account);
      AccountFieldIff(caller, account);
      AfterIff(caller, ASSUMED_ROLE, rest);
      LastSegmentIff(p, role);
      FirstSegmentIff(rest, role);
      assert RoleOfBy(p, caller, account, role, rest);
    }
    if RoleOf(p, caller) {
      var account, role, rest :| RoleOfBy(p, caller, account, role, rest);
      AccountFieldIff(p, account);
      AccountFieldIff(caller, account);
      FollowsHolds(caller, ASSUMED_ROLE, rest);
      AfterIff(caller, ASSUMED_ROLE, rest);
      LastSegmentIff(p, role);
      FirstSegmentIff(rest, role);
    }
  }

  lemma FollowsHolds(s: string, part: string, rest: string)
    requires Follows(s, part, rest)
    ensures Contains(s, part)
  {
    HoldsIff(s, part);
  }

  /** A root ARN and a caller with that account between two colons. */
  ghost predicate RootOf(p: string, caller: string) {
    (exists front :: p == front + ":root") && exists account :: FifthField(p, account) && Holds(caller, ":" + account + ":")
  }

  lemma RootOfIff(p: string, caller: string)
    ensures NamesAccount(p, caller) <==> RootOf(p, caller)
  {
    hide AccountField, Contains, FifthField, Holds;
    if EndsWith(p, ROOT) {
      assert p == p[..|p| - 5] + ":root";
    }
    if front :| p == front + ":root" {
      assert p[|p| - 5..] == ":root";
    }
    if AccountField(p).Some? {
      AccountFieldIff(p, AccountField(p).value);
      HoldsIff(caller, ":" + AccountField(p).value + ":");
    }
    forall account | FifthField(p, account) ensures AccountField(p) == Some(account) {
      AccountFieldIff(p, account);
    }
  }

  /** An entry of an `AWS` principal reaches a caller exactly so. */
  ghost predicate Reaches(p: string, caller: string) {
    || p == "*"
    || (AccountAlone(p) && Holds(caller, ":" + p + ":"))
    || (!AccountAlone(p) && (Wild(caller, p, true) || RoleOf(p, caller) || RootOf(p, caller)))
  }

  lemma ReachesIff(p: string, caller: string)
    ensures EntryMatches(p, caller) <==> Reaches(p, caller)
  {
    AccountAloneIff(p);
    HoldsIff(caller, ":" + p + ":");
    FnmatchExactly(caller, p, true);
    RoleOfIff(p, caller);
    RootOfIff(p, caller);
    hide AccountShorthand, AccountAlone, Contains, Holds, Fnmatch, LineGlob, NamesSession, NamesAccount, RoleOf, RootOf;
  }

  /** A principal: `*` or a wildcard as bare text, any entry of an `AWS` list, a service's for a root caller, and never a bare list. */
  lemma PrincipalIff(principal: Principal, caller: string)
    ensures PrincipalMatches(principal, caller) <==>
      match principal
      case Text(p) => p == "*" || Wild(caller, p, true)
      case Fields(aws, service, federated) =>
        (exists p <- aws :: Reaches(p, caller)) || (service != [] && exists front :: caller == front + ":root")
      case List(names) => false
  {
    hide Fnmatch, Wild, EntryMatches, Reaches, LineGlob;
    match principal
    case Text(p) => FnmatchWild(caller, p);
    case Fields(aws, service, _) =>
      forall p ensures EntryMatches(p, caller) <==> Reaches(p, caller) {
        ReachesIff(p, caller);
      }
      if EndsWith(caller, ROOT) {
        assert caller == caller[..|caller| - 5] + ":root";
      }
      if front :| caller == front + ":root" {
        assert caller[|caller| - 5..] == ":root";
      }
    case List(_) =>
  }

  lemma FnmatchWild(value: string, pattern: string)
    ensures Fnmatch(value, pattern, true) <==> Wild(value, pattern, true)
  {
    FnmatchExactly(value, pattern, true);
  }

  /** A service principal names the calling service, up to case. */
  lemma ServiceIff(principal: Principal, service: string)
    ensures ServiceMatches(principal, service) <==>
      principal.Fields? && exists s <- principal.service :: EqualUpToCase(s, service)
  {
    forall s ensures Lower(s) == Lower(service) <==> EqualUpToCase(s, service) {
      LowerAgree(s, service);
    }
    hide EqualUpToCase;
  }

  // ---------------------------------------------------------------- ARN forms

  /** `arn:aws`, any letters and dashes of a partition, a service with no region, an account id and then `resource`. */
  ghost predicate ArnOf(s: string, service: string, resource: string) {
    exists partition, account :: ArnBy(s, partition, service, account, resource)
  }

  ghost predicate ArnBy(s: string, partition: string, service: string, account: string, resource: string) {
    && s == "arn:aws" + partition + service + account + resource && TwelveDigits(account)
    && forall i :: 0 <= i < |partition| ==> partition[i] in "abcdefghijklmnopqrstuvwxyz-"
  }

  lemma PartitionIs(c: char)
    ensures InPartition(c) <==> c in "abcdefghijklmnopqrstuvwxyz-"
  {
    assert c == c as int as char;
  }

  lemma {:induction false} SkipIff(s: string) returns (partition: string)
    ensures s == partition + SkipPartition(s) && forall i :: 0 <= i < |partition| ==> InPartition(partition[i])
    ensures SkipPartition(s) != "" ==> !InPartition(SkipPartition(s)[0])
  {
    if s != "" && InPartition(s[0]) {
      var rest := SkipIff(s[1..]);
      partition := [s[0]] + rest;
    } else {
      partition := "";
    }
  }

  lemma {:induction false} SkipAll(partition: string, rest: string)
    requires (forall i :: 0 <= i < |partition| ==> InPartition(partition[i])) && rest != "" && !InPartition(rest[0])
    ensures SkipPartition(partition + rest) == rest
  {
    if partition == "" {
      assert partition + rest == rest;
    } else {
      assert (partition + rest)[1..] == partition[1..] + rest;
      SkipAll(partition[1..], rest);
    }
  }

  lemma PartitionsAre()
    ensures forall c: char :: InPartition(c) <==> c in "abcdefghijklmnopqrstuvwxyz-"
  {
    forall c: char ensures InPartition(c) <==> c in "abcdefghijklmnopqrstuvwxyz-" {
      PartitionIs(c);
    }
  }

  lemma ResourceFound(s: string, service: string, resource: string)
    requires ResourceOf(s, service) == Some(resource)
    ensures ArnOf(s, service, resource)
  {
    PartitionsAre();
    hide InPartition, TwelveDigits;
    var partition := SkipIff(s[7..]);
    var tail := SkipPartition(s[7..]);
    var account := tail[|service|..|service| + 12];
    TwelveDigitsIff(account);
    assert s == "arn:aws" + s[7..];
    assert tail == service + account + resource;
    hide SkipPartition, ResourceOf, AllDigits;
    JoinArn(s, partition, service, account, resource);
    assert ArnBy(s, partition, service, account, resource);
  }

  lemma JoinArn(s: string, partition: string, service: string, account: string, resource: string)
    requires s == "arn:aws" + (partition + (service + account + resource))
    ensures s == "arn:aws" + partition + service + account + resource
  {
  }

  lemma ArnResource(s: string, partition: string, service: string, account: string, resource: string)
    requires ArnBy(s, partition, service, account, resource) && service != "" && service[0] == ':'
    ensures ResourceOf(s, service) == Some(resource)
  {
    PartitionsAre();
    TwelveDigitsIff(account);
    hide InPartition, TwelveDigits;
    var tail := service + account + resource;
    assert s[..7] == "arn:aws" && s[7..] == partition + tail;
    SkipAll(partition, tail);
    assert tail[|service|..|service| + 12] == account && tail[|service| + 12..] == resource && tail[..|service|] == service;
    hide SkipPartition;
  }

  /** The resource of an ARN of this service, which names no region. */
  lemma ResourceIff(s: string, service: string, resource: string)
    requires service != "" && service[0] == ':'
    ensures ResourceOf(s, service) == Some(resource) <==> ArnOf(s, service, resource)
  {
    hide ResourceOf, ArnBy;
    if ResourceOf(s, service) == Some(resource) {
      ResourceFound(s, service, resource);
    }
    if ArnOf(s, service, resource) {
      var partition, account :| ArnBy(s, partition, service, account, resource);
      ArnResource(s, partition, service, account, resource);
    }
  }

  /** An account principal is an account id or a root's ARN. */
  lemma AccountPrincipalIff(p: string)
    ensures AccountPrincipal(p) <==> TwelveDigits(p) || ArnOf(p, ":iam::", ":root")
  {
    hide ResourceOf, ArnOf, AccountId, TwelveDigits;
    TwelveDigitsIff(p);
    ResourceIff(p, ":iam::", ":root");
  }

  /** A user's ARN or a role session's, with something behind the slash and no newline there. */
  lemma UserOrSessionIff(caller: string)
    ensures UserOrSession(caller) <==>
      || (exists name :: name != "" && NoNewline(name) && ArnOf(caller, ":iam::", ":user/" + name))
      || (exists name :: name != "" && NoNewline(name) && ArnOf(caller, ":sts::", ":assumed-role/" + name))
  {
    ContinuesIff(caller, ":iam::", ":user/");
    ContinuesIff(caller, ":sts::", ":assumed-role/");
    hide Continues, ResourceOf, ArnOf;
  }

  lemma ContinuesIff(caller: string, service: string, prefix: string)
    requires service != "" && service[0] == ':'
    ensures Continues(ResourceOf(caller, service), prefix) <==>
      exists name :: name != "" && NoNewline(name) && ArnOf(caller, service, prefix + name)
  {
    hide ResourceOf, ArnOf;
    if Continues(ResourceOf(caller, service), prefix) {
      var resource := ResourceOf(caller, service).value;
      var name := resource[|prefix|..];
      assert resource == prefix + name;
      ResourceIff(caller, service, resource);
    }
    forall name | name != "" && NoNewline(name) && ArnOf(caller, service, prefix + name)
      ensures Continues(ResourceOf(caller, service), prefix)
    {
      ResourceIff(caller, service, prefix + name);
      assert (prefix + name)[|prefix|..] == name && (prefix + name)[..|prefix|] == prefix;
    }
  }

  // ---------------------------------------------------------------- selection and trust

  /** The texts a principal lists: a bare text is a list of one. */
  function Texts(principal: Principal): seq<string> {
    if principal.Text? then [principal.text] else if principal.List? then principal.names else principal.aws
  }

  lemma NamesIff(principal: Principal, caller: string)
    ensures NamesCaller(principal, caller) <==>
      exists p <- Texts(principal) :: !TwelveDigits(p) && !ArnOf(p, ":iam::", ":root") && Reaches(p, caller)
  {
    forall p ensures PrincipalMatches(Fields([p], [], []), caller) <==> Reaches(p, caller) {
      SingleEntry(p, caller);
      ReachesIff(p, caller);
    }
    forall p ensures AccountPrincipal(p) <==> TwelveDigits(p) || ArnOf(p, ":iam::", ":root") {
      AccountPrincipalIff(p);
    }
    hide PrincipalMatches, Reaches, AccountPrincipal, TwelveDigits, ArnOf;
    assert Texts(principal) == Entries(principal);
  }

  /** Which statements of a resource policy each mode selects, by their principals. */
  lemma SelectsIff(mode: Mode, principal: Principal, caller: string)
    ensures Selects(mode, principal, caller) <==>
      match mode
      case Direct => UserOrSession(caller) && caller in Texts(principal)
      case Named => exists p <- Texts(principal) :: !TwelveDigits(p) && !ArnOf(p, ":iam::", ":root") && Reaches(p, caller)
      case Full(service) =>
        match principal
        case Text(p) => p == "*" || Wild(caller, p, true)
        case Fields(aws, services, federated) =>
          || (exists p <- aws :: Reaches(p, caller))
          || (service.Some? && service.value != "" && exists s <- services :: EqualUpToCase(s, service.value))
        case List(names) => false
  {
    NamesIff(principal, caller);
    PrincipalIff(principal, caller);
    if principal.Fields? {
      PrincipalIff(Fields(principal.aws, [], []), caller);
    }
    if mode.Full? && mode.service.Some? {
      ServiceIff(principal, mode.service.value);
    }
    hide NamesCaller, PrincipalMatches, ServiceMatches, UserOrSession, TwelveDigits, ArnOf, Reaches, Wild, EqualUpToCase;
  }

  /**
    When a statement of a trust policy counts: it speaks about actions and lists this one, its principal
    is the caller's or, for a web identity, everyone or the provider, and its conditions are met.
   */
  lemma TrustIff(ctx: Context, raw: RawStatement, caller: string)
    ensures TrustApplies(ctx, raw, caller) <==>
      && raw.parsed.Some?
      && !(raw.parsed.value.actions == [] && raw.parsed.value.notActions == [])
      && Listed(ctx.action, raw.parsed.value.actions, raw.parsed.value.notActions, true)
      && C.Met(ctx.readers, ctx.lookup, raw.parsed.value.conditions)
      && (if ctx.action == "sts:AssumeRoleWithWebIdentity"
          then raw.principal == Text("*") || (raw.principal.Fields? && caller in raw.principal.federated)
          else PrincipalMatches(raw.principal, caller))
  {
    if raw.parsed.Some? {
      ListedIff(ctx.action, raw.parsed.value.actions, raw.parsed.value.notActions, true);
    }
    hide PrincipalMatches, ListMatches, Listed, C.Met;
  }
}
