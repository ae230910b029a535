/**
  Whom a policy statement names (`ministack/core/iam_evaluator.py`): the principal matcher shared by
  resource and trust policies, and the two narrower selections, callers named beyond their account
  and callers named by their very own ARN.
 */
module IamPrincipals {
  import opened IamGlob
  import opened PythonText
  import opened Results

  /** A `Principal` element. A lone text in a field stands for a one-element list. */
  datatype Principal =
    | Text(text: string)
    | Fields(aws: seq<string>, service: seq<string>, federated: seq<string>)
    | List(names: seq<string>)

  predicate IsDigit(c: char) {
    '0' <= c <= '9'
  }

  predicate AllDigits(s: string) {
    forall c <- s :: IsDigit(c)
  }

  /** `\d{12}` as a full match. */
  predicate AccountId(s: string) {
    |s| == 12 && AllDigits(s)
  }

  /** `^\d{12}$` under `re.match`, whose `$` lets one final newline pass. */
  predicate AccountShorthand(s: string) {
    AccountId(s) || (s != "" && s[|s| - 1] == '\n' && AccountId(s[..|s| - 1]))
  }

  /** The fifth colon-separated field, which holds the account. */
  function AccountField(arn: string): Option<string> {
    var fields := SplitOn(arn, ':');
    if |fields| > 4 then Some(fields[4]) else None
  }

  function LastPart(s: string): string {
    var parts := SplitOn(s, '/');
    parts[|parts| - 1]
  }

  const ASSUMED_ROLE := ":assumed-role/"
  const ROOT := ":root"

  /** A role's ARN names the sessions that assumed it. */
  predicate NamesSession(p: string, caller: string) {
    && Contains(p, ":role/")
    && Contains(caller, ASSUMED_ROLE)
    && AccountField(p).Some?
    && AccountField(p) == AccountField(caller)
    && LastPart(p) == SplitOn(After(caller, ASSUMED_ROLE), '/')[0]
  }

  /** A root ARN names everyone in its account. */
  predicate NamesAccount(p: string, caller: string) {
    EndsWith(p, ROOT) && AccountField(p).Some? && Contains(caller, ":" + AccountField(p).value + ":")
  }

  /** One entry of an `AWS` principal against the caller. */
  predicate EntryMatches(p: string, caller: string) {
    || p == "*"
    || (if AccountShorthand(p) then Contains(caller, ":" + p + ":")
        else Fnmatch(caller, p, true) || NamesSession(p, caller) || NamesAccount(p, caller))
  }

  /** `_principal_matches` */
  predicate PrincipalMatches(principal: Principal, caller: string) {
    match principal
    case Text(p) => p == "*" || Fnmatch(caller, p, true)
    case Fields(aws, service, _) =>
      (exists p <- aws :: EntryMatches(p, caller)) || (service != [] && EndsWith(caller, ROOT))
    case List(_) => false
  }

  /** `_service_principal_matches` */
  predicate ServiceMatches(principal: Principal, service: string) {
    principal.Fields? && exists s <- principal.service :: Lower(s) == Lower(service)
  }

  // ---------------------------------------------------------------- the ARN expressions

  predicate InPartition(c: char) {
    'a' <= c <= 'z' || c == '-'
  }

  /** Drops what `[a-z-]*` takes; the colon that must follow ends it. */
  function SkipPartition(s: string): string {
    if s != "" && InPartition(s[0]) then SkipPartition(s[1..]) else s
  }

  const ARN := "arn:aws"

  /** What remains of an ARN after `arn:aws[a-z-]*`. */
  function ArnTail(s: string): Option<string> {
    if StartsWith(s, ARN) then Some(SkipPartition(s[|ARN|..])) else None
  }

  /** The tail is a service field, an empty region, a twelve-digit account and then a resource. */
  function ResourceOf(s: string, service: string): Option<string> {
    var tail := ArnTail(s);
    if tail.Some? && StartsWith(tail.value, service) && |tail.value| >= |service| + 12
       && AllDigits(tail.value[|service|..|service| + 12])
    then Some(tail.value[|service| + 12..])
    else None
  }

  const IAM := ":iam::"
  const STS := ":sts::"
  const USER := ":user/"

  /** `_ACCOUNT_PRINCIPAL.fullmatch` */
  predicate AccountPrincipal(p: string) {
    AccountId(p) || ResourceOf(p, IAM) == Some(ROOT)
  }

  /** A prefix, then `.+` up to the end. */
  predicate Continues(resource: Option<string>, prefix: string) {
    && resource.Some?
    && StartsWith(resource.value, prefix)
    && |prefix| < |resource.value|
    && NoNewline(resource.value[|prefix|..])
  }

  /** The caller is an IAM user or a role session. */
  predicate UserOrSession(caller: string) {
    Continues(ResourceOf(caller, IAM), USER) || Continues(ResourceOf(caller, STS), ASSUMED_ROLE)
  }

  /** The entries the narrower selections look at. */
  function Entries(principal: Principal): seq<string> {
    match principal
    case Text(p) => [p]
    case Fields(aws, _, _) => aws
    case List(names) => names
  }

  /** `_names_caller` */
  predicate NamesCaller(principal: Principal, caller: string) {
    exists p <- Entries(principal) ::
      !AccountPrincipal(p) && PrincipalMatches(Fields([p], [], []), caller)
  }

  /** `_names_caller_directly` */
  predicate NamesCallerDirectly(principal: Principal, caller: string) {
    UserOrSession(caller) && caller in Entries(principal)
  }

  // ---------------------------------------------------------------- the nesting

  /** The forms AWS allows: `*` alone, or a JSON object of lists. */
  predicate WellFormed(principal: Principal) {
    principal.Fields? || principal == Text("*")
  }

  /** A user or session ARN is never an account principal, nor an account id. */
  lemma UserIsNoAccount(caller: string)
    requires UserOrSession(caller)
    ensures !AccountPrincipal(caller) && !AccountShorthand(caller)
  {
    assert caller[0] == ARN[0];
    assert !IsDigit('a');
    if Continues(ResourceOf(caller, IAM), USER) {
      assert ROOT[1] != USER[1];
    } else {
      assert IAM[1] != STS[1];
    }
  }

  lemma {:induction false} SkippedHasNoNewline(s: string)
    requires NoNewline(SkipPartition(s))
    ensures NoNewline(s)
  {
    if s != "" && InPartition(s[0]) {
      SkippedHasNoNewline(s[1..]);
    }
  }

  lemma ResourceHasNoNewline(caller: string, service: string)
    requires ResourceOf(caller, service).Some? && NoNewline(service) && NoNewline(ResourceOf(caller, service).value)
    ensures NoNewline(caller)
  {
    var tail := ArnTail(caller).value;
    var account := tail[|service|..|service| + 12];
    forall i | 0 <= i < 12 ensures account[i] != '\n' {
      assert account[i] in account;
    }
    assert tail == service + account + tail[|service| + 12..];
    SkippedHasNoNewline(caller[|ARN|..]);
    assert caller == ARN + caller[|ARN|..];
  }

  lemma UserHasNoNewline(caller: string)
    requires UserOrSession(caller)
    ensures NoNewline(caller)
  {
    hide ResourceOf;
    if Continues(ResourceOf(caller, IAM), USER) {
      var resource := ResourceOf(caller, IAM).value;
      assert resource == USER + resource[|USER|..];
      ResourceHasNoNewline(caller, IAM);
    } else {
      var resource := ResourceOf(caller, STS).value;
      assert resource == ASSUMED_ROLE + resource[|ASSUMED_ROLE|..];
      ResourceHasNoNewline(caller, STS);
    }
  }

  lemma SingleEntry(p: string, caller: string)
    ensures PrincipalMatches(Fields([p], [], []), caller) == EntryMatches(p, caller)
  {
    assert p in [p];
  }

  /** Whoever a statement names directly it names, whatever form its principal takes. */
  lemma DirectIsNamed(principal: Principal, caller: string)
    requires NamesCallerDirectly(principal, caller)
    ensures NamesCaller(principal, caller)
  {
    hide UserOrSession;
    UserIsNoAccount(caller);
    UserHasNoNewline(caller);
    MatchesItself(caller, true);
    SingleEntry(caller, caller);
  }

  /** Whoever a well-formed principal names it matches. */
  lemma NamedIsMatched(principal: Principal, caller: string)
    requires WellFormed(principal) && NamesCaller(principal, caller)
    ensures PrincipalMatches(principal, caller)
  {
    hide EntryMatches;
    var p :| p in Entries(principal) && !AccountPrincipal(p) && PrincipalMatches(Fields([p], [], []), caller);
    SingleEntry(p, caller);
  }

  /** The converse of nesting fails for account principals only: any other matching entry names the caller. */
  lemma NamedUnlessAccount(aws: seq<string>, service: seq<string>, federated: seq<string>, caller: string)
    ensures NamesCaller(Fields(aws, service, federated), caller) <==>
      exists p <- aws :: EntryMatches(p, caller) && !AccountPrincipal(p)
  {
    hide EntryMatches;
    hide AccountPrincipal;
    forall p | p in aws ensures PrincipalMatches(Fields([p], [], []), caller) == EntryMatches(p, caller) {
      SingleEntry(p, caller);
    }
  }

  lemma EntryNames(principal: Principal, p: string, caller: string)
    requires p in Entries(principal) && !AccountPrincipal(p) && EntryMatches(p, caller)
    ensures NamesCaller(principal, caller)
  {
    hide EntryMatches;
    hide AccountPrincipal;
    SingleEntry(p, caller);
  }

  // ---------------------------------------------------------------- when naming implies matching

  /** `_names_caller` wraps a bare text or list into an `AWS` entry; `_principal_matches` reads a bare text as a wildcard alone. */
  predicate NamingMatches(principal: Principal, caller: string) {
    match principal
    case Fields(_, _, _) => true
    case Text(p) =>
      || AccountPrincipal(p)
      || p == "*"
      || Fnmatch(caller, p, true)
      || (if AccountShorthand(p) then !Contains(caller, ":" + p + ":") else !NamesSession(p, caller) && !NamesAccount(p, caller))
    case List(names) => forall p <- names :: EntryMatches(p, caller) ==> AccountPrincipal(p)
  }

  /** Whoever is named is matched, except by a bare list and by a bare text that reaches the caller only as a role, an account or a root. */
  lemma NamedIsMatchedIff(principal: Principal, caller: string)
    ensures (NamesCaller(principal, caller) ==> PrincipalMatches(principal, caller)) <==> NamingMatches(principal, caller)
  {
    hide Fnmatch, Contains, NamesSession, NamesAccount, AccountPrincipal, AccountShorthand;
    forall p ensures PrincipalMatches(Fields([p], [], []), caller) == EntryMatches(p, caller) {
      SingleEntry(p, caller);
    }
    match principal
    case Fields(aws, service, federated) =>
      if NamesCaller(principal, caller) {
        var p :| p in Entries(principal) && !AccountPrincipal(p) && PrincipalMatches(Fields([p], [], []), caller);
        assert p in aws && EntryMatches(p, caller);
      }
    case Text(p) =>
      assert Entries(principal) == [p] && p in [p];
    case List(names) =>
  }

  function RoleArn(account: string, role: string): string {
    "arn:aws:iam::" + account + ":role/" + role
  }

  function SessionArn(account: string, role: string, session: string): string {
    "arn:aws:sts::" + account + ASSUMED_ROLE + role + "/" + session
  }

  lemma AccountFieldOf(a: string, b: string, c: string, account: string, rest: string)
    requires ':' !in a && ':' !in b && ':' !in c && ':' !in account
    ensures AccountField(a + [':'] + (b + [':'] + (c + [':'] + ("" + [':'] + (account + [':'] + rest))))) == Some(account)
  {
    SplitFirst(account, rest, ':');
    SplitFirst("", account + [':'] + rest, ':');
    SplitFirst(c, "" + [':'] + (account + [':'] + rest), ':');
    SplitFirst(b, c + [':'] + ("" + [':'] + (account + [':'] + rest)), ':');
    SplitFirst(a, b + [':'] + (c + [':'] + ("" + [':'] + (account + [':'] + rest))), ':');
  }

  /** `After` finds an occurrence that no earlier one precedes. */
  lemma {:induction false} AfterFirst(front: string, part: string, rest: string)
    requires forall i :: 0 <= i < |front| ==> !StartsWith((front + part + rest)[i..], part)
    ensures Contains(front + part + rest, part) && After(front + part + rest, part) == rest
  {
    var s := front + part + rest;
    assert s[|front|..] == part + rest;
    assert StartsWith(s[|front|..], part);
    if front == "" {
      assert s == part + rest;
    } else {
      assert s[1..] == front[1..] + part + rest;
      forall i | 0 <= i < |front[1..]| ensures !StartsWith(s[1..][i..], part) {
        assert s[1..][i..] == s[i + 1..];
      }
      assert s[0..] == s;
      AfterFirst(front[1..], part, rest);
    }
  }

  /** The literals a pattern starts with are the characters a match starts with. */
  lemma {:induction false} LiteralsAgree(re: Regex, v: string, k: nat, ignoreCase: bool)
    requires k < |re| && Matches(re, v, ignoreCase) && forall i :: 0 <= i <= k ==> re[i].Literal?
    ensures k < |v| && SameChar(re[k].c, v[k], ignoreCase)
  {
    if k > 0 {
      LiteralsAgree(re[1..], v[1..], k - 1, ignoreCase);
    }
  }

  lemma RoleAccount(account: string, role: string)
    requires AccountId(account)
    ensures AccountField(RoleArn(account, role)) == Some(account)
  {
    assert RoleArn(account, role)
        == "arn" + [':'] + ("aws" + [':'] + ("iam" + [':'] + ("" + [':'] + (account + [':'] + ("role/" + role)))));
    AccountFieldOf("arn", "aws", "iam", account, "role/" + role);
  }

  lemma RoleName(account: string, role: string)
    requires AccountId(account) && '/' !in role
    ensures LastPart(RoleArn(account, role)) == role
  {
    var front := "arn:aws:iam::" + account + ":role";
    assert RoleArn(account, role) == front + ['/'] + role;
    SplitPlain(role, '/');
    SplitFirst(front, role, '/');
  }

  lemma SessionAccount(account: string, role: string, session: string)
    requires AccountId(account)
    ensures AccountField(SessionArn(account, role, session)) == Some(account)
  {
    var rest := "assumed-role/" + role + "/" + session;
    assert SessionArn(account, role, session)
        == "arn" + [':'] + ("aws" + [':'] + ("sts" + [':'] + ("" + [':'] + (account + [':'] + rest))));
    AccountFieldOf("arn", "aws", "sts", account, rest);
  }

  lemma SessionRole(account: string, role: string, session: string)
    requires AccountId(account) && '/' !in role
    ensures Contains(SessionArn(account, role, session), ASSUMED_ROLE)
    ensures SplitOn(After(SessionArn(account, role, session), ASSUMED_ROLE), '/')[0] == role
  {
    var front, rest := "arn:aws:sts::" + account, role + ['/'] + session;
    var caller := SessionArn(account, role, session);
    assert caller == front + ASSUMED_ROLE + rest;
    forall i | 0 <= i < |front| ensures !StartsWith(caller[i..], ASSUMED_ROLE) {
      NoEarlierRole(account, caller, i);
    }
    AfterFirst(front, ASSUMED_ROLE, rest);
    SplitFirst(role, session, '/');
  }

  lemma NoEarlierRole(account: string, caller: string, i: nat)
    requires AccountId(account) && |caller| > 25 && StartsWith(caller, "arn:aws:sts::" + account) && i < 25
    ensures !StartsWith(caller[i..], ASSUMED_ROLE)
  {
    var front := "arn:aws:sts::" + account;
    assert forall j :: 0 <= j < 25 ==> caller[j] == front[j];
    forall j | 13 <= j < 25 ensures front[j] != ':' && front[j] != 'a' {
      assert front[j] == account[j - 13] && account[j - 13] in account;
    }
    assert caller[i..][0] == caller[i];
    if i < 12 {
      assert caller[i..][1] == caller[i + 1] && caller[i..][2] == caller[i + 2];
    } else {
      assert caller[i..][1] == caller[i + 1];
    }
  }

  lemma RoleIsNoAccount(account: string, role: string)
    requires AccountId(account)
    ensures !AccountPrincipal(RoleArn(account, role)) && !AccountShorthand(RoleArn(account, role))
  {
    var p := RoleArn(account, role);
    assert !IsDigit(p[0]) && p[0] in p && p[0] in p[..|p| - 1];
    assert p[|ARN|..] == IAM + account + ":role/" + role;
    var tail := p[|ARN|..];
    assert tail[|IAM| + 12..] == ":role/" + role;
    assert ROOT[4] != ":role/"[4];
  }

  lemma RoleIsNoWildcard(account: string, role: string, session: string)
    ensures !Fnmatch(SessionArn(account, role, session), RoleArn(account, role), true)
  {
    var p, caller := RoleArn(account, role), SessionArn(account, role, session);
    var front := "arn:aws:iam::";
    assert forall i :: 0 <= i < 9 ==> p[i] == front[i];
    assert forall i :: 0 <= i < 9 ==> Lower(p)[i] == front[i];
    assert caller[8] == 's';
    if Matches(Compile(Lower(p)), caller, true) {
      LiteralsAgree(Compile(Lower(p)), caller, 8, true);
    }
  }

  /**
    Outside the forms AWS allows a statement may name a caller it does not match: a bare list names
    everyone, and a role's ARN as a bare text names the sessions that assumed that role.
   */
  lemma BareNamesMore(account: string, role: string, session: string, c: string)
    requires AccountId(account) && '/' !in role
    ensures NamesCaller(List(["*"]), c) && !PrincipalMatches(List(["*"]), c)
    ensures var text, caller := Text(RoleArn(account, role)), SessionArn(account, role, session);
            NamesCaller(text, caller) && !PrincipalMatches(text, caller)
  {
    EntryNames(List(["*"]), "*", c);
    var p, caller := RoleArn(account, role), SessionArn(account, role, session);
    RoleAccount(account, role);
    RoleName(account, role);
    SessionAccount(account, role, session);
    SessionRole(account, role, session);
    assert Contains(p, ":role/") by {
      var front := "arn:aws:iam::" + account;
      assert p[|front|..] == ":role/" + role;
      assert StartsWith(p[|front|..], ":role/");
    }
    RoleIsNoAccount(account, role);
    RoleIsNoWildcard(account, role, session);
    hide AccountField, LastPart, After, SplitOn, Contains, AccountPrincipal, AccountShorthand, Fnmatch;
    assert NamesSession(p, caller);
    EntryNames(Text(p), p, caller);
  }
}
