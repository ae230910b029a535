/**
  The capability registry of RDS IAM authentication (`ministack/core/rds_iam.py`): each database
  endpoint has at most one live capability, bound to the very records it was issued for. Database
  lifecycle steps may change those records at any moment, also while a decision is under way.
 */
module RdsCapabilities {
  import opened Results

  /** The endpoint a capability speaks for. */
  datatype Target = Target(account: string, region: string, kind: string, identifier: string, reader: bool)

  /** A record's fields; records are told apart by identity, so a replaced record is another number. */
  datatype Record = Record(engine: string, cluster: Option<string>, dbiId: string, clusterId: string, enabled: bool)

  type Stored = map<(string, string, string), nat>

  datatype World = World(instances: Stored, clusters: Stored, records: nat -> Record)

  datatype Binding = Binding(target: Target, record: nat, owner: nat, resourceId: string)

  // ---------------------------------------------------------------- looking records up

  function Lookup(stored: Stored, t: Target, identifier: string): Option<nat> {
    var key := (t.account, t.region, identifier);
    if key in stored then Some(stored[key]) else None
  }

  const AURORA := {"aurora", "aurora-mysql"}

  /** `_resources`: the endpoint's record and the one owning its settings. */
  function Resources(w: World, t: Target): Option<(nat, nat)> {
    var record := Lookup(if t.kind == "instance" then w.instances else w.clusters, t, t.identifier);
    if record.None? then None
    else
      var r := w.records(record.value);
      if r.engine != "mysql" && r.engine !in AURORA then None
      else if t.kind == "instance" && r.cluster.Some? && r.cluster.value != "" then
        var owner := Lookup(w.clusters, t, r.cluster.value);
        if owner.None? || w.records(owner.value).engine !in AURORA then None else Some((record.value, owner.value))
      else if r.engine != "mysql" && t.kind == "instance" then None
      else if t.kind == "cluster" && r.engine == "mysql" then None
      else Some((record.value, record.value))
  }

  /** `_resource_id` */
  function ResourceId(w: World, t: Target, record: nat, owner: nat): string {
    if t.kind == "cluster" || owner != record then w.records(owner).clusterId else w.records(owner).dbiId
  }

  /** `_binding_current`: the endpoint still leads to the very records bound, unreplaced and enabled. */
  predicate BindingCurrent(w: World, b: Binding) {
    && Resources(w, b.target) == Some((b.record, b.owner))
    && ResourceId(w, b.target, b.record, b.owner) == b.resourceId
    && w.records(b.owner).enabled
  }

  /** The checks before a capability is made: the endpoint it may be bound to. */
  function Bindable(w: World, t: Target): Option<Binding> {
    if (t.kind != "instance" && t.kind != "cluster") || t.account == "" || t.region == "" || (t.reader && t.kind != "cluster") then None
    else
      var found := Resources(w, t);
      if found.None? then None
      else
        var id := ResourceId(w, t, found.value.0, found.value.1);
        if id == "" then None else Some(Binding(t, found.value.0, found.value.1, id))
  }

  // ---------------------------------------------------------------- which records stand behind an endpoint

  /** A MySQL instance that is no cluster's member stands for itself. */
  predicate StandsAlone(w: World, t: Target, record: nat, owner: nat, id: string) {
    && t.kind == "instance" && (t.account, t.region, t.identifier) in w.instances
    && record == w.instances[(t.account, t.region, t.identifier)] && owner == record
    && w.records(record).engine == "mysql" && w.records(record).cluster in {None, Some("")}
    && id == w.records(record).dbiId
  }

  /** A member's settings are its Aurora cluster's. */
  predicate StandsInCluster(w: World, t: Target, record: nat, owner: nat, id: string) {
    && t.kind == "instance" && (t.account, t.region, t.identifier) in w.instances
    && record == w.instances[(t.account, t.region, t.identifier)]
    && w.records(record).engine in {"mysql", "aurora", "aurora-mysql"} && w.records(record).cluster !in {None, Some("")}
    && (t.account, t.region, w.records(record).cluster.value) in w.clusters
    && owner == w.clusters[(t.account, t.region, w.records(record).cluster.value)]
    && w.records(owner).engine in {"aurora", "aurora-mysql"}
    && id == (if owner == record then w.records(owner).dbiId else w.records(owner).clusterId)
  }

  predicate StandsAsCluster(w: World, t: Target, record: nat, owner: nat, id: string) {
    && t.kind == "cluster" && (t.account, t.region, t.identifier) in w.clusters
    && record == w.clusters[(t.account, t.region, t.identifier)] && owner == record
    && w.records(record).engine in {"aurora", "aurora-mysql"}
    && id == w.records(record).clusterId
  }

  predicate Stands(w: World, t: Target, record: nat, owner: nat, id: string) {
    StandsAlone(w, t, record, owner, id) || StandsInCluster(w, t, record, owner, id) || StandsAsCluster(w, t, record, owner, id)
  }

  lemma StandsIff(w: World, t: Target, record: nat, owner: nat, id: string)
    requires t.kind in {"instance", "cluster"}
    ensures Stands(w, t, record, owner, id) <==> Resources(w, t) == Some((record, owner)) && ResourceId(w, t, record, owner) == id
  {
    if t.kind == "instance" {
      InstanceStandsIff(w, t, record, owner, id);
    } else {
      ClusterStandsIff(w, t, record, owner, id);
    }
  }

  lemma InstanceStandsIff(w: World, t: Target, record: nat, owner: nat, id: string)
    requires t.kind == "instance"
    ensures Stands(w, t, record, owner, id) <==> Resources(w, t) == Some((record, owner)) && ResourceId(w, t, record, owner) == id
  {
    var key := (t.account, t.region, t.identifier);
    if key in w.instances {
      var r := w.records(w.instances[key]);
      assert r.cluster.Some? ==> (r.cluster in {None, Some("")} <==> r.cluster.value == "");
    }
  }

  lemma ClusterStandsIff(w: World, t: Target, record: nat, owner: nat, id: string)
    requires t.kind == "cluster"
    ensures Stands(w, t, record, owner, id) <==> Resources(w, t) == Some((record, owner)) && ResourceId(w, t, record, owner) == id
  {
  }

  /** A binding is current exactly when its records stand behind its endpoint under its id, and the owner is enabled. */
  lemma CurrentIff(w: World, b: Binding)
    requires b.target.kind in {"instance", "cluster"}
    ensures BindingCurrent(w, b) <==> Stands(w, b.target, b.record, b.owner, b.resourceId) && w.records(b.owner).enabled
  {
    StandsIff(w, b.target, b.record, b.owner, b.resourceId);
    hide Stands, Resources, ResourceId;
  }

  /** An endpoint can be bound exactly when it is a complete instance or cluster target with records and a resource id. */
  lemma BindableIff(w: World, t: Target, b: Binding)
    ensures Bindable(w, t) == Some(b) <==>
      && b.target == t && t.account != "" && t.region != ""
      && (t.kind == "cluster" || (t.kind == "instance" && !t.reader))
      && Stands(w, t, b.record, b.owner, b.resourceId) && b.resourceId != ""
  {
    if t.kind in {"instance", "cluster"} {
      StandsIff(w, t, b.record, b.owner, b.resourceId);
      if Resources(w, t).Some? {
        var found := Resources(w, t).value;
        StandsIff(w, t, found.0, found.1, ResourceId(w, t, found.0, found.1));
      }
    }
    hide Stands, Resources, ResourceId;
  }

  // ---------------------------------------------------------------- the registry's operations

  type Bindings = map<string, Binding>

  function Without(bindings: Bindings, t: Target): Bindings {
    map digest <- bindings | bindings[digest].target != t :: bindings[digest]
  }

  /** What the world shows around the i-th authorization: its result, and the world once it is over. */
  datatype Moment = Moment(authorized: bool, after: World)

  /** The first authorization that succeeds decides, and only if the binding is still current then. */
  predicate Granted(b: Binding, moments: seq<Moment>)
  {
    moments != [] && (if moments[0].authorized then BindingCurrent(moments[0].after, b) else Granted(b, moments[1..]))
  }

  class Registry {
    var bindings: Bindings
    const digest: string -> string
    /** Everything issued, revoked or cleared so far. */
    ghost var history: seq<Event>

    /** The bindings are what the history leaves. */
    ghost predicate Valid()
      reads this
    {
      bindings == Replay(digest, history)
    }

    constructor (digest: string -> string)
      ensures Valid() && bindings == map[] && this.digest == digest && history == []
    {
      bindings := map[];
      this.digest := digest;
      history := [];
    }

    ghost method Note(e: Event)
      modifies this`history
      ensures history == old(history) + [e]
      ensures Replay(digest, history) == Apply(Replay(digest, old(history)), digest, e)
    {
      history := history + [e];
      assert history[..|history| - 1] == old(history);
    }

    /** `issue_capability`, with the token the generator gives: it alone is then in force for the endpoint. */
    method Issue(w: World, t: Target, token: string) returns (issued: bool)
      requires Valid()
      modifies this
      ensures Valid() && issued == Bindable(w, t).Some?
      ensures issued ==> history == old(history) + [Issued(token, Bindable(w, t).value)]
      ensures issued ==> InForce(history, token, Bindable(w, t).value)
      ensures issued ==> forall other, b: Binding :: other != token && b.target == t ==> !InForce(history, other, b)
      ensures !issued ==> bindings == old(bindings) && history == old(history)
    {
      if (t.kind != "instance" && t.kind != "cluster") || t.account == "" || t.region == "" || (t.reader && t.kind != "cluster") {
        return false;
      }
      var found := Resources(w, t);
      if found.None? || ResourceId(w, t, found.value.0, found.value.1) == "" {
        return false;
      }
      DropTarget(t);
      var binding := Binding(t, found.value.0, found.value.1, ResourceId(w, t, found.value.0, found.value.1));
      bindings := bindings[digest(token) := binding];
      Note(Issued(token, binding));
      IssuedAlone(old(history), token, binding);
      return true;
    }

    method DropTarget(t: Target)
      modifies this`bindings
      ensures bindings == Without(old(bindings), t)
    {
      var todo := bindings.Keys;
      while todo != {}
        invariant todo <= old(bindings).Keys
        invariant bindings == map d <- old(bindings) | d in todo || old(bindings)[d].target != t :: old(bindings)[d]
        decreases |todo|
      {
        var d :| d in todo;
        if bindings[d].target == t {
          bindings := bindings - {d};
        }
        todo := todo - {d};
      }
    }

    /** The capability is out of force, and every other stands as it did. */
    method Revoke(token: string)
      requires Valid()
      modifies this
      ensures Valid() && history == old(history) + [Revoked(token)]
      ensures forall b :: !InForce(history, token, b)
      ensures forall other, b :: other != token ==> (InForce(history, other, b) <==> InForce(old(history), other, b))
    {
      bindings := bindings - {digest(token)};
      Note(Revoked(token));
      forall other, b ensures InForce(history, other, b) <==> InForce(old(history), other, b) && other != token {
        InForceStep(old(history), Revoked(token), other, b);
      }
    }

    /** No capability is in force. */
    method Reset()
      requires Valid()
      modifies this
      ensures Valid() && history == old(history) + [Cleared]
      ensures forall token, b :: !InForce(history, token, b)
    {
      bindings := map[];
      Note(Cleared);
      forall token, b ensures !InForce(history, token, b) {
        InForceStep(old(history), Cleared, token, b);
      }
    }

    /**
      `_decision`: `w` is the world at the first check, `moments` what each authorization meets, one for
      every endpoint the binding is tried at by then.
     */
    method Decide(token: string, authEnabled: bool, w: World, moments: seq<Moment>) returns (granted: bool)
      requires Valid()
      ensures granted == (digest(token) in bindings && BindingCurrent(w, bindings[digest(token)])
                          && (authEnabled ==> Granted(bindings[digest(token)], moments)))
      ensures granted && Injective(digest) && FreshTokens(history) ==> InForce(history, token, bindings[digest(token)])
    {
      if Injective(digest) && FreshTokens(history) && digest(token) in bindings {
        ReplayIsInForce(digest, history, token, bindings[digest(token)]);
      }
      if digest(token) !in bindings {
        return false;
      }
      var binding := bindings[digest(token)];
      if !BindingCurrent(w, binding) {
        return false;
      }
      if !authEnabled {
        return true;
      }
      for i := 0 to |moments|
        invariant Granted(binding, moments) == Granted(binding, moments[i..])
      {
        assert moments[i..][1..] == moments[i + 1..];
        if moments[i].authorized {
          return BindingCurrent(moments[i].after, binding);
        }
      }
      return false;
    }
  }

  // ---------------------------------------------------------------- what a history leaves in force

  datatype Event = Issued(token: string, binding: Binding) | Revoked(token: string) | Cleared

  function Apply(bindings: Bindings, digest: string -> string, e: Event): Bindings {
    match e
    case Issued(token, b) => Without(bindings, b.target)[digest(token) := b]
    case Revoked(token) => bindings - {digest(token)}
    case Cleared => map[]
  }

  function Replay(digest: string -> string, history: seq<Event>): Bindings {
    if history == [] then map[] else Apply(Replay(digest, history[..|history| - 1]), digest, history[|history| - 1])
  }

  /** An event that puts an issued capability out of force. */
  predicate Ends(e: Event, token: string, t: Target) {
    match e
    case Issued(_, b) => b.target == t
    case Revoked(revoked) => revoked == token
    case Cleared => true
  }

  /** The capability was issued with this binding, and nothing since has ended it. */
  ghost predicate InForce(history: seq<Event>, token: string, b: Binding) {
    exists i :: 0 <= i < |history| && history[i] == Issued(token, b)
                && forall j :: i < j < |history| ==> !Ends(history[j], token, b.target)
  }

  ghost predicate Injective(digest: string -> string) {
    forall s, t :: digest(s) == digest(t) ==> s == t
  }

  /** The generator never gives the same token twice. */
  ghost predicate FreshTokens(history: seq<Event>) {
    forall i, j :: 0 <= i < j < |history| && history[i].Issued? && history[j].Issued? ==> history[i].token != history[j].token
  }

  /** The history without its last event. */
  lemma InForceStep(history: seq<Event>, e: Event, token: string, b: Binding)
    ensures InForce(history + [e], token, b) <==> e == Issued(token, b) || (InForce(history, token, b) && !Ends(e, token, b.target))
  {
    var all := history + [e];
    if InForce(all, token, b) {
      var i :| 0 <= i < |all| && all[i] == Issued(token, b) && forall j :: i < j < |all| ==> !Ends(all[j], token, b.target);
      if i < |history| {
        assert all[|history|] == e && history[i] == Issued(token, b);
        assert forall j :: i < j < |history| ==> all[j] == history[j];
      }
    }
    if InForce(history, token, b) && !Ends(e, token, b.target) {
      var i :| 0 <= i < |history| && history[i] == Issued(token, b) && forall j :: i < j < |history| ==> !Ends(history[j], token, b.target);
      assert all[i] == Issued(token, b);
      forall j | i < j < |all| ensures !Ends(all[j], token, b.target) {
        assert j < |history| ==> all[j] == history[j];
      }
    }
    if e == Issued(token, b) {
      assert all[|history|] == e;
    }
  }

  lemma IssuedAlone(history: seq<Event>, token: string, b: Binding)
    ensures InForce(history + [Issued(token, b)], token, b)
    ensures forall other, c: Binding :: other != token && c.target == b.target ==> !InForce(history + [Issued(token, b)], other, c)
  {
    InForceStep(history, Issued(token, b), token, b);
    forall other, c: Binding | other != token && c.target == b.target ensures !InForce(history + [Issued(token, b)], other, c) {
      InForceStep(history, Issued(token, b), other, c);
    }
  }

  /** The registry holds exactly what the history leaves in force. */
  lemma {:induction false} ReplayIsInForce(digest: string -> string, history: seq<Event>, token: string, b: Binding)
    requires Injective(digest) && FreshTokens(history)
    ensures digest(token) in Replay(digest, history) && Replay(digest, history)[digest(token)] == b <==> InForce(history, token, b)
  {
    if history != [] {
      var front, e := history[..|history| - 1], history[|history| - 1];
      assert history == front + [e];
      InForceStep(front, e, token, b);
      ReplayIsInForce(digest, front, token, b);
      if e.Issued? && e.token == token {
        NotYetIssued(front, e, b);
      }
    }
  }

  lemma NotYetIssued(front: seq<Event>, e: Event, b: Binding)
    requires e.Issued? && FreshTokens(front + [e])
    ensures !InForce(front, e.token, b)
  {
    var all := front + [e];
    forall i | 0 <= i < |front| && front[i].Issued? ensures front[i].token != e.token {
      assert all[i] == front[i] && all[|front|] == e;
    }
  }

  /** Each endpoint has at most one live capability. */
  lemma {:induction false} OneCapabilityPerTarget(digest: string -> string, history: seq<Event>, d: string, d': string)
    requires d in Replay(digest, history) && d' in Replay(digest, history)
    requires Replay(digest, history)[d].target == Replay(digest, history)[d'].target
    ensures d == d'
  {
    if history != [] {
      var front := history[..|history| - 1];
      if d in Replay(digest, front) && d' in Replay(digest, front)
         && Replay(digest, front)[d].target == Replay(digest, front)[d'].target {
        OneCapabilityPerTarget(digest, front, d, d');
      }
    }
  }

  /** The moment that decides: the first authorization to succeed. */
  ghost predicate FirstAuthorized(moments: seq<Moment>, i: nat) {
    i < |moments| && moments[i].authorized && forall j :: 0 <= j < i ==> !moments[j].authorized
  }

  /**
    A positive decision: its capability is in force, and the records it was issued for are still the
    ones in place, under the same resource id and enabled, at the first check and, where tokens are
    verified, again when the first authorization that succeeds is over.
   */
  lemma GrantMeans(digest: string -> string, history: seq<Event>, token: string, authEnabled: bool, w: World, moments: seq<Moment>) returns (b: Binding)
    requires Injective(digest) && FreshTokens(history)
    requires var bindings := Replay(digest, history);
      digest(token) in bindings && BindingCurrent(w, bindings[digest(token)]) && (authEnabled ==> Granted(bindings[digest(token)], moments))
    ensures InForce(history, token, b) && BindingCurrent(w, b)
    ensures b.target.kind in {"instance", "cluster"} ==>
      Stands(w, b.target, b.record, b.owner, b.resourceId) && w.records(b.owner).enabled
    ensures authEnabled ==> exists i: nat :: FirstAuthorized(moments, i) && BindingCurrent(moments[i].after, b)
  {
    b := Replay(digest, history)[digest(token)];
    ReplayIsInForce(digest, history, token, b);
    if b.target.kind in {"instance", "cluster"} {
      CurrentIff(w, b);
    }
    hide BindingCurrent, Stands;
    if authEnabled {
      GrantedIff(b, moments);
    }
  }

  /** The loop over endpoints grants exactly when the first authorization to succeed finds the binding current. */
  lemma {:induction false} GrantedIff(b: Binding, moments: seq<Moment>)
    ensures Granted(b, moments) <==> exists i: nat :: FirstAuthorized(moments, i) && BindingCurrent(moments[i].after, b)
  {
    if moments != [] {
      GrantedIff(b, moments[1..]);
      if moments[0].authorized {
        assert FirstAuthorized(moments, 0);
        assert forall i: nat :: FirstAuthorized(moments, i) ==> i == 0;
      } else {
        forall i: nat ensures FirstAuthorized(moments, i + 1) <==> FirstAuthorized(moments[1..], i) {
          FirstLater(moments, i);
        }
        if i: nat :| FirstAuthorized(moments, i) && BindingCurrent(moments[i].after, b) {
          FirstLater(moments, i - 1);
        }
        if i: nat :| FirstAuthorized(moments[1..], i) && BindingCurrent(moments[1..][i].after, b) {
          FirstLater(moments, i);
          assert moments[i + 1] == moments[1..][i];
        }
      }
    }
  }

  lemma FirstLater(moments: seq<Moment>, i: nat)
    requires moments != [] && !moments[0].authorized
    ensures FirstAuthorized(moments, i + 1) <==> FirstAuthorized(moments[1..], i)
  {
    assert forall j :: 0 <= j < |moments| - 1 ==> moments[1..][j] == moments[j + 1];
    if FirstAuthorized(moments[1..], i) {
      forall j | 0 <= j < i + 1 ensures !moments[j].authorized {
        if j > 0 {
          assert !moments[1..][j - 1].authorized;
        }
      }
    }
    if FirstAuthorized(moments, i + 1) {
      forall j | 0 <= j < i ensures !moments[1..][j].authorized {
        assert !moments[j + 1].authorized;
      }
    }
  }
}
