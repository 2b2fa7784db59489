/** The refusal layer: manifest policies consulted before an event is applied. */
module Refuse {
  import opened Wrappers
  import opened NodeIds
  import opened Events
  import opened Wanted
  import opened LeaseRuns

  datatype RefusalReason =
    | ControllerNotAllowed(issuer: NodeId, manifestId: string)
    | OperationNotAllowed(op: string, manifestId: string)
    | UnknownManifest(manifestId: string)

  const DEFAULT_SAFE_OPS: seq<string> := ["assign", "unassign", "balloon", "start", "shutdown"]

  function OpName(body: EventBody): string {
    match body
    case ClaimLease(_) => "claim_lease"
    case ReleaseLease(_) => "release_lease"
    case Assign(_, _) => "assign"
    case Unassign(_) => "unassign"
    case Balloon(_, _) => "balloon"
    case Heartbeat(_, _, _, _) => "heartbeat"
  }

  predicate ManifestScoped(body: EventBody) {
    body.Assign? || body.Unassign? || body.Balloon?
  }

  /** An empty allowlist admits every controller. */
  predicate Admits(p: Profile, issuer: NodeId) {
    p.controllersAllowed == [] || exists c | c in p.controllersAllowed :: issuer.IsNamed(c)
  }

  /** An empty allowlist stands for the default safe set. */
  predicate Permits(p: Profile, op: string) {
    op in if p.operationsAllowed == [] then DEFAULT_SAFE_OPS else p.operationsAllowed
  }

  function MayApply(
      parse: Parser, issuer: NodeId, body: EventBody, lookup: string -> Option<Profile>): Result<(), RefusalReason> {
    if !ManifestScoped(body) then Ok(())
    else
      var profile := if body.Assign? then parse(body.manifestToml) else lookup(body.manifestId);
      if profile.None? then Err(UnknownManifest(body.manifestId))
      else if !Admits(profile.value, issuer) then Err(ControllerNotAllowed(issuer, body.manifestId))
      else if !Permits(profile.value, OpName(body)) then Err(OperationNotAllowed(OpName(body), body.manifestId))
      else Ok(())
  }

  /** Policies are looked up among the stored entries. */
  function StoredPolicy(s: Store): string -> Option<Profile> {
    m => if m in s.manifests then s.manifests[m].parsed else None
  }

  /** An agent that consults the refusal layer before applying an event. */
  function Gated(parse: Parser): Agent {
    Agent(parse, (s: Store, ev: Event) => MayApply(parse, ev.issuer, ev.body, StoredPolicy(s)).Ok?)
  }

  /** Every stored entry's own policy admits the controller that last assigned it, and permits assigning. */
  lemma EntriesAdmitTheirAssigner(parse: Parser, log: seq<Event>, n: nat, m: string) returns (i: nat)
    requires n <= |log| && m in Gated(parse).After(log, n).manifests
    ensures i < n && Defines(Gated(parse), log, i, n, m)
    ensures
      var policy := Gated(parse).After(log, n).manifests[m].parsed;
      policy.Some? && Admits(policy.value, log[i].issuer) && Permits(policy.value, "assign")
  {
    EntriesAreLastAssigns(Gated(parse), log, n, m);
    i :| Defines(Gated(parse), log, i, n, m);
    assert Gated(parse).AcceptedAt(log, i);
  }

  /** A controller list is empty, or holds the controller's full text or its bare suffix. */
  predicate ListsController(allowed: seq<string>, issuer: NodeId) {
    allowed == [] || issuer.text in allowed || issuer.HexSuffix() in allowed
  }

  /** What a policy says of an operation: first whether it knows the manifest, then the controller,
      then the operation. An empty operation list admits each of the three. */
  ghost predicate PolicyDecides(
      r: Result<(), RefusalReason>, profile: Option<Profile>, issuer: NodeId, m: string, op: string)
  {
    match profile
    case None => r == Err(UnknownManifest(m))
    case Some(p) =>
      if !ListsController(p.controllersAllowed, issuer) then r == Err(ControllerNotAllowed(issuer, m))
      else if p.operationsAllowed != [] && op !in p.operationsAllowed then r == Err(OperationNotAllowed(op, m))
      else r == Ok(())
  }

  /** Each operation is judged under its own name: an assignment by the manifest that it brings,
      a withdrawal or a resize by the one looked up; nothing else is judged. */
  lemma GateByName(parse: Parser, issuer: NodeId, body: EventBody, lookup: string -> Option<Profile>)
    ensures
      var r := MayApply(parse, issuer, body, lookup);
      match body
      case Assign(m, toml) => PolicyDecides(r, parse(toml), issuer, m, "assign")
      case Unassign(m) => PolicyDecides(r, lookup(m), issuer, m, "unassign")
      case Balloon(m, _) => PolicyDecides(r, lookup(m), issuer, m, "balloon")
      case _ => r == Ok(())
  {
    DefaultsAdmit();
    if ManifestScoped(body) {
      var profile := if body.Assign? then parse(body.manifestToml) else lookup(body.manifestId);
      if profile.Some? {
        AdmitsIff(profile.value, issuer);
      }
    }
  }

  lemma DefaultsAdmit()
    ensures "assign" in DEFAULT_SAFE_OPS && "unassign" in DEFAULT_SAFE_OPS && "balloon" in DEFAULT_SAFE_OPS
  {
    assert DEFAULT_SAFE_OPS[0] == "assign" && DEFAULT_SAFE_OPS[1] == "unassign" && DEFAULT_SAFE_OPS[2] == "balloon";
  }

  lemma AdmitsIff(p: Profile, issuer: NodeId)
    ensures Admits(p, issuer) <==> ListsController(p.controllersAllowed, issuer)
  {
    if issuer.text in p.controllersAllowed {
      assert issuer.IsNamed(issuer.text);
    }
    if issuer.HexSuffix() in p.controllersAllowed {
      assert issuer.IsNamed(issuer.HexSuffix());
    }
  }

  /** Through the gate, a withdrawal or a resize is accepted exactly when it comes from the
      seated controller, for a stored manifest whose policy lists that controller, if any, and the
      name of the operation, if any. */
  lemma GatedWritesIff(parse: Parser, log: seq<Event>, i: nat)
    requires i < |log| && (log[i].body.Unassign? || log[i].body.Balloon?)
    ensures
      var s, m := Gated(parse).After(log, i).manifests, log[i].body.manifestId;
      Gated(parse).AcceptedAt(log, i) <==>
        && m in s
        && s[m].parsed.Some?
        && ListsController(s[m].parsed.value.controllersAllowed, log[i].issuer)
        && (s[m].parsed.value.operationsAllowed == [] ||
            (if log[i].body.Unassign? then "unassign" else "balloon") in s[m].parsed.value.operationsAllowed)
        && exists j :: Seats(Gated(parse), log, j, i) && log[j].issuer.Same(log[i].issuer)
  {
    ExclusiveWriter(Gated(parse), log, i);
    GateByName(parse, log[i].issuer, log[i].body, StoredPolicy(Gated(parse).After(log, i)));
  }

  /** A manifest that does not parse is refused as unknown, so whatever passes the refusal layer,
      the lease rules never report a bad manifest: they can only fault the lease or a heartbeat. */
  lemma GateLeavesLeaseErrors(parse: Parser, s: Store, ev: Event)
    ensures ev.body.Assign? && parse(ev.body.manifestToml).None? ==>
      MayApply(parse, ev.issuer, ev.body, StoredPolicy(s)) == Err(UnknownManifest(ev.body.manifestId))
    ensures Gated(parse).gate(s, ev) && Verdict(parse, s, ev).Err? ==>
      !Verdict(parse, s, ev).error.BadManifest?
    ensures Gated(parse).gate(s, ev) && ManifestScoped(ev.body) ==>
      (Gated(parse).Accepts(s, ev) <==> s.leaseHolder.Some? && s.leaseHolder.value.Same(ev.issuer))
  {
  }

  /** Behind the refusal layer, reachable states that the source considers equal accept the events
      of any further log alike and stay equal. */
  lemma {:induction false} GatedStatesStayEqual(parse: Parser, s: Store, t: Store, log: seq<Event>, n: nat)
    requires s.Equals(t) && WellKept(parse, s) && WellKept(parse, t) && n <= |log|
    ensures
      var a := Gated(parse);
      var s', t' := a.From(s, log, n), a.From(t, log, n);
      && s'.Equals(t') && WellKept(parse, s') && WellKept(parse, t')
      && (n < |log| ==> a.Accepts(s', log[n]) == a.Accepts(t', log[n]))
  {
    var a := Gated(parse);
    if n > 0 {
      GatedStatesStayEqual(parse, s, t, log, n - 1);
      GatedEqualStep(parse, a.From(s, log, n - 1), a.From(t, log, n - 1), log[n - 1]);
    }
    if n < |log| {
      GatedEqualStep(parse, a.From(s, log, n), a.From(t, log, n), log[n]);
    }
  }

  lemma GatedEqualStep(parse: Parser, s: Store, t: Store, ev: Event)
    requires s.Equals(t) && WellKept(parse, s) && WellKept(parse, t)
    ensures
      var a := Gated(parse);
      && a.Accepts(s, ev) == a.Accepts(t, ev)
      && a.Next(s, ev).Equals(a.Next(t, ev)) && WellKept(parse, a.Next(s, ev)) && WellKept(parse, a.Next(t, ev))
  {
    EqualityDeterminesManifests(parse, s, t);
    EqualStep(parse, s, t, ev, ev);
    assert MayApply(parse, ev.issuer, ev.body, StoredPolicy(s)) == MayApply(parse, ev.issuer, ev.body, StoredPolicy(t));
  }

  ghost predicate IgnoresHints(p: Profile) {
    forall x: NodeId, y: NodeId :: x.Same(y) ==> Admits(p, x) == Admits(p, y)
  }

  predicate ListsSuffixes(p: Profile) {
    forall c | c in p.controllersAllowed :: AfterLastDash(c) in p.controllersAllowed
  }

  /** A policy treats equal node ids alike exactly when it lists, with every controller, its bare suffix. */
  lemma PolicyIgnoresHintsIff(p: Profile)
    ensures IgnoresHints(p) <==> ListsSuffixes(p)
  {
    if IgnoresHints(p) {
      forall c | c in p.controllersAllowed ensures AfterLastDash(c) in p.controllersAllowed {
        var x, y := NodeId(c), NodeId(AfterLastDash(c));
        assert x.Same(y) && x.IsNamed(c);
        assert Admits(p, x) && Admits(p, y);
      }
    }
    if ListsSuffixes(p) {
      forall x: NodeId, y: NodeId | x.Same(y) ensures Admits(p, x) == Admits(p, y) {
        AdmittedBySuffix(p, x);
        AdmittedBySuffix(p, y);
      }
    }
  }

  lemma AdmittedBySuffix(p: Profile, x: NodeId)
    requires ListsSuffixes(p)
    ensures Admits(p, x) <==> p.controllersAllowed == [] || x.HexSuffix() in p.controllersAllowed
  {
    if x.HexSuffix() in p.controllersAllowed {
      assert x.IsNamed(x.HexSuffix());
    }
  }

  /** Every manifest that can be assigned at all lists, with every controller, its bare suffix. */
  ghost predicate ManifestsListSuffixes(parse: Parser) {
    forall toml :: parse(toml).Some? && Permits(parse(toml).value, "assign") ==> ListsSuffixes(parse(toml).value)
  }

  ghost predicate StoredListSuffixes(s: Store) {
    forall m | m in s.manifests :: s.manifests[m].parsed.Some? && ListsSuffixes(s.manifests[m].parsed.value)
  }

  /** What two runs over logs that differ only in role hints keep. */
  ghost predicate RunAlike(parse: Parser, s: Store, t: Store) {
    s.Equals(t) && WellKept(parse, s) && WellKept(parse, t) && StoredListSuffixes(s)
  }

  lemma SamePolicyForHints(parse: Parser, s: Store, ev: Event, ev': Event)
    requires ManifestsListSuffixes(parse) && StoredListSuffixes(s) && SameButHint(ev, ev')
    ensures Gated(parse).gate(s, ev) == Gated(parse).gate(s, ev')
  {
    if ManifestScoped(ev.body) {
      var profile := if ev.body.Assign? then parse(ev.body.manifestToml) else StoredPolicy(s)(ev.body.manifestId);
      if profile.Some? && Permits(profile.value, OpName(ev.body)) {
        PolicyIgnoresHintsIff(profile.value);
        assert Admits(profile.value, ev.issuer) == Admits(profile.value, ev'.issuer);
      }
    }
  }

  lemma HintAccepted(parse: Parser, s: Store, t: Store, ev: Event, ev': Event)
    requires ManifestsListSuffixes(parse) && RunAlike(parse, s, t) && SameButHint(ev, ev')
    ensures Gated(parse).Accepts(s, ev) == Gated(parse).Accepts(t, ev')
  {
    SamePolicyForHints(parse, s, ev, ev');
    EqualStep(parse, s, s, ev, ev');
    GatedEqualStep(parse, s, t, ev');
  }

  lemma SuffixesStayListed(parse: Parser, s: Store, ev: Event)
    requires ManifestsListSuffixes(parse) && StoredListSuffixes(s)
    ensures StoredListSuffixes(Gated(parse).Next(s, ev))
  {
    if ev.body.Assign? && Gated(parse).Accepts(s, ev) {
      assert Permits(parse(ev.body.manifestToml).value, "assign");
    }
  }

  lemma HintStep(parse: Parser, s: Store, t: Store, ev: Event, ev': Event)
    requires ManifestsListSuffixes(parse) && RunAlike(parse, s, t) && SameButHint(ev, ev')
    ensures Gated(parse).Accepts(s, ev) == Gated(parse).Accepts(t, ev')
    ensures RunAlike(parse, Gated(parse).Next(s, ev), Gated(parse).Next(t, ev'))
  {
    HintAccepted(parse, s, t, ev, ev');
    EqualStep(parse, s, t, ev, ev');
    SuffixesStayListed(parse, s, ev);
    GatedEqualStep(parse, s, t, ev);
    GatedEqualStep(parse, s, t, ev');
  }

  ghost predicate StepStaysAlike(a: Agent, s: Store, t: Store, ev: Event, ev': Event) {
    RunAlike(a.parse, s, t) && SameButHint(ev, ev') ==> RunAlike(a.parse, a.Next(s, ev), a.Next(t, ev'))
  }

  lemma {:induction false} StaysAlike(a: Agent, log: seq<Event>, log': seq<Event>, n: nat)
    requires forall s, t, ev, ev' :: StepStaysAlike(a, s, t, ev, ev')
    requires SameLogsButHints(log, log') && n <= |log|
    ensures RunAlike(a.parse, a.After(log, n), a.After(log', n))
  {
    if n > 0 {
      StaysAlike(a, log, log', n - 1);
      assert SameButHint(log[n - 1], log'[n - 1]);
      assert StepStaysAlike(a, a.After(log, n - 1), a.After(log', n - 1), log[n - 1], log'[n - 1]);
    } else {
      EmptyAlike(a.parse);
    }
  }

  lemma EmptyAlike(parse: Parser)
    ensures RunAlike(parse, EMPTY, EMPTY)
  {
  }

  lemma RunsStayAlike(parse: Parser, log: seq<Event>, log': seq<Event>, n: nat)
    requires ManifestsListSuffixes(parse) && SameLogsButHints(log, log') && n <= |log|
    ensures RunAlike(parse, Gated(parse).After(log, n), Gated(parse).After(log', n))
  {
    forall s, t, ev, ev' ensures StepStaysAlike(Gated(parse), s, t, ev, ev') {
      if RunAlike(parse, s, t) && SameButHint(ev, ev') {
        HintStep(parse, s, t, ev, ev');
      }
    }
    StaysAlike(Gated(parse), log, log', n);
  }

  /** With such manifests, logs that differ only in role hints are accepted alike, event by event. */
  lemma HintsDoNotMatter(parse: Parser, log: seq<Event>, log': seq<Event>, n: nat)
    requires ManifestsListSuffixes(parse) && SameLogsButHints(log, log') && n < |log|
    ensures Gated(parse).After(log, n).Equals(Gated(parse).After(log', n))
    ensures Gated(parse).AcceptedAt(log, n) == Gated(parse).AcceptedAt(log', n)
  {
    RunsStayAlike(parse, log, log', n);
    assert SameButHint(log[n], log'[n]);
    HintAccepted(parse, Gated(parse).After(log, n), Gated(parse).After(log', n), log[n], log'[n]);
  }

  ghost predicate RunsIgnoreHints(parse: Parser) {
    forall log, log' :: SameLogsButHints(log, log') ==> Gated(parse).Final(log).Equals(Gated(parse).Final(log'))
  }

  /** Behind the refusal layer, role hints never change what a whole run leads to exactly when every
      manifest that can be assigned at all lists, with every controller, its bare suffix. */
  lemma RunsIgnoreHintsIff(parse: Parser)
    ensures RunsIgnoreHints(parse) <==> ManifestsListSuffixes(parse)
  {
    if ManifestsListSuffixes(parse) {
      RunsWithSuffixes(parse);
    } else {
      var toml :| parse(toml).Some? && Permits(parse(toml).value, "assign") && !ListsSuffixes(parse(toml).value);
      var x, y := ToldApart(parse(toml).value);
      HintDecides(parse, toml, x, y);
    }
  }

  lemma RunsWithSuffixes(parse: Parser)
    requires ManifestsListSuffixes(parse)
    ensures RunsIgnoreHints(parse)
  {
    forall log, log' | SameLogsButHints(log, log')
      ensures Gated(parse).Final(log).Equals(Gated(parse).Final(log'))
    {
      RunsStayAlike(parse, log, log', |log|);
    }
  }

  lemma ToldApart(p: Profile) returns (x: NodeId, y: NodeId)
    requires !ListsSuffixes(p)
    ensures x.Same(y) && Admits(p, x) && !Admits(p, y)
  {
    PolicyIgnoresHintsIff(p);
    x, y :| x.Same(y) && Admits(p, x) && !Admits(p, y);
  }

  /** A claim and an assignment by one controller, which in the second log signs with another hint. */
  lemma HintDecides(parse: Parser, toml: string, x: NodeId, y: NodeId)
    requires parse(toml).Some? && Permits(parse(toml).value, "assign")
    requires x.Same(y) && Admits(parse(toml).value, x) && !Admits(parse(toml).value, y)
    ensures !RunsIgnoreHints(parse)
  {
    var a, claim := Gated(parse), Event(x, 1, ClaimLease(x));
    var log, log' := [claim, Event(x, 1, Assign("", toml))], [claim, Event(y, 1, Assign("", toml))];
    assert SameLogsButHints(log, log');
    var s := Store(map[], Some(x), 1);
    assert a.After(log, 0) == EMPTY && a.After(log', 0) == EMPTY;
    assert a.After(log, 1) == s && a.After(log', 1) == s;
    assert a.Accepts(s, log[1]) && !a.Accepts(s, log'[1]);
    assert a.After(log, 2) == a.Next(s, log[1]) && a.After(log', 2) == a.Next(s, log'[1]);
    assert "" in a.Final(log).manifests && "" !in a.Final(log').manifests;
  }

  /** One that lists only a full text does not: the renamed controller keeps its lease but loses its rights. */
  lemma FullTextAloneDoesNot(role: string, newRole: string, hex: string)
    requires '-' !in hex && role != newRole
    ensures
      var x, y := NodeId(role + "-" + hex), NodeId(newRole + "-" + hex);
      var p := Profile(None, 0, [x.text], []);
      x.Same(y) && Admits(p, x) && !Admits(p, y)
  {
    var x, y := NodeId(role + "-" + hex), NodeId(newRole + "-" + hex);
    var p := Profile(None, 0, [x.text], []);
    RenamePreservesIdentity(role, newRole, hex);
    SuffixAfterRole(newRole, hex);
    TextsDiffer(role, newRole, hex);
    AdmitsIff(p, x);
    AdmitsIff(p, y);
    assert x.text in [x.text];
    assert y.text !in [x.text] && hex !in [x.text];
  }

  lemma TextsDiffer(role: string, newRole: string, hex: string)
    requires role != newRole
    ensures role + "-" + hex != newRole + "-" + hex && role + "-" + hex != hex
  {
    var x, y := role + "-" + hex, newRole + "-" + hex;
    assert |x| > |hex|;
    if |role| == |newRole| {
      assert x[..|role|] == role && y[..|role|] == newRole;
    } else {
      assert |x| != |y|;
    }
  }
}
