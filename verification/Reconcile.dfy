/** Desired state against observed state: the plan of one reconcile pass. */
module Reconcile {
  import opened Wrappers
  import opened Ordering
  import opened NodeIds
  import opened Events
  import opened Wanted
  import opened Truths

  datatype ReconcileAction =
    | Create(manifestId: string)
    | Balloon(manifestId: string, domainId: string, targetMb: Word)
    | DestroyUnknown(domainId: string)
    | WrongAnchor(manifestId: string, expectedNode: string, thisNode: string)
    | BadManifest(manifestId: string)
    | Local(manifestId: string)

  /** Division of unsigned values. */
  function MemoryActiveMb(p: Profile): Word {
    p.memoryActiveBytes / (1024 * 1024)
  }

  /** An unpinned manifest runs anywhere; "this-host" names whichever node reads it. */
  predicate AnchoredHere(p: Profile, node: NodeId) {
    p.anchorNode.None? || p.anchorNode.value == "this-host" || node.IsNamed(p.anchorNode.value)
  }

  ghost predicate AnchorIgnoresHints(p: Profile) {
    forall x: NodeId, y: NodeId :: x.Same(y) ==> AnchoredHere(p, x) == AnchoredHere(p, y)
  }

  /** Equal node ids are anchored alike exactly when the anchor names no role hint. */
  lemma AnchorIgnoresHintsIff(p: Profile)
    ensures AnchorIgnoresHints(p) <==>
      p.anchorNode.None? || p.anchorNode.value == "this-host" || '-' !in p.anchorNode.value
  {
    if p.anchorNode.Some? && p.anchorNode.value != "this-host" {
      var name := p.anchorNode.value;
      if '-' in name {
        var x, y := NodeId(name), NodeId(AfterLastDash(name));
        assert x.Same(y) && AnchoredHere(p, x) && !AnchoredHere(p, y);
      } else {
        forall x: NodeId, y: NodeId | x.Same(y) ensures AnchoredHere(p, x) == AnchoredHere(p, y) {
          assert x.text == name ==> x.HexSuffix() == name;
          assert y.text == name ==> y.HexSuffix() == name;
        }
      }
    }
  }

  type Manifests = map<string, WantedEntry>

  /** The action for one wanted manifest, if any. */
  function Decide(entry: WantedEntry, m: string, domains: Domains, node: NodeId): Option<ReconcileAction> {
    if entry.parsed.None? then Some(ReconcileAction.BadManifest(m))
    else
      var profile := entry.parsed.value;
      if !AnchoredHere(profile, node) then Some(WrongAnchor(m, profile.anchorNode.value, node.text))
      else
        match FirstTagged(domains, m)
        case None => Some(Create(m))
        case Some(t) =>
          match t.state
          case Absent => Some(Create(m))
          case Transient => None
          case Running =>
            var wantMb := MemoryActiveMb(profile);
            if wantMb != t.memoryMb then Some(ReconcileAction.Balloon(m, t.domainId, wantMb)) else None
  }

  /** Whether one wanted manifest has to wait for its domain to settle. */
  predicate Waits(entry: WantedEntry, m: string, domains: Domains, node: NodeId) {
    && entry.parsed.Some? && AnchoredHere(entry.parsed.value, node)
    && FirstTagged(domains, m).Some? && FirstTagged(domains, m).value.state == Transient
  }

  /** A domain whose manifest is no longer wanted. */
  predicate Unwanted(manifests: Manifests, t: TruthEntry) {
    t.manifestId.Some? && t.manifestId.value !in manifests
  }

  /** The actions for the first `n` wanted ids. */
  function WantedActions(
      manifests: Manifests, domains: Domains, node: NodeId, ids: seq<string>, n: nat): seq<ReconcileAction>
    requires n <= |ids| && forall m :: m in ids ==> m in manifests
  {
    if n == 0 then [] else
      var rest := WantedActions(manifests, domains, node, ids, n - 1);
      match Decide(manifests[ids[n - 1]], ids[n - 1], domains, node)
      case None => rest
      case Some(act) => rest + [act]
  }

  /** The removals among the first `n` domains. */
  function Removals(manifests: Manifests, domains: Domains, ids: seq<string>, n: nat): seq<ReconcileAction>
    requires n <= |ids| && forall d :: d in ids ==> d in domains
  {
    if n == 0 then [] else
      Removals(manifests, domains, ids, n - 1) +
      if Unwanted(manifests, domains[ids[n - 1]]) then [DestroyUnknown(ids[n - 1])] else []
  }

  function PlannedActions(manifests: Manifests, domains: Domains, node: NodeId): seq<ReconcileAction> {
    var ms, ds := InOrder(manifests.Keys), InOrder(domains.Keys);
    WantedActions(manifests, domains, node, ms, |ms|) + Removals(manifests, domains, ds, |ds|)
  }

  /** Whether one of the first `n` wanted ids has to wait. */
  predicate SomeWaits(manifests: Manifests, domains: Domains, node: NodeId, ids: seq<string>, n: nat)
    requires n <= |ids| && forall m :: m in ids ==> m in manifests
  {
    n > 0 &&
    (SomeWaits(manifests, domains, node, ids, n - 1) || Waits(manifests[ids[n - 1]], ids[n - 1], domains, node))
  }

  lemma {:induction false} SomeWaitsMeans(
      manifests: Manifests, domains: Domains, node: NodeId, ids: seq<string>, n: nat)
    requires n <= |ids| && forall m :: m in ids ==> m in manifests
    ensures SomeWaits(manifests, domains, node, ids, n) <==>
      exists k :: 0 <= k < n && Waits(manifests[ids[k]], ids[k], domains, node)
  {
    if n > 0 {
      SomeWaitsMeans(manifests, domains, node, ids, n - 1);
    }
  }

  lemma SomeWaitsOverall(manifests: Manifests, domains: Domains, node: NodeId)
    ensures
      var ids := InOrder(manifests.Keys);
      SomeWaits(manifests, domains, node, ids, |ids|) <==> RetickNeeded(manifests, domains, node)
  {
    var ids := InOrder(manifests.Keys);
    SomeWaitsMeans(manifests, domains, node, ids, |ids|);
    if m :| m in manifests && Waits(manifests[m], m, domains, node) {
      assert m in ids;
    }
  }

  predicate RetickNeeded(manifests: Manifests, domains: Domains, node: NodeId) {
    exists m | m in manifests :: Waits(manifests[m], m, domains, node)
  }

  /** The plan under construction. */
  class ReconcilePlan {
    var actions: seq<ReconcileAction>
    var retickNeeded: bool

    constructor ()
      ensures actions == [] && !retickNeeded
    {
      actions, retickNeeded := [], false;
    }
  }

  method ConsiderWanted(entry: WantedEntry, m: string, truth: Truth, node: NodeId, plan: ReconcilePlan)
    returns (action: Option<ReconcileAction>)
    modifies plan
    ensures action == Decide(entry, m, truth.domains, node)
    ensures plan.retickNeeded == (old(plan.retickNeeded) || Waits(entry, m, truth.domains, node))
    ensures plan.actions == old(plan.actions)
  {
    if entry.parsed.None? {
      return Some(ReconcileAction.BadManifest(m));
    }
    var profile := entry.parsed.value;
    if profile.anchorNode.Some? {
      var anchor := profile.anchorNode.value;
      if anchor != "this-host" && anchor != node.text && anchor != node.HexSuffix() {
        return Some(WrongAnchor(m, anchor, node.text));
      }
    }
    var observed := truth.FindByManifest(m);
    match observed
    case None => action := Some(Create(m));
    case Some(t) =>
      match t.state {
        case Absent => action := Some(Create(m));
        case Transient =>
          plan.retickNeeded := true;
          action := None;
        case Running =>
          var want := MemoryActiveMb(profile);
          if want != t.memoryMb {
            return Some(ReconcileAction.Balloon(m, t.domainId, want));
          }
          action := None;
      }
  }

  method PlanWanted(manifests: Manifests, truth: Truth, node: NodeId, plan: ReconcilePlan)
    requires plan.actions == [] && !plan.retickNeeded
    modifies plan
    ensures
      var ids := InOrder(manifests.Keys);
      plan.actions == WantedActions(manifests, truth.domains, node, ids, |ids|)
    ensures plan.retickNeeded == RetickNeeded(manifests, truth.domains, node)
  {
    var ids := InOrder(manifests.Keys);
    for i := 0 to |ids|
      invariant plan.actions == WantedActions(manifests, truth.domains, node, ids, i)
      invariant plan.retickNeeded == SomeWaits(manifests, truth.domains, node, ids, i)
    {
      assert ids[i] in ids;
      var action := ConsiderWanted(manifests[ids[i]], ids[i], truth, node, plan);
      if action.Some? {
        plan.actions := plan.actions + [action.value];
      }
    }
    SomeWaitsOverall(manifests, truth.domains, node);
  }

  method PlanRemovals(manifests: Manifests, truth: Truth, plan: ReconcilePlan)
    modifies plan
    ensures
      var ids := InOrder(truth.domains.Keys);
      plan.actions == old(plan.actions) + Removals(manifests, truth.domains, ids, |ids|)
    ensures plan.retickNeeded == old(plan.retickNeeded)
  {
    var ids := InOrder(truth.domains.Keys);
    for i := 0 to |ids|
      invariant plan.actions == old(plan.actions) + Removals(manifests, truth.domains, ids, i)
      invariant plan.retickNeeded == old(plan.retickNeeded)
    {
      assert ids[i] in ids;
      var tag := truth.domains[ids[i]].manifestId;
      if tag.None? || tag.value in manifests {
        continue;
      }
      plan.actions := plan.actions + [DestroyUnknown(ids[i])];
    }
  }

  /** The wanted manifests first, in order, then the domains they do not cover. */
  method Reconcile(wanted: WantedState, truth: Truth, node: NodeId) returns (plan: ReconcilePlan)
    ensures fresh(plan)
    ensures plan.actions == PlannedActions(wanted.manifests, truth.domains, node)
    ensures plan.retickNeeded == RetickNeeded(wanted.manifests, truth.domains, node)
  {
    plan := new ReconcilePlan();
    PlanWanted(wanted.manifests, truth, node, plan);
    PlanRemovals(wanted.manifests, truth, plan);
  }

  // ---- the plan, declaratively ----

  /** The order of a plan: actions on wanted manifests by manifest id, then removals by domain id. */
  predicate Before(x: ReconcileAction, y: ReconcileAction) {
    if x.DestroyUnknown? then y.DestroyUnknown? && Below(x.domainId, y.domainId)
    else y.DestroyUnknown? || Below(x.manifestId, y.manifestId)
  }

  /** An action decided on for a wanted manifest, or the removal of an unwanted domain. */
  predicate Decided(manifests: Manifests, domains: Domains, node: NodeId, act: ReconcileAction) {
    if act.DestroyUnknown? then act.domainId in domains && Unwanted(manifests, domains[act.domainId])
    else act.manifestId in manifests && Decide(manifests[act.manifestId], act.manifestId, domains, node) == Some(act)
  }

  predicate Sorted(acts: seq<ReconcileAction>) {
    forall i, j :: 0 <= i < j < |acts| ==> Before(acts[i], acts[j])
  }

  lemma DecisionNamesItsManifest(entry: WantedEntry, m: string, domains: Domains, node: NodeId)
    ensures
      var act := Decide(entry, m, domains, node);
      act.Some? ==> !act.value.DestroyUnknown? && act.value.manifestId == m
  {
  }

  /** These are exactly the actions decided on for the first `n` wanted ids. */
  ghost predicate WantedExact(
      acts: seq<ReconcileAction>, manifests: Manifests, domains: Domains, node: NodeId, ids: seq<string>, n: nat)
    requires n <= |ids| && forall m :: m in ids ==> m in manifests
  {
    && (forall act :: act in acts ==>
          !act.DestroyUnknown? && Decided(manifests, domains, node, act) && act.manifestId in ids[..n])
    && (forall k :: 0 <= k < n ==>
          var act := Decide(manifests[ids[k]], ids[k], domains, node);
          act.Some? ==> act.value in acts)
  }

  lemma WantedExactStep(
      rest: seq<ReconcileAction>, manifests: Manifests, domains: Domains, node: NodeId, ids: seq<string>, n: nat)
    requires 0 < n <= |ids| && forall m :: m in ids ==> m in manifests
    requires WantedExact(rest, manifests, domains, node, ids, n - 1)
    ensures
      var act := Decide(manifests[ids[n - 1]], ids[n - 1], domains, node);
      WantedExact(if act.Some? then rest + [act.value] else rest, manifests, domains, node, ids, n)
  {
    DecisionNamesItsManifest(manifests[ids[n - 1]], ids[n - 1], domains, node);
    assert ids[..n] == ids[..n - 1] + [ids[n - 1]];
  }

  lemma {:induction false} WantedActionsExact(
      manifests: Manifests, domains: Domains, node: NodeId, ids: seq<string>, n: nat)
    requires n <= |ids| && forall m :: m in ids ==> m in manifests
    ensures WantedExact(WantedActions(manifests, domains, node, ids, n), manifests, domains, node, ids, n)
  {
    if n > 0 {
      WantedActionsExact(manifests, domains, node, ids, n - 1);
      WantedExactStep(WantedActions(manifests, domains, node, ids, n - 1), manifests, domains, node, ids, n);
    }
  }

  lemma {:induction false} WantedActionsSorted(
      manifests: Manifests, domains: Domains, node: NodeId, ids: seq<string>, n: nat)
    requires n <= |ids| && Ascending(ids) && forall m :: m in ids ==> m in manifests
    ensures Sorted(WantedActions(manifests, domains, node, ids, n))
  {
    if n > 0 {
      var rest, m := WantedActions(manifests, domains, node, ids, n - 1), ids[n - 1];
      WantedActionsSorted(manifests, domains, node, ids, n - 1);
      WantedActionsExact(manifests, domains, node, ids, n - 1);
      DecisionNamesItsManifest(manifests[m], m, domains, node);
      forall i | 0 <= i < |rest| ensures Below(rest[i].manifestId, m) {
        assert rest[i] in rest;
        var k :| 0 <= k < n - 1 && ids[k] == rest[i].manifestId;
      }
    }
  }

  lemma {:induction false} RemovalsExact(manifests: Manifests, domains: Domains, ids: seq<string>, n: nat)
    requires n <= |ids| && Ascending(ids) && forall d :: d in ids ==> d in domains
    ensures
      var acts := Removals(manifests, domains, ids, n);
      && Sorted(acts)
      && (forall act :: act in acts ==>
            act.DestroyUnknown? && act.domainId in ids[..n] && Unwanted(manifests, domains[act.domainId]))
      && (forall k :: 0 <= k < n && Unwanted(manifests, domains[ids[k]]) ==> DestroyUnknown(ids[k]) in acts)
  {
    if n > 0 {
      RemovalsExact(manifests, domains, ids, n - 1);
      var rest := Removals(manifests, domains, ids, n - 1);
      forall i | 0 <= i < |rest| ensures Below(rest[i].domainId, ids[n - 1]) {
        assert rest[i] in rest;
        var k :| 0 <= k < n - 1 && ids[k] == rest[i].domainId;
      }
    }
  }

  /** The plan is in plan order and holds exactly the actions decided on. */
  lemma PlanIsDecided(manifests: Manifests, domains: Domains, node: NodeId)
    ensures Sorted(PlannedActions(manifests, domains, node))
    ensures forall act :: act in PlannedActions(manifests, domains, node) <==> Decided(manifests, domains, node, act)
  {
    var ms, ds := InOrder(manifests.Keys), InOrder(domains.Keys);
    InOrderAscending(manifests.Keys);
    InOrderAscending(domains.Keys);
    WantedActionsExact(manifests, domains, node, ms, |ms|);
    WantedActionsSorted(manifests, domains, node, ms, |ms|);
    RemovalsExact(manifests, domains, ds, |ds|);
    var first, second := WantedActions(manifests, domains, node, ms, |ms|), Removals(manifests, domains, ds, |ds|);
    assert forall i :: 0 <= i < |first| ==> first[i] in first;
    assert forall i :: 0 <= i < |second| ==> second[i] in second;
    forall act | Decided(manifests, domains, node, act) ensures act in first + second {
      if act.DestroyUnknown? {
        assert act.domainId in ds;
      } else {
        assert act.manifestId in ms;
      }
    }
  }

  /** The first domain, by id, that reports a manifest. */
  predicate IsFirst(domains: Domains, m: string, d: string) {
    && d in domains && domains[d].manifestId == Some(m)
    && forall e | e in domains && domains[e].manifestId == Some(m) :: e == d || Below(d, e)
  }

  /** What calls for each action: the parse and the anchor of a wanted manifest, the first domain that
      reports it, or a domain's report of a manifest that is not wanted. */
  predicate CalledFor(manifests: Manifests, domains: Domains, node: NodeId, act: ReconcileAction) {
    match act
    case Create(m) =>
      && m in manifests && manifests[m].parsed.Some? && AnchoredHere(manifests[m].parsed.value, node)
      && forall d | d in domains :: IsFirst(domains, m, d) ==> domains[d].state == Absent
    case Balloon(m, id, mb) =>
      && m in manifests && manifests[m].parsed.Some? && AnchoredHere(manifests[m].parsed.value, node)
      && mb == manifests[m].parsed.value.memoryActiveBytes / 1048576
      && exists d | d in domains :: IsFirst(domains, m, d) &&
           domains[d].state == Running && domains[d].domainId == id && domains[d].memoryMb != mb
    case DestroyUnknown(d) =>
      d in domains && domains[d].manifestId.Some? && domains[d].manifestId.value !in manifests
    case WrongAnchor(m, expected, name) =>
      && m in manifests && manifests[m].parsed.Some? && manifests[m].parsed.value.anchorNode == Some(expected)
      && expected !in ["this-host", node.text, node.HexSuffix()] && name == node.text
    case BadManifest(m) => m in manifests && manifests[m].parsed.None?
    case Local(_) => false
  }

  lemma FirstIsLeast(domains: Domains, m: string)
    ensures forall d :: IsFirst(domains, m, d) <==> Tagged(domains, m) != {} && d == Least(Tagged(domains, m))
  {
    forall d ensures IsFirst(domains, m, d) <==> Tagged(domains, m) != {} && d == Least(Tagged(domains, m)) {
      if IsFirst(domains, m, d) {
        assert d in Tagged(domains, m);
        var first := Least(Tagged(domains, m));
        assert first in Tagged(domains, m);
        if first != d {
          BelowAsymmetric(d, first);
        }
      }
      if Tagged(domains, m) != {} && d == Least(Tagged(domains, m)) {
        assert d in Tagged(domains, m);
        forall e | e in domains && domains[e].manifestId == Some(m) ensures e == d || Below(d, e) {
          assert e in Tagged(domains, m);
        }
      }
    }
  }

  lemma DecidedIffCalledFor(manifests: Manifests, domains: Domains, node: NodeId, act: ReconcileAction)
    ensures Decided(manifests, domains, node, act) <==> CalledFor(manifests, domains, node, act)
  {
    if !act.DestroyUnknown? {
      FirstIsLeast(domains, act.manifestId);
    }
  }

  /** For every input the plan is in plan order, without repetition, and holds exactly the actions
      called for. */
  lemma PlanIsExact(manifests: Manifests, domains: Domains, node: NodeId)
    ensures Sorted(PlannedActions(manifests, domains, node))
    ensures forall act :: act in PlannedActions(manifests, domains, node) <==> CalledFor(manifests, domains, node, act)
  {
    PlanIsDecided(manifests, domains, node);
    forall act ensures act in PlannedActions(manifests, domains, node) <==> CalledFor(manifests, domains, node, act) {
      DecidedIffCalledFor(manifests, domains, node, act);
    }
  }

  /** A parsed manifest anchored here whose first domain is in transition. */
  predicate InTransition(manifests: Manifests, domains: Domains, node: NodeId, m: string, d: string) {
    && m in manifests && manifests[m].parsed.Some? && AnchoredHere(manifests[m].parsed.value, node)
    && IsFirst(domains, m, d) && domains[d].state == Transient
  }

  lemma RetickIff(manifests: Manifests, domains: Domains, node: NodeId)
    ensures RetickNeeded(manifests, domains, node) <==> exists m, d :: InTransition(manifests, domains, node, m, d)
  {
    if m :| m in manifests && Waits(manifests[m], m, domains, node) {
      FirstIsLeast(domains, m);
      assert InTransition(manifests, domains, node, m, Least(Tagged(domains, m)));
    }
    if m, d :| InTransition(manifests, domains, node, m, d) {
      FirstIsLeast(domains, m);
    }
  }

  /** Any list with these two properties is the plan. */
  lemma {:induction false} SortedListsAreEqual(xs: seq<ReconcileAction>, ys: seq<ReconcileAction>)
    requires Sorted(xs) && Sorted(ys) && forall act :: act in xs <==> act in ys
    ensures xs == ys
  {
    assert |xs| > 0 ==> xs[0] in ys;
    assert |ys| > 0 ==> ys[0] in xs;
    if xs != [] {
      assert xs[0] == ys[0] by {
        var i :| 0 <= i < |ys| && ys[i] == xs[0];
        var j :| 0 <= j < |xs| && xs[j] == ys[0];
        if i > 0 && j > 0 { BeforeAsymmetric(xs[0], ys[0]); }
      }
      forall act ensures act in xs[1..] <==> act in ys[1..] {
        BeforeIrreflexive(xs[0]);
        if act in xs[1..] || act in ys[1..] {
          assert act in xs && act in ys;
        }
      }
      SortedListsAreEqual(xs[1..], ys[1..]);
    }
  }

  lemma BeforeAsymmetric(x: ReconcileAction, y: ReconcileAction)
    requires Before(x, y)
    ensures !Before(y, x)
  {
    if x.DestroyUnknown? == y.DestroyUnknown? {
      if x.DestroyUnknown? { BelowAsymmetric(x.domainId, y.domainId); }
      else { BelowAsymmetric(x.manifestId, y.manifestId); }
    }
  }

  lemma BeforeIrreflexive(x: ReconcileAction)
    ensures !Before(x, x)
  {
    if x.DestroyUnknown? { BelowIrreflexive(x.domainId); } else { BelowIrreflexive(x.manifestId); }
  }

  /** At most one action concerns a given wanted manifest, and no domain is removed twice. */
  lemma OneActionEach(manifests: Manifests, domains: Domains, node: NodeId, i: nat, j: nat)
    requires var acts := PlannedActions(manifests, domains, node); i < j < |acts|
    ensures
      var acts := PlannedActions(manifests, domains, node);
      if acts[i].DestroyUnknown? then acts[j].DestroyUnknown? && acts[i].domainId != acts[j].domainId
      else acts[j].DestroyUnknown? || acts[i].manifestId != acts[j].manifestId
  {
    PlanIsDecided(manifests, domains, node);
    BelowIrreflexive(if PlannedActions(manifests, domains, node)[i].DestroyUnknown? then
      PlannedActions(manifests, domains, node)[i].domainId else PlannedActions(manifests, domains, node)[i].manifestId);
  }

  predicate Targets(act: ReconcileAction, d: string) {
    (act.Balloon? || act.DestroyUnknown?) && act.domainId == d
  }

  /** Manually created domains are never touched: every domain that a plan resizes or removes
      reports a manifest id, and no domain is the target of two actions. */
  lemma TargetsAreTaggedAndDistinct(manifests: Manifests, domains: Domains, node: NodeId, i: nat, d: string)
    requires Filed(domains)
    requires var acts := PlannedActions(manifests, domains, node); i < |acts| && Targets(acts[i], d)
    ensures d in domains && domains[d].manifestId.Some?
    ensures
      var acts := PlannedActions(manifests, domains, node);
      forall j :: 0 <= j < |acts| && j != i ==> !Targets(acts[j], d)
  {
    var acts := PlannedActions(manifests, domains, node);
    PlanIsDecided(manifests, domains, node);
    TargetTag(manifests, domains, node, acts[i], d);
    forall j | 0 <= j < |acts| && j != i ensures !Targets(acts[j], d) {
      if Targets(acts[j], d) {
        TargetTag(manifests, domains, node, acts[j], d);
        OneActionEach(manifests, domains, node, if i < j then i else j, if i < j then j else i);
      }
    }
  }

  lemma TargetTag(manifests: Manifests, domains: Domains, node: NodeId, act: ReconcileAction, d: string)
    requires Filed(domains) && act in PlannedActions(manifests, domains, node) && Targets(act, d)
    ensures d in domains && domains[d].manifestId.Some?
    ensures act.Balloon? <==> domains[d].manifestId.value in manifests
    ensures act.Balloon? ==> domains[d].manifestId == Some(act.manifestId)
  {
    PlanIsDecided(manifests, domains, node);
    assert Decided(manifests, domains, node, act);
    if act.Balloon? {
      assert Least(Tagged(domains, act.manifestId)) in Tagged(domains, act.manifestId);
    }
  }

  /** The plan of a reachable state never reports a bad manifest, and never the local marker. */
  lemma NoBadManifestPlanned(parse: Parser, s: Store, domains: Domains, node: NodeId)
    requires WellKept(parse, s)
    ensures forall act :: act in PlannedActions(s.manifests, domains, node) ==> !act.BadManifest? && !act.Local?
  {
    PlanIsDecided(s.manifests, domains, node);
  }

  /** Reachable states that the source considers equal get equal plans, although its equality
      ignores the cached parses that planning reads. */
  lemma EqualStatesGetEqualPlans(a: Agent, b: Agent, log1: seq<Event>, log2: seq<Event>, domains: Domains, node: NodeId)
    requires a.parse == b.parse && a.Final(log1).Equals(b.Final(log2))
    ensures
      var first, second := a.Final(log1).manifests, b.Final(log2).manifests;
      && PlannedActions(first, domains, node) == PlannedActions(second, domains, node)
      && RetickNeeded(first, domains, node) == RetickNeeded(second, domains, node)
  {
    RunsAreWellKept(a, log1, |log1|);
    RunsAreWellKept(b, log2, |log2|);
    EqualityDeterminesManifests(a.parse, a.Final(log1), b.Final(log2));
  }
}
