/** Closing the loop: plans carried out against a hypervisor bring the observed state to the
    desired one. */
module Convergence {
  import opened Wrappers
  import opened Ordering
  import opened NodeIds
  import opened Events
  import opened Wanted
  import opened Truths
  import opened Reconcile

  /** A domain as the hypervisor keeps it, in kilobytes. */
  datatype Domain = Domain(
    manifestId: Option<string>,
    state: DomainState,
    currentKb: Word,
    maxKb: Word,
    vcpus: nat)

  type World = map<string, Domain>

  /** One poll: memory is reported in megabytes, rounded down. */
  function Observe(w: World): Domains {
    map d | d in w :: TruthEntry(d, w[d].manifestId, w[d].state, w[d].currentKb / 1024, w[d].vcpus)
  }

  // ---- the actuator ----

  /** A new domain comes up paused, at its active size, which is also its ceiling. */
  function NewDomain(p: Profile, m: string, vcpus: nat): Domain {
    Domain(Some(m), Transient, p.memoryActiveBytes / 1024, p.memoryActiveBytes / 1024, vcpus)
  }

  /** Stale records of a manifest are dropped when its domain is created again. */
  function Cleared(w: World, m: string): World {
    map d | d in w && !(w[d].manifestId == Some(m) && w[d].state == Absent) :: w[d]
  }

  predicate CreatesAs(p: Profile, m: string, w: World, w': World, d: string, vcpus: nat) {
    w' == Cleared(w, m)[d := NewDomain(p, m, vcpus)]
  }

  /** Resizing to a target beyond the ceiling fails and changes nothing. */
  function Resized(w: World, d: string, mb: Word): World {
    if d in w && mb * 1024 <= w[d].maxKb then w[d := w[d].(currentKb := mb * 1024)] else w
  }

  /** One action carried out; the ids of new domains are not among those already used. */
  ghost predicate Performs(manifests: Manifests, used: set<string>, act: ReconcileAction, w: World, w': World) {
    match act
    case Create(m) =>
      && m in manifests && manifests[m].parsed.Some?
      && exists d, vcpus :: d !in used && d !in w && CreatesAs(manifests[m].parsed.value, m, w, w', d, vcpus)
    case Balloon(_, d, mb) => w' == Resized(w, d, mb)
    case DestroyUnknown(d) => w' == w - {d}
    case _ => w' == w
  }

  ghost predicate PerformsAll(manifests: Manifests, used: set<string>, acts: seq<ReconcileAction>, ws: seq<World>) {
    && |ws| == |acts| + 1
    && forall i :: 0 <= i < |acts| ==> Performs(manifests, used, acts[i], ws[i], ws[i + 1])
  }

  /** A domain that was in transition before the pass is running after it; one created in the
      pass may be running or still in transition. */
  predicate SettlesTo(w: World, x: Domain, d: string, y: Domain) {
    if x.state != Transient then y == x
    else y == x.(state := Running) || (y == x && !(d in w && w[d].state == Transient))
  }

  predicate Settles(w: World, v: World, w': World) {
    v.Keys == w'.Keys && forall d | d in v :: SettlesTo(w, v[d], d, w'[d])
  }

  /** One pass: poll, plan, carry out the plan, and let domains in transition settle. */
  ghost predicate Pass(manifests: Manifests, node: NodeId, w: World, w': World) {
    exists ws: seq<World> ::
      && PerformsAll(manifests, w.Keys, PlannedActions(manifests, Observe(w), node), ws)
      && ws[0] == w && Settles(w, ws[|ws| - 1], w')
  }

  // ---- the domains of one manifest ----

  function Slice(w: World, m: string): World {
    map d | d in w && w[d].manifestId == Some(m) :: w[d]
  }

  predicate Local(manifests: Manifests, node: NodeId, m: string) {
    m in manifests && manifests[m].parsed.Some? && AnchoredHere(manifests[m].parsed.value, node)
  }

  function Want(manifests: Manifests, m: string): Word
    requires m in manifests && manifests[m].parsed.Some?
  {
    MemoryActiveMb(manifests[m].parsed.value)
  }

  /** Creation and resizing agree on the size they aim for: rounding bytes down to kilobytes
      and then to megabytes is rounding them down to megabytes, and the target in kilobytes
      does not overflow. */
  lemma UnitsAgree(p: Profile)
    ensures p.memoryActiveBytes / 1024 / 1024 == MemoryActiveMb(p)
    ensures MemoryActiveMb(p) * 1024 <= p.memoryActiveBytes / 1024
  {
  }

  /** How many passes a manifest is from its desired state. */
  function Rank(s: World, want: Word): nat {
    if s.Keys == {} then 3
    else
      var x := s[Least(s.Keys)];
      match x.state
      case Absent => 3
      case Transient => 2
      case Running => if x.currentKb / 1024 == want then 0 else 1
  }

  lemma FirstOfSlice(w: World, m: string)
    ensures Tagged(Observe(w), m) == Slice(w, m).Keys
  {
  }

  /** The decision for a local manifest, read off its own domains. */
  lemma DecisionBySlice(manifests: Manifests, node: NodeId, w: World, m: string)
    requires Local(manifests, node, m)
    ensures
      var s, want, act := Slice(w, m), Want(manifests, m), Decide(manifests[m], m, Observe(w), node);
      && (Rank(s, want) == 3 <==> act == Some(Create(m)))
      && (Rank(s, want) == 2 <==> Waits(manifests[m], m, Observe(w), node))
      && (Rank(s, want) == 2 ==> act == None)
      && (Rank(s, want) == 1 ==> act == Some(ReconcileAction.Balloon(m, Least(s.Keys), want)))
      && (Rank(s, want) == 0 ==> act == None)
  {
    FirstOfSlice(w, m);
  }

  /** What one action does to the domains of its manifest. */
  ghost predicate SliceEffect(
      p: Profile, m: string, act: Option<ReconcileAction>, used: set<string>, s: World, s': World) {
    match act
    case Some(Create(_)) => exists d, vcpus :: d !in used && CreatesAs(p, m, s, s', d, vcpus)
    case Some(Balloon(_, d, mb)) => s' == Resized(s, d, mb)
    case _ => s' == s
  }

  predicate Concerns(act: ReconcileAction, m: string) {
    !act.DestroyUnknown? && act.manifestId == m
  }

  /** No domain changes its manifest within a pass, and new ones belong to wanted manifests. */
  predicate TagsKept(manifests: Manifests, w0: World, w: World) {
    forall d | d in w ::
      if d in w0 then w[d].manifestId == w0[d].manifestId
      else w[d].manifestId.Some? && w[d].manifestId.value in manifests
  }

  lemma {:induction false} TagsKeptThroughout(manifests: Manifests, acts: seq<ReconcileAction>, ws: seq<World>, n: nat)
    requires |ws| > 0 && PerformsAll(manifests, ws[0].Keys, acts, ws) && n <= |acts|
    ensures TagsKept(manifests, ws[0], ws[n])
  {
    if n > 0 {
      TagsKeptThroughout(manifests, acts, ws, n - 1);
      assert Performs(manifests, ws[0].Keys, acts[n - 1], ws[n - 1], ws[n]);
    }
  }

  /** The domain that an action is directed at, if any, does not belong to `m`. */
  predicate Elsewhere(act: ReconcileAction, w: World, m: string) {
    (act.Balloon? || act.DestroyUnknown?) && act.domainId in w ==> w[act.domainId].manifestId != Some(m)
  }

  lemma PlannedElsewhere(manifests: Manifests, node: NodeId, w0: World, act: ReconcileAction, w: World, m: string)
    requires act in PlannedActions(manifests, Observe(w0), node)
    requires TagsKept(manifests, w0, w) && m in manifests && !Concerns(act, m)
    ensures Elsewhere(act, w, m)
  {
    if act.Balloon? || act.DestroyUnknown? {
      assert Targets(act, act.domainId);
      TargetTag(manifests, Observe(w0), node, act, act.domainId);
    }
  }

  /** An action directed elsewhere leaves the domains of a manifest alone. */
  lemma OthersUntouched(manifests: Manifests, used: set<string>, act: ReconcileAction, w: World, w': World, m: string)
    requires Performs(manifests, used, act, w, w') && !Concerns(act, m) && Elsewhere(act, w, m)
    ensures Slice(w', m) == Slice(w, m)
  {
    match act
    case Create(m') =>
      var p := manifests[m'].parsed.value;
      var d, vcpus :| d !in used && d !in w && CreatesAs(p, m', w, w', d, vcpus);
      assert w' == Cleared(w, m')[d := NewDomain(p, m', vcpus)];
    case _ =>
  }

  lemma OwnAction(manifests: Manifests, used: set<string>, act: ReconcileAction, w: World, w': World, m: string)
    requires Performs(manifests, used, act, w, w') && Concerns(act, m)
    requires m in manifests && manifests[m].parsed.Some?
    requires act.Balloon? && act.domainId in w ==> w[act.domainId].manifestId == Some(m)
    ensures SliceEffect(manifests[m].parsed.value, m, Some(act), used, Slice(w, m), Slice(w', m))
  {
    match act
    case Create(_) =>
      var p := manifests[m].parsed.value;
      var d, vcpus :| d !in used && d !in w && CreatesAs(p, m, w, w', d, vcpus);
      assert CreatesAs(p, m, Slice(w, m), Slice(w', m), d, vcpus);
    case _ =>
  }

  /** An action that concerns a manifest is its own decision, and the first to concern it. */
  lemma OnlyOneConcerns(manifests: Manifests, node: NodeId, w: World, n: nat, m: string)
    requires
      var acts := PlannedActions(manifests, Observe(w), node);
      0 < n <= |acts| && Concerns(acts[n - 1], m)
    ensures
      var acts := PlannedActions(manifests, Observe(w), node);
      var act := acts[n - 1];
      && (forall k :: 0 <= k < n - 1 ==> !Concerns(acts[k], m))
      && m in manifests && Decide(manifests[m], m, Observe(w), node) == Some(act)
      && (act.Balloon? && act.domainId in w ==> w[act.domainId].manifestId == Some(m))
  {
    var acts := PlannedActions(manifests, Observe(w), node);
    forall k | 0 <= k < n - 1 ensures !Concerns(acts[k], m) {
      OneActionEach(manifests, Observe(w), node, k, n - 1);
    }
    PlanIsDecided(manifests, Observe(w), node);
    assert acts[n - 1] in acts;
    if acts[n - 1].Balloon? {
      TargetTag(manifests, Observe(w), node, acts[n - 1], acts[n - 1].domainId);
    }
  }

  /** What the `n`-th action does to the domains of a local manifest. */
  lemma SliceStep(manifests: Manifests, node: NodeId, w: World, ws: seq<World>, n: nat, m: string)
    requires Local(manifests, node, m) && |ws| > 0 && ws[0] == w
    requires PerformsAll(manifests, w.Keys, PlannedActions(manifests, Observe(w), node), ws)
    requires 0 < n <= |PlannedActions(manifests, Observe(w), node)|
    ensures
      var act := PlannedActions(manifests, Observe(w), node)[n - 1];
      if Concerns(act, m) then
        SliceEffect(manifests[m].parsed.value, m, Some(act), w.Keys, Slice(ws[n - 1], m), Slice(ws[n], m))
      else Slice(ws[n], m) == Slice(ws[n - 1], m)
  {
    var acts := PlannedActions(manifests, Observe(w), node);
    var act := acts[n - 1];
    TagsKeptThroughout(manifests, acts, ws, n - 1);
    assert act in acts && Performs(manifests, w.Keys, act, ws[n - 1], ws[n]);
    if Concerns(act, m) {
      OnlyOneConcerns(manifests, node, w, n, m);
      OwnAction(manifests, w.Keys, act, ws[n - 1], ws[n], m);
    } else {
      PlannedElsewhere(manifests, node, w, act, ws[n - 1], m);
      OthersUntouched(manifests, w.Keys, act, ws[n - 1], ws[n], m);
    }
  }

  /** Through the first `n` actions, the domains of a local manifest change by its own action,
      once that has been carried out, and by nothing else. */
  lemma {:induction false} SliceThroughout(
      manifests: Manifests, node: NodeId, w: World, ws: seq<World>, n: nat, m: string)
    requires Local(manifests, node, m) && |ws| > 0 && ws[0] == w
    requires PerformsAll(manifests, w.Keys, PlannedActions(manifests, Observe(w), node), ws)
    requires n <= |PlannedActions(manifests, Observe(w), node)|
    ensures
      var acts := PlannedActions(manifests, Observe(w), node);
      if exists k :: 0 <= k < n && Concerns(acts[k], m) then
        var p, act := manifests[m].parsed.value, Decide(manifests[m], m, Observe(w), node);
        SliceEffect(p, m, act, w.Keys, Slice(w, m), Slice(ws[n], m))
      else Slice(ws[n], m) == Slice(w, m)
  {
    if n > 0 {
      SliceThroughout(manifests, node, w, ws, n - 1, m);
      SliceStep(manifests, node, w, ws, n, m);
      if Concerns(PlannedActions(manifests, Observe(w), node)[n - 1], m) {
        OnlyOneConcerns(manifests, node, w, n, m);
      }
    }
  }

  lemma SettlesSlice(w: World, v: World, w': World, m: string)
    requires Settles(w, v, w')
    ensures Settles(w, Slice(v, m), Slice(w', m))
  {
    forall d ensures d in Slice(v, m) <==> d in Slice(w', m) {
      assert d in v ==> SettlesTo(w, v[d], d, w'[d]);
    }
    forall d | d in Slice(v, m) ensures SettlesTo(w, Slice(v, m)[d], d, Slice(w', m)[d]) {
      assert SettlesTo(w, v[d], d, w'[d]);
    }
  }

  /** The plan has an action concerning `m` exactly when `m`'s own decision is one. */
  lemma PlanConcerns(manifests: Manifests, node: NodeId, domains: Domains, m: string)
    requires m in manifests
    ensures
      var acts := PlannedActions(manifests, domains, node);
      (exists k :: 0 <= k < |acts| && Concerns(acts[k], m)) <==> Decide(manifests[m], m, domains, node).Some?
  {
    var acts := PlannedActions(manifests, domains, node);
    PlanIsDecided(manifests, domains, node);
    DecisionNamesItsManifest(manifests[m], m, domains, node);
    var act := Decide(manifests[m], m, domains, node);
    if act.Some? {
      assert Decided(manifests, domains, node, act.value);
      var k :| 0 <= k < |acts| && acts[k] == act.value;
      assert Concerns(acts[k], m);
    } else if k :| 0 <= k < |acts| && Concerns(acts[k], m) {
      assert acts[k] in acts;
    }
  }

  /** One pass, seen from one local manifest. */
  lemma SliceOfPass(manifests: Manifests, node: NodeId, w: World, w': World, m: string) returns (v: World)
    requires Local(manifests, node, m) && Pass(manifests, node, w, w')
    ensures SliceEffect(manifests[m].parsed.value, m, Decide(manifests[m], m, Observe(w), node), w.Keys, Slice(w, m), v)
    ensures Settles(w, v, Slice(w', m))
  {
    var acts := PlannedActions(manifests, Observe(w), node);
    var ws: seq<World> :| PerformsAll(manifests, w.Keys, acts, ws) && ws[0] == w && Settles(w, ws[|ws| - 1], w');
    SliceThroughout(manifests, node, w, ws, |acts|, m);
    v := Slice(ws[|acts|], m);
    PlanConcerns(manifests, node, Observe(w), m);
    SettlesSlice(w, ws[|acts|], w', m);
  }

  // ---- convergence ----

  /** The ids of the live domains. */
  function Live(s: World): set<string> {
    set d | d in s && s[d].state != Absent
  }

  /** A domain that has the wanted size, or can be given it. */
  predicate Fits(x: Domain, want: Word) {
    x.currentKb / 1024 == want || want * 1024 <= x.maxKb
  }

  /** The first live domain of the manifest, if there is any, fits. */
  predicate Attainable(s: World, want: Word) {
    Live(s) != {} ==> Fits(s[Least(Live(s))], want)
  }

  /** Progress of one manifest's domains, given what its own action did. */
  lemma SliceProgress(manifests: Manifests, node: NodeId, w: World, m: string, v: World, s': World)
    requires Local(manifests, node, m) && Attainable(Slice(w, m), Want(manifests, m))
    requires
      var p, act := manifests[m].parsed.value, Decide(manifests[m], m, Observe(w), node);
      SliceEffect(p, m, act, w.Keys, Slice(w, m), v)
    requires Settles(w, v, s')
    ensures Attainable(s', Want(manifests, m))
    ensures Rank(s', Want(manifests, m)) == 0 || Rank(s', Want(manifests, m)) < Rank(Slice(w, m), Want(manifests, m))
  {
    var s, want, p := Slice(w, m), Want(manifests, m), manifests[m].parsed.value;
    DecisionBySlice(manifests, node, w, m);
    if Rank(s, want) == 3 {
      var d, vcpus :| d !in w.Keys && CreatesAs(p, m, s, v, d, vcpus);
      CreatedSlice(p, m, w, s, v, s', d, vcpus);
      CreatedFits(p, s, s', d);
    } else {
      FirstIsLive(s, want);
      StandingProgress(w, s, v, s', want);
    }
  }

  lemma FirstIsLive(s: World, want: Word)
    requires Rank(s, want) < 3
    ensures Live(s) != {} && Least(Live(s)) == Least(s.Keys)
  {
    assert Least(s.Keys) in Live(s);
    LeastOfPart(Live(s), s.Keys);
  }

  /** Creation leaves the live domains and the new one, which has the active size. */
  lemma CreatedSlice(p: Profile, m: string, w: World, s: World, v: World, s': World, d: string, vcpus: nat)
    requires d !in s && (forall e | e in s :: s[e].manifestId == Some(m))
    requires CreatesAs(p, m, s, v, d, vcpus) && Settles(w, v, s')
    ensures s'.Keys == Live(s') == Live(s) + {d}
    ensures forall e | e in Live(s) :: s'[e].currentKb == s[e].currentKb && s'[e].maxKb == s[e].maxKb
    ensures s'[d].currentKb == s'[d].maxKb == p.memoryActiveBytes / 1024
  {
    assert v.Keys == Live(s) + {d};
    forall e | e in v ensures e in Live(s') && s'[e].currentKb == v[e].currentKb && s'[e].maxKb == v[e].maxKb {
      assert SettlesTo(w, v[e], e, s'[e]);
    }
  }

  lemma CreatedFits(p: Profile, s: World, s': World, d: string)
    requires s'.Keys == Live(s') == Live(s) + {d} && Attainable(s, MemoryActiveMb(p))
    requires forall e | e in Live(s) :: s'[e].currentKb == s[e].currentKb && s'[e].maxKb == s[e].maxKb
    requires s'[d].maxKb == p.memoryActiveBytes / 1024
    ensures Attainable(s', MemoryActiveMb(p)) && Rank(s', MemoryActiveMb(p)) < 3
  {
    UnitsAgree(p);
    var first := Least(s'.Keys);
    assert first in Live(s');
    if first in Live(s) {
      LeastOfPart(Live(s), s'.Keys);
    }
  }

  lemma StandingProgress(w: World, s: World, v: World, s': World, want: Word)
    requires Rank(s, want) < 3 && Live(s) != {} && Least(Live(s)) == Least(s.Keys) && Attainable(s, want)
    requires v == if Rank(s, want) == 1 then Resized(s, Least(s.Keys), want) else s
    requires (forall d | d in s :: d in w && w[d] == s[d]) && Settles(w, v, s')
    ensures Attainable(s', want)
    ensures Rank(s', want) == 0 || Rank(s', want) < Rank(s, want)
  {
    var first := Least(s.Keys);
    assert v.Keys == s.Keys == s'.Keys;
    assert SettlesTo(w, v[first], first, s'[first]);
    assert first in Live(s');
    LeastOfPart(Live(s'), s'.Keys);
  }

  /** Every pass brings a manifest whose size is attainable closer, and keeps it attainable. */
  lemma RankFalls(manifests: Manifests, node: NodeId, w: World, w': World, m: string)
    requires Local(manifests, node, m) && Pass(manifests, node, w, w')
    requires Attainable(Slice(w, m), Want(manifests, m))
    ensures Attainable(Slice(w', m), Want(manifests, m))
    ensures
      var r, r' := Rank(Slice(w, m), Want(manifests, m)), Rank(Slice(w', m), Want(manifests, m));
      r' == 0 || r' < r
  {
    var v := SliceOfPass(manifests, node, w, w', m);
    SliceProgress(manifests, node, w, m, v, Slice(w', m));
  }

  lemma {:induction false} RemovedStays(
      manifests: Manifests, acts: seq<ReconcileAction>, ws: seq<World>, i: nat, n: nat, d: string)
    requires |ws| > 0 && PerformsAll(manifests, ws[0].Keys, acts, ws) && i <= n <= |acts|
    requires d in ws[0] && d !in ws[i]
    ensures d !in ws[n]
  {
    if i < n {
      RemovedStays(manifests, acts, ws, i, n - 1, d);
      assert Performs(manifests, ws[0].Keys, acts[n - 1], ws[n - 1], ws[n]);
    }
  }

  predicate NothingUnwanted(manifests: Manifests, w: World) {
    forall d | d in w :: w[d].manifestId.Some? ==> w[d].manifestId.value in manifests
  }

  lemma UnwantedIsRemoved(manifests: Manifests, node: NodeId, w: World, ws: seq<World>, d: string)
    requires |ws| > 0 && ws[0] == w && PerformsAll(manifests, w.Keys, PlannedActions(manifests, Observe(w), node), ws)
    requires d in w && w[d].manifestId.Some? && w[d].manifestId.value !in manifests
    ensures d !in ws[|ws| - 1]
  {
    var acts := PlannedActions(manifests, Observe(w), node);
    PlanIsDecided(manifests, Observe(w), node);
    assert Decided(manifests, Observe(w), node, DestroyUnknown(d));
    var i :| 0 <= i < |acts| && acts[i] == DestroyUnknown(d);
    assert Performs(manifests, w.Keys, acts[i], ws[i], ws[i + 1]);
    RemovedStays(manifests, acts, ws, i + 1, |acts|, d);
  }

  /** One pass removes every domain whose manifest is no longer wanted. */
  lemma PassRemovesUnwanted(manifests: Manifests, node: NodeId, w: World, w': World)
    requires Pass(manifests, node, w, w')
    ensures NothingUnwanted(manifests, w')
  {
    var acts := PlannedActions(manifests, Observe(w), node);
    var ws: seq<World> :| PerformsAll(manifests, w.Keys, acts, ws) && ws[0] == w && Settles(w, ws[|ws| - 1], w');
    TagsKeptThroughout(manifests, acts, ws, |acts|);
    forall d | d in w' && w'[d].manifestId.Some? ensures w'[d].manifestId.value in manifests {
      assert SettlesTo(w, ws[|acts|][d], d, w'[d]);
      if d in w && w[d].manifestId.Some? && w[d].manifestId.value !in manifests {
        UnwantedIsRemoved(manifests, node, w, ws, d);
      }
    }
  }

  /** Nothing left to do: no domain to create, resize or remove, and none to wait for. */
  predicate Quiescent(manifests: Manifests, node: NodeId, w: World) {
    && (forall act | act in PlannedActions(manifests, Observe(w), node) ::
          !act.Create? && !act.Balloon? && !act.DestroyUnknown?)
    && !RetickNeeded(manifests, Observe(w), node)
  }

  /** At most `k` passes from quiescence: the measure that every pass decreases. */
  ghost predicate Within(manifests: Manifests, node: NodeId, w: World, k: nat) {
    && (forall m | Local(manifests, node, m) :: Rank(Slice(w, m), Want(manifests, m)) <= k)
    && (k == 0 ==> NothingUnwanted(manifests, w))
  }

  lemma WithinZeroIsQuiescent(manifests: Manifests, node: NodeId, w: World)
    ensures Within(manifests, node, w, 0) <==> Quiescent(manifests, node, w)
  {
    var domains := Observe(w);
    PlanIsDecided(manifests, domains, node);
    if Within(manifests, node, w, 0) {
      forall m | m in manifests ensures !Waits(manifests[m], m, domains, node) {
        if Local(manifests, node, m) { DecisionBySlice(manifests, node, w, m); }
      }
      forall act | act in PlannedActions(manifests, domains, node)
        ensures !act.Create? && !act.Balloon? && !act.DestroyUnknown?
      {
        assert Decided(manifests, domains, node, act);
        if act.Create? || act.Balloon? {
          DecisionBySlice(manifests, node, w, act.manifestId);
        }
      }
    }
    if Quiescent(manifests, node, w) {
      forall m | Local(manifests, node, m) ensures Rank(Slice(w, m), Want(manifests, m)) == 0 {
        DecisionBySlice(manifests, node, w, m);
        var act := Decide(manifests[m], m, domains, node);
        assert act.Some? ==> Decided(manifests, domains, node, act.value);
      }
      forall d | d in w && w[d].manifestId.Some? ensures w[d].manifestId.value in manifests {
        assert !Decided(manifests, domains, node, DestroyUnknown(d));
      }
    }
  }

  ghost predicate AllAttainable(manifests: Manifests, node: NodeId, w: World) {
    forall m | Local(manifests, node, m) :: Attainable(Slice(w, m), Want(manifests, m))
  }

  /** Every pass strictly decreases the distance from quiescence, and a quiescent state stays so. */
  lemma PassMakesProgress(manifests: Manifests, node: NodeId, w: World, w': World, k: nat)
    requires Pass(manifests, node, w, w') && AllAttainable(manifests, node, w) && Within(manifests, node, w, k)
    ensures AllAttainable(manifests, node, w') && Within(manifests, node, w', if k == 0 then 0 else k - 1)
  {
    PassRemovesUnwanted(manifests, node, w, w');
    forall m | Local(manifests, node, m)
      ensures Attainable(Slice(w', m), Want(manifests, m))
      ensures Rank(Slice(w', m), Want(manifests, m)) <= if k == 0 then 0 else k - 1
    {
      RankFalls(manifests, node, w, w', m);
    }
  }

  /** Successive passes, with nothing else changing the domains. */
  ghost predicate Passes(manifests: Manifests, node: NodeId, ws: seq<World>) {
    forall i :: 0 < i < |ws| ==> Pass(manifests, node, ws[i - 1], ws[i])
  }

  lemma {:induction false} WithinAfter(manifests: Manifests, node: NodeId, ws: seq<World>, n: nat)
    requires Passes(manifests, node, ws) && n < |ws| && AllAttainable(manifests, node, ws[0])
    ensures AllAttainable(manifests, node, ws[n])
    ensures Within(manifests, node, ws[n], if n < 3 then 3 - n else 0)
  {
    if n > 0 {
      WithinAfter(manifests, node, ws, n - 1);
      assert Pass(manifests, node, ws[n - 1], ws[n]);
      PassMakesProgress(manifests, node, ws[n - 1], ws[n], if n - 1 < 3 then 3 - (n - 1) else 0);
    }
  }

  /** From any state in which the first live domain of every manifest fits, three passes reach
      quiescence, and every later pass keeps it. */
  lemma Converges(manifests: Manifests, node: NodeId, ws: seq<World>, n: nat)
    requires Passes(manifests, node, ws) && 3 <= n < |ws| && AllAttainable(manifests, node, ws[0])
    ensures Quiescent(manifests, node, ws[n])
  {
    WithinAfter(manifests, node, ws, n);
    WithinZeroIsQuiescent(manifests, node, ws[n]);
  }

  // ---- exactly when ----

  /** The manifest's first domain is live, off its wanted size, and too small to be given it. */
  predicate Stuck(s: World, want: Word) {
    && s.Keys != {}
    && var x := s[Least(s.Keys)];
    x.state != Absent && x.currentKb / 1024 != want && x.maxKb < want * 1024
  }

  lemma StuckStays(manifests: Manifests, node: NodeId, w: World, w': World, m: string)
    requires Local(manifests, node, m) && Pass(manifests, node, w, w')
    requires Stuck(Slice(w, m), Want(manifests, m))
    ensures Stuck(Slice(w', m), Want(manifests, m))
  {
    var s, want := Slice(w, m), Want(manifests, m);
    DecisionBySlice(manifests, node, w, m);
    var v := SliceOfPass(manifests, node, w, w', m);
    assert v == s;
    var first := Least(s.Keys);
    assert SettlesTo(w, v[first], first, Slice(w', m)[first]);
    assert Slice(w', m).Keys == s.Keys;
  }

  lemma {:induction false} StuckForever(manifests: Manifests, node: NodeId, ws: seq<World>, n: nat, m: string)
    requires Passes(manifests, node, ws) && n < |ws| && Local(manifests, node, m)
    requires Stuck(Slice(ws[0], m), Want(manifests, m))
    ensures Stuck(Slice(ws[n], m), Want(manifests, m))
  {
    if n > 0 {
      StuckForever(manifests, node, ws, n - 1, m);
      assert Pass(manifests, node, ws[n - 1], ws[n]);
      StuckStays(manifests, node, ws[n - 1], ws[n], m);
    }
  }

  /** No two domains report the same manifest. */
  predicate DistinctTags(w: World) {
    forall d, e | d in w && e in w && d != e :: w[d].manifestId.None? || w[d].manifestId != w[e].manifestId
  }

  /** When no two domains report the same manifest, the loop converges, within three passes,
      exactly when no wanted manifest has a live domain that is off its size and capped below it. */
  lemma ConvergesIff(manifests: Manifests, node: NodeId, ws: seq<World>, n: nat)
    requires Passes(manifests, node, ws) && 3 <= n < |ws| && DistinctTags(ws[0])
    ensures Quiescent(manifests, node, ws[n]) <==>
      forall m | Local(manifests, node, m) :: !Stuck(Slice(ws[0], m), Want(manifests, m))
  {
    if forall m | Local(manifests, node, m) :: !Stuck(Slice(ws[0], m), Want(manifests, m)) {
      forall m | Local(manifests, node, m) ensures Attainable(Slice(ws[0], m), Want(manifests, m)) {
        forall d | d in Slice(ws[0], m) ensures d == Least(Slice(ws[0], m).Keys) {
        }
      }
      Converges(manifests, node, ws, n);
    } else {
      var m :| Local(manifests, node, m) && Stuck(Slice(ws[0], m), Want(manifests, m));
      StuckForever(manifests, node, ws, n, m);
      StuckIsNotQuiescent(manifests, node, ws[n], m);
    }
  }

  // ---- passes exist ----

  predicate Above(d: string, ids: set<string>) {
    forall u | u in ids :: Below(u, d)
  }

  /** An id above every one in use. */
  function FreshId(used: set<string>): (d: string)
    ensures Above(d, used)
    decreases |used|
  {
    if used == {} then "0" else
      var u := Least(used);
      var d := FreshId(used - {u});
      if used == {u} then
        BelowExtension(u);
        u + "0"
      else
        AboveRest(used, u, d);
        d
  }

  lemma BelowExtension(u: string)
    ensures Below(u, u + "0")
  {
    assert Below("", "0");
    BelowAfterPrefix(u, "", "0");
    assert u + "" == u;
  }

  lemma AboveRest(used: set<string>, u: string, d: string)
    requires IsLeast(u, used) && used != {u} && Above(d, used - {u})
    ensures Above(d, used)
  {
    assert used == {u} + (used - {u});
    var x :| x in used - {u};
    BelowTransitive(u, x, d);
  }

  lemma AboveIsFresh(d: string, ids: set<string>)
    requires Above(d, ids)
    ensures d !in ids
  {
    BelowIrreflexive(d);
  }

  function Perform(manifests: Manifests, used: set<string>, act: ReconcileAction, w: World): World
    requires act.Create? ==> act.manifestId in manifests && manifests[act.manifestId].parsed.Some?
  {
    match act
    case Create(m) => Cleared(w, m)[FreshId(used + w.Keys) := NewDomain(manifests[m].parsed.value, m, 1)]
    case Balloon(_, d, mb) => Resized(w, d, mb)
    case DestroyUnknown(d) => w - {d}
    case _ => w
  }

  lemma PerformPerforms(manifests: Manifests, used: set<string>, act: ReconcileAction, w: World)
    requires act.Create? ==> act.manifestId in manifests && manifests[act.manifestId].parsed.Some?
    ensures Performs(manifests, used, act, w, Perform(manifests, used, act, w))
    ensures forall d | d in Perform(manifests, used, act, w) :: d in w || Above(d, used)
  {
    if act.Create? {
      var m, d := act.manifestId, FreshId(used + w.Keys);
      AboveIsFresh(d, used + w.Keys);
      assert CreatesAs(manifests[m].parsed.value, m, w, Perform(manifests, used, act, w), d, 1);
    }
  }

  /** Any actions can be carried out, and so that new domains get ids above those in use. */
  lemma {:induction false} PerformExists(
      manifests: Manifests, used: set<string>, acts: seq<ReconcileAction>, w: World) returns (ws: seq<World>)
    requires forall act | act in acts ::
      act.Create? ==> act.manifestId in manifests && manifests[act.manifestId].parsed.Some?
    ensures PerformsAll(manifests, used, acts, ws) && ws[0] == w
    ensures forall d | d in ws[|ws| - 1] :: d in w || Above(d, used)
    decreases |acts|
  {
    ws := [w];
    if acts != [] {
      assert acts[0] in acts;
      var w1 := Perform(manifests, used, acts[0], w);
      PerformPerforms(manifests, used, acts[0], w);
      var rest := PerformExists(manifests, used, acts[1..], w1);
      ws := [w] + rest;
      forall i | 0 <= i < |acts| ensures Performs(manifests, used, acts[i], ws[i], ws[i + 1]) {
        assert i > 0 ==> acts[i] == acts[1..][i - 1];
      }
    }
  }

  /** The passes spoken of above are always possible: every planned action can be carried out. */
  lemma PassExists(manifests: Manifests, node: NodeId, w: World) returns (w': World)
    ensures Pass(manifests, node, w, w')
    ensures forall d | d in w' :: d in w || Above(d, w.Keys)
  {
    var acts := PlannedActions(manifests, Observe(w), node);
    PlanIsDecided(manifests, Observe(w), node);
    forall act | act in acts && act.Create?
      ensures act.manifestId in manifests && manifests[act.manifestId].parsed.Some?
    {
      assert Decided(manifests, Observe(w), node, act);
    }
    var ws := PerformExists(manifests, w.Keys, acts, w);
    var v := ws[|ws| - 1];
    w' := map d | d in v :: if v[d].state == Transient then v[d].(state := Running) else v[d];
    assert Settles(w, v, w');
  }

  // ---- whatever domains report ----

  /** A new domain above the others leaves an unfitting first live domain first, and so stuck. */
  lemma StuckAfterCreation(s: World, s': World, d: string, want: Word)
    requires !Attainable(s, want) && s'.Keys == Live(s') == Live(s) + {d} && Above(d, Live(s))
    requires forall e | e in Live(s) :: s'[e].currentKb == s[e].currentKb && s'[e].maxKb == s[e].maxKb
    ensures Stuck(s', want)
  {
    var e, first := Least(Live(s)), Least(s'.Keys);
    assert first == e by {
      if first == d { BelowAsymmetric(e, d); } else { LeastOfPart(Live(s), s'.Keys); }
    }
    assert e in Live(s');
  }

  lemma UnfittingGetsStuck(manifests: Manifests, node: NodeId, w: World, w': World, m: string)
    requires Local(manifests, node, m) && Pass(manifests, node, w, w')
    requires !Attainable(Slice(w, m), Want(manifests, m))
    requires forall d | d in w' :: d in w || Above(d, w.Keys)
    ensures Stuck(Slice(w', m), Want(manifests, m))
  {
    var s, want, p := Slice(w, m), Want(manifests, m), manifests[m].parsed.value;
    if Rank(s, want) == 3 {
      DecisionBySlice(manifests, node, w, m);
      var v := SliceOfPass(manifests, node, w, w', m);
      var d, vcpus :| d !in w.Keys && CreatesAs(p, m, s, v, d, vcpus);
      CreatedSlice(p, m, w, s, v, Slice(w', m), d, vcpus);
      assert d in Slice(w', m) && d in w';
      assert Above(d, Live(s));
      StuckAfterCreation(s, Slice(w', m), d, want);
    } else {
      FirstIsLive(s, want);
      StuckStays(manifests, node, w, w', m);
    }
  }

  lemma PassesCons(manifests: Manifests, node: NodeId, w: World, ws: seq<World>)
    requires Passes(manifests, node, ws) && ws != [] && Pass(manifests, node, w, ws[0])
    ensures Passes(manifests, node, [w] + ws)
  {
    var run := [w] + ws;
    forall i | 0 < i < |run| ensures Pass(manifests, node, run[i - 1], run[i]) {
      assert i > 1 ==> run[i - 1] == ws[i - 2] && run[i] == ws[i - 1];
    }
  }

  /** Runs of any length start in any state. */
  lemma {:induction false} RunExists(manifests: Manifests, node: NodeId, w: World, n: nat) returns (ws: seq<World>)
    ensures Passes(manifests, node, ws) && |ws| == n + 1 && ws[0] == w
    decreases n
  {
    ws := [w];
    if n > 0 {
      var w1 := PassExists(manifests, node, w);
      var rest := RunExists(manifests, node, w1, n - 1);
      PassesCons(manifests, node, w, rest);
      ws := [w] + rest;
    }
  }

  /** From an unfitting state some runs, of any length, never get there. */
  lemma SomeRunFails(manifests: Manifests, node: NodeId, w: World, m: string, n: nat) returns (ws: seq<World>)
    requires Local(manifests, node, m) && !Attainable(Slice(w, m), Want(manifests, m)) && n > 0
    ensures Passes(manifests, node, ws) && |ws| == n + 1 && ws[0] == w && !Quiescent(manifests, node, ws[n])
  {
    var w1 := PassExists(manifests, node, w);
    var rest := RunExists(manifests, node, w1, n - 1);
    UnfittingGetsStuck(manifests, node, w, w1, m);
    StuckForever(manifests, node, rest, n - 1, m);
    StuckIsNotQuiescent(manifests, node, rest[n - 1], m);
    PassesCons(manifests, node, w, rest);
    ws := [w] + rest;
  }

  lemma StuckIsNotQuiescent(manifests: Manifests, node: NodeId, w: World, m: string)
    requires Local(manifests, node, m) && Stuck(Slice(w, m), Want(manifests, m))
    ensures !Quiescent(manifests, node, w)
  {
    WithinZeroIsQuiescent(manifests, node, w);
    assert Rank(Slice(w, m), Want(manifests, m)) > 0;
  }

  ghost predicate ReachesQuiescence(manifests: Manifests, node: NodeId, ws: seq<World>) {
    forall n :: 3 <= n < |ws| ==> Quiescent(manifests, node, ws[n])
  }

  /** Whatever domains report the same manifest, every run from a state reaches quiescence within
      three passes and keeps it, exactly when the first live domain of every local manifest, if there
      is one, has its wanted size or can be given it. */
  lemma EveryRunConvergesIff(manifests: Manifests, node: NodeId, w: World)
    ensures
      (forall ws | Passes(manifests, node, ws) && |ws| > 3 && ws[0] == w ::
         ReachesQuiescence(manifests, node, ws)) <==> AllAttainable(manifests, node, w)
  {
    if AllAttainable(manifests, node, w) {
      forall ws, n | Passes(manifests, node, ws) && 3 <= n < |ws| && ws[0] == w
        ensures Quiescent(manifests, node, ws[n])
      {
        Converges(manifests, node, ws, n);
      }
    } else {
      var m :| Local(manifests, node, m) && !Attainable(Slice(w, m), Want(manifests, m));
      var ws := SomeRunFails(manifests, node, w, m, 3);
      assert !ReachesQuiescence(manifests, node, ws);
    }
  }
}
