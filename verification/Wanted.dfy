/** The agent's desired state and the rules for changing it. */
module Wanted {
  import opened Wrappers
  import opened NodeIds
  import opened Events

  /** The parts of a parsed manifest that the agent reads. */
  datatype Profile = Profile(
    anchorNode: Option<string>,
    memoryActiveBytes: Word,
    controllersAllowed: seq<string>,
    operationsAllowed: seq<string>)

  /** Manifest parsing is a parameter: any function from text to a profile. */
  type Parser = string -> Option<Profile>

  datatype WantedEntry = WantedEntry(
    manifestId: string,
    profileToml: string,
    parsed: Option<Profile>,
    assignedAtEpoch: LeaseEpoch)
  {
    /** The source's equality on entries, which ignores the cached parse. */
    predicate Equals(other: WantedEntry) {
      manifestId == other.manifestId && profileToml == other.profileToml && assignedAtEpoch == other.assignedAtEpoch
    }
  }

  datatype Store = Store(
    manifests: map<string, WantedEntry>,
    leaseHolder: Option<NodeId>,
    leaseEpoch: LeaseEpoch)
  {
    /** The source's equality on states: entries and holders by their own equalities. */
    predicate Equals(other: Store) {
      && SameEntries(manifests, other.manifests)
      && leaseHolder.Some? == other.leaseHolder.Some?
      && (leaseHolder.Some? ==> leaseHolder.value.Same(other.leaseHolder.value))
      && leaseEpoch == other.leaseEpoch
    }
  }

  predicate SameEntries(a: map<string, WantedEntry>, b: map<string, WantedEntry>) {
    a.Keys == b.Keys && forall m | m in a :: a[m].Equals(b[m])
  }

  const EMPTY := Store(map[], None, 0)

  datatype ApplyError =
    | NoLease
    | WrongIssuer(expected: NodeId, got: NodeId)
    | StaleClaim(current: LeaseEpoch, gotEpoch: LeaseEpoch)
    | BadManifest(manifestId: string)
    | HeartbeatNotMutating

  function LeaseVerdict(holder: Option<NodeId>, issuer: NodeId): Result<(), ApplyError> {
    match holder
    case None => Err(NoLease)
    case Some(h) => if h.Same(issuer) then Ok(()) else Err(WrongIssuer(h, issuer))
  }

  /** Whether the lease rules accept an event, and why not. */
  function Verdict(parse: Parser, s: Store, ev: Event): Result<(), ApplyError> {
    match ev.body
    case ClaimLease(_) =>
      if s.leaseHolder.Some? && ev.epoch <= s.leaseEpoch then Err(StaleClaim(s.leaseEpoch, ev.epoch)) else Ok(())
    case Assign(m, toml) =>
      var lease := LeaseVerdict(s.leaseHolder, ev.issuer);
      if lease.Ok? && parse(toml).None? then Err(BadManifest(m)) else lease
    case Heartbeat(_, _, _, _) => Err(HeartbeatNotMutating)
    case _ => LeaseVerdict(s.leaseHolder, ev.issuer)
  }

  /** The entry that an assignment leaves behind. */
  function EntryFor(parse: Parser, ev: Event): WantedEntry
    requires ev.body.Assign?
  {
    WantedEntry(ev.body.manifestId, ev.body.manifestToml, parse(ev.body.manifestToml), ev.epoch)
  }

  /** What an accepted event does. */
  function Effect(parse: Parser, s: Store, ev: Event): Store {
    match ev.body
    case ClaimLease(_) => s.(leaseHolder := Some(ev.issuer), leaseEpoch := ev.epoch)
    case ReleaseLease(_) => s.(leaseHolder := None)
    case Assign(m, _) => s.(manifests := s.manifests[m := EntryFor(parse, ev)])
    case Unassign(m) => s.(manifests := s.manifests - {m})
    case _ => s
  }

  /** The desired state as the agent holds it. */
  class WantedState {
    const parse: Parser
    var manifests: map<string, WantedEntry>
    var leaseHolder: Option<NodeId>
    var leaseEpoch: LeaseEpoch

    function View(): Store
      reads this
    {
      Store(manifests, leaseHolder, leaseEpoch)
    }

    constructor (parse: Parser)
      ensures View() == EMPTY && this.parse == parse
    {
      this.parse := parse;
      manifests, leaseHolder, leaseEpoch := map[], None, 0;
    }

    method RequireLease(issuer: NodeId) returns (r: Result<(), ApplyError>)
      ensures r.Ok? <==> leaseHolder.Some? && leaseHolder.value.Same(issuer)
      ensures r == LeaseVerdict(leaseHolder, issuer)
    {
      match leaseHolder
      case None => r := Err(NoLease);
      case Some(h) =>
        if !h.Same(issuer) {
          r := Err(WrongIssuer(h, issuer));
        } else {
          r := Ok(());
        }
    }

    /** An accepted event has its effect; a rejected one leaves the state as it was. */
    method ApplyEvent(issuer: NodeId, epoch: LeaseEpoch, body: EventBody) returns (r: Result<(), ApplyError>)
      modifies this
      ensures r == Verdict(parse, old(View()), Event(issuer, epoch, body))
      ensures View() == if r.Ok? then Effect(parse, old(View()), Event(issuer, epoch, body)) else old(View())
    {
      match body
      case ClaimLease(_) =>
        if epoch <= leaseEpoch && leaseHolder.Some? {
          return Err(StaleClaim(leaseEpoch, epoch));
        }
        leaseHolder := Some(issuer);
        leaseEpoch := epoch;
        r := Ok(());
      case ReleaseLease(_) =>
        r := RequireLease(issuer);
        if r.Err? { return; }
        leaseHolder := None;
      case Assign(m, toml) =>
        r := RequireLease(issuer);
        if r.Err? { return; }
        var parsed := parse(toml);
        if parsed.None? {
          return Err(ApplyError.BadManifest(m));
        }
        manifests := manifests[m := WantedEntry(m, toml, parsed, epoch)];
      case Unassign(m) =>
        r := RequireLease(issuer);
        if r.Err? { return; }
        manifests := manifests - {m};
      case Balloon(_, _) =>
        r := RequireLease(issuer);
      case Heartbeat(_, _, _, _) =>
        r := Err(HeartbeatNotMutating);
    }
  }

  // ---- runs ----

  /** An agent: its parser, and any further policy that an event must pass before it is applied. */
  datatype Agent = Agent(parse: Parser, gate: (Store, Event) -> bool) {
    predicate Accepts(s: Store, ev: Event) {
      gate(s, ev) && Verdict(parse, s, ev).Ok?
    }

    function Next(s: Store, ev: Event): Store {
      if Accepts(s, ev) then Effect(parse, s, ev) else s
    }

    /** The state after the first `n` events of a log. */
    function After(log: seq<Event>, n: nat): Store
      requires n <= |log|
    {
      if n == 0 then EMPTY else Next(After(log, n - 1), log[n - 1])
    }

    /** The state that the first `n` events of a log lead to from any state. */
    function From(s: Store, log: seq<Event>, n: nat): Store
      requires n <= |log|
    {
      if n == 0 then s else Next(From(s, log, n - 1), log[n - 1])
    }

    function Final(log: seq<Event>): Store {
      After(log, |log|)
    }

    predicate AcceptedAt(log: seq<Event>, i: int) {
      0 <= i < |log| && Accepts(After(log, i), log[i])
    }
  }

  /** An agent with no policy beyond the lease rules. */
  function Ungated(parse: Parser): Agent {
    Agent(parse, (s: Store, ev: Event) => true)
  }

  lemma {:induction false} AfterPrefix(a: Agent, log: seq<Event>, log': seq<Event>, n: nat)
    requires n <= |log| && n <= |log'| && log[..n] == log'[..n]
    ensures a.After(log, n) == a.After(log', n)
  {
    if n > 0 {
      assert log[..n - 1] == log[..n][..n - 1] && log'[..n - 1] == log'[..n][..n - 1];
      assert log[n - 1] == log[..n][n - 1] && log'[n - 1] == log'[..n][n - 1];
      AfterPrefix(a, log, log', n - 1);
    }
  }

  /** Every stored entry is filed under its own id with a successful, current parse. */
  predicate WellKept(parse: Parser, s: Store) {
    forall m | m in s.manifests ::
      && s.manifests[m].manifestId == m
      && s.manifests[m].parsed.Some?
      && s.manifests[m].parsed == parse(s.manifests[m].profileToml)
  }

  lemma {:induction false} RunsAreWellKept(a: Agent, log: seq<Event>, n: nat)
    requires n <= |log|
    ensures WellKept(a.parse, a.After(log, n))
  {
    if n > 0 {
      RunsAreWellKept(a, log, n - 1);
    }
  }

  /** The same event, up to the role hint of its issuer. */
  predicate SameButHint(x: Event, y: Event) {
    x.issuer.Same(y.issuer) && x.epoch == y.epoch && x.body == y.body
  }

  predicate SameLogsButHints(log: seq<Event>, log': seq<Event>) {
    |log| == |log'| && forall i :: 0 <= i < |log| ==> SameButHint(log[i], log'[i])
  }

  /** Under the lease rules alone, role hints never matter: from states that the source considers
      equal, logs that differ only in them are accepted alike and lead to equal states. */
  lemma {:induction false} EqualStatesStayEqual(
      parse: Parser, s: Store, t: Store, log: seq<Event>, log': seq<Event>, n: nat)
    requires s.Equals(t) && SameLogsButHints(log, log') && n <= |log|
    ensures
      var a := Ungated(parse);
      && a.From(s, log, n).Equals(a.From(t, log', n))
      && (n < |log| ==> a.Accepts(a.From(s, log, n), log[n]) == a.Accepts(a.From(t, log', n), log'[n]))
  {
    var a := Ungated(parse);
    if n > 0 {
      EqualStatesStayEqual(parse, s, t, log, log', n - 1);
      assert SameButHint(log[n - 1], log'[n - 1]);
      EqualStep(parse, a.From(s, log, n - 1), a.From(t, log', n - 1), log[n - 1], log'[n - 1]);
    }
    if n < |log| {
      assert SameButHint(log[n], log'[n]);
      EqualStep(parse, a.From(s, log, n), a.From(t, log', n), log[n], log'[n]);
    }
  }

  lemma EqualStep(parse: Parser, s: Store, t: Store, ev: Event, ev': Event)
    requires s.Equals(t) && SameButHint(ev, ev')
    ensures Verdict(parse, s, ev).Ok? == Verdict(parse, t, ev').Ok?
    ensures Effect(parse, s, ev).Equals(Effect(parse, t, ev'))
  {
    EffectRespectsEquality(parse, s, t, ev, ev');
  }

  lemma EffectRespectsEquality(parse: Parser, s: Store, t: Store, ev: Event, ev': Event)
    requires s.Equals(t) && SameButHint(ev, ev')
    ensures Effect(parse, s, ev).Equals(Effect(parse, t, ev'))
  {
    match ev.body
    case Assign(m, _) => InsertKeepsSame(s.manifests, t.manifests, m, EntryFor(parse, ev));
    case Unassign(m) => RemoveKeepsSame(s.manifests, t.manifests, m);
    case _ =>
  }

  lemma InsertKeepsSame(a: map<string, WantedEntry>, b: map<string, WantedEntry>, m: string, e: WantedEntry)
    requires SameEntries(a, b)
    ensures SameEntries(a[m := e], b[m := e])
  {
  }

  lemma RemoveKeepsSame(a: map<string, WantedEntry>, b: map<string, WantedEntry>, m: string)
    requires SameEntries(a, b)
    ensures SameEntries(a - {m}, b - {m})
  {
  }

  /** Reachable states that compare equal hold identical manifests, cached parses included. */
  lemma EqualityDeterminesManifests(parse: Parser, s: Store, t: Store)
    requires WellKept(parse, s) && WellKept(parse, t) && s.Equals(t)
    ensures s.manifests == t.manifests
  {
    forall m | m in s.manifests ensures s.manifests[m] == t.manifests[m] {
      assert s.manifests[m].Equals(t.manifests[m]);
    }
  }
}
