/** What every run of the lease state machine keeps, under any further policy. */
module LeaseRuns {
  import opened Wrappers
  import opened NodeIds
  import opened Events
  import opened Wanted

  predicate IsWrite(ev: Event) {
    ev.body.Assign? || ev.body.Unassign? || ev.body.Balloon? || ev.body.ReleaseLease?
  }

  predicate AcceptedClaim(a: Agent, log: seq<Event>, i: int) {
    a.AcceptedAt(log, i) && log[i].body.ClaimLease?
  }

  predicate AcceptedRelease(a: Agent, log: seq<Event>, i: int) {
    a.AcceptedAt(log, i) && log[i].body.ReleaseLease?
  }

  /** Event `j` is the latest accepted claim before `n`, with no accepted release since. */
  ghost predicate Seats(a: Agent, log: seq<Event>, j: int, n: nat) {
    && j < n && AcceptedClaim(a, log, j)
    && forall k :: j < k < n ==> !AcceptedClaim(a, log, k) && !AcceptedRelease(a, log, k)
  }

  /** The lease after one more event. */
  lemma LeaseStep(a: Agent, log: seq<Event>, n: nat)
    requires 0 < n <= |log|
    ensures
      var before, after := a.After(log, n - 1), a.After(log, n);
      if AcceptedClaim(a, log, n - 1) then
        after.leaseHolder == Some(log[n - 1].issuer) && after.leaseEpoch == log[n - 1].epoch
      else if AcceptedRelease(a, log, n - 1) then
        after.leaseHolder == None && after.leaseEpoch == before.leaseEpoch
      else
        after.leaseHolder == before.leaseHolder && after.leaseEpoch == before.leaseEpoch
  {
  }

  ghost predicate HolderIsSeat(s: Store, a: Agent, log: seq<Event>, n: nat) {
    && (s.leaseHolder.Some? <==> exists j :: Seats(a, log, j, n))
    && forall j :: Seats(a, log, j, n) ==> s.leaseHolder == Some(log[j].issuer) && s.leaseEpoch == log[j].epoch
  }

  lemma SeatsStep(a: Agent, log: seq<Event>, j: int, n: nat)
    requires n > 0
    ensures Seats(a, log, j, n) <==>
      if AcceptedClaim(a, log, n - 1) then j == n - 1
      else !AcceptedRelease(a, log, n - 1) && Seats(a, log, j, n - 1)
  {
  }

  /** The lease record is exactly the latest accepted claim not yet released. */
  lemma {:induction false} HolderIsLatestClaim(a: Agent, log: seq<Event>, n: nat)
    requires n <= |log|
    ensures HolderIsSeat(a.After(log, n), a, log, n)
  {
    if n > 0 {
      HolderIsLatestClaim(a, log, n - 1);
      HolderStep(a, log, n, a.After(log, n - 1), a.After(log, n));
    }
  }

  lemma HolderStep(a: Agent, log: seq<Event>, n: nat, before: Store, after: Store)
    requires 0 < n <= |log| && before == a.After(log, n - 1) && after == a.After(log, n)
    requires HolderIsSeat(before, a, log, n - 1)
    ensures HolderIsSeat(after, a, log, n)
  {
    LeaseStep(a, log, n);
    if AcceptedClaim(a, log, n - 1) {
      ClaimTakesSeat(a, log, n, after);
    } else if AcceptedRelease(a, log, n - 1) {
      ReleaseLeavesSeat(a, log, n, after);
    } else {
      SeatStays(a, log, n, before, after);
    }
  }

  lemma ClaimTakesSeat(a: Agent, log: seq<Event>, n: nat, after: Store)
    requires 0 < n <= |log| && AcceptedClaim(a, log, n - 1)
    requires after.leaseHolder == Some(log[n - 1].issuer) && after.leaseEpoch == log[n - 1].epoch
    ensures HolderIsSeat(after, a, log, n)
  {
    assert Seats(a, log, n - 1, n);
    forall j | Seats(a, log, j, n) ensures j == n - 1 {
      SeatsStep(a, log, j, n);
    }
  }

  lemma ReleaseLeavesSeat(a: Agent, log: seq<Event>, n: nat, after: Store)
    requires 0 < n <= |log| && AcceptedRelease(a, log, n - 1) && after.leaseHolder == None
    ensures HolderIsSeat(after, a, log, n)
  {
    forall j ensures !Seats(a, log, j, n) {
      SeatsStep(a, log, j, n);
    }
  }

  lemma SeatStays(a: Agent, log: seq<Event>, n: nat, before: Store, after: Store)
    requires 0 < n <= |log| && !AcceptedClaim(a, log, n - 1) && !AcceptedRelease(a, log, n - 1)
    requires after.leaseHolder == before.leaseHolder && after.leaseEpoch == before.leaseEpoch
    requires HolderIsSeat(before, a, log, n - 1)
    ensures HolderIsSeat(after, a, log, n)
  {
    forall j ensures Seats(a, log, j, n) <==> Seats(a, log, j, n - 1) {
      SeatsStep(a, log, j, n);
    }
    if before.leaseHolder.Some? {
      var j :| Seats(a, log, j, n - 1);
      assert Seats(a, log, j, n);
    }
  }

  /** Exclusive writer: a write that its policy admits is accepted exactly when its issuer
      is the one seated by the latest accepted claim, with no accepted release since, and an
      assigned manifest parses. */
  lemma ExclusiveWriter(a: Agent, log: seq<Event>, i: nat)
    requires i < |log| && IsWrite(log[i])
    ensures a.AcceptedAt(log, i) <==>
      && a.gate(a.After(log, i), log[i])
      && (log[i].body.Assign? ==> a.parse(log[i].body.manifestToml).Some?)
      && exists j :: Seats(a, log, j, i) && log[j].issuer.Same(log[i].issuer)
  {
    HolderIsLatestClaim(a, log, i);
  }

  /** A claim that its policy admits is accepted exactly when nobody is seated or it carries a higher
      epoch than the claim that seats the holder; a heartbeat never is. */
  lemma ClaimAcceptedIff(a: Agent, log: seq<Event>, i: nat)
    requires i < |log| && !IsWrite(log[i])
    ensures a.AcceptedAt(log, i) <==>
      && a.gate(a.After(log, i), log[i]) && log[i].body.ClaimLease?
      && forall j :: Seats(a, log, j, i) ==> log[j].epoch < log[i].epoch
  {
    HolderIsLatestClaim(a, log, i);
    if a.After(log, i).leaseHolder.Some? {
      var j :| Seats(a, log, j, i);
    }
  }

  /** Why the lease rules refuse an event: a stale claim names both epochs; a write without a seat, or
      from somebody else than the seated controller, names them; then comes the manifest. */
  lemma RefusalReason(a: Agent, log: seq<Event>, i: nat)
    requires i < |log|
    ensures
      var ev, r := log[i], Verdict(a.parse, a.After(log, i), log[i]);
      if ev.body.Heartbeat? then r == Err(HeartbeatNotMutating)
      else if !IsWrite(ev) then
        forall j :: Seats(a, log, j, i) && ev.epoch <= log[j].epoch ==> r == Err(StaleClaim(log[j].epoch, ev.epoch))
      else if forall j :: !Seats(a, log, j, i) then r == Err(NoLease)
      else forall j :: Seats(a, log, j, i) ==>
        if !log[j].issuer.Same(ev.issuer) then r == Err(WrongIssuer(log[j].issuer, ev.issuer))
        else if ev.body.Assign? && a.parse(ev.body.manifestToml).None? then r == Err(BadManifest(ev.body.manifestId))
        else r == Ok(())
  {
    HolderIsLatestClaim(a, log, i);
  }

  /** No seat is ever shared: the claims that seat the issuers of two accepted writes are
      the same one unless a claim or a release was accepted in between. */
  lemma WritersBetweenHandoversAgree(a: Agent, log: seq<Event>, i: nat, k: nat)
    requires i < k < |log| && IsWrite(log[i]) && IsWrite(log[k])
    requires a.AcceptedAt(log, i) && a.AcceptedAt(log, k)
    requires forall j :: i <= j < k ==> !AcceptedClaim(a, log, j) && !AcceptedRelease(a, log, j)
    ensures log[i].issuer.Same(log[k].issuer)
  {
    ExclusiveWriter(a, log, i);
    ExclusiveWriter(a, log, k);
    var j :| Seats(a, log, j, i) && log[j].issuer.Same(log[i].issuer);
    var j' :| Seats(a, log, j', k) && log[j'].issuer.Same(log[k].issuer);
    assert AcceptedClaim(a, log, j) && AcceptedClaim(a, log, j');
    assert j' < i && j == j';
  }

  lemma {:induction false} SeatedUntilRelease(a: Agent, log: seq<Event>, j: nat, n: nat)
    requires j < n <= |log| && AcceptedClaim(a, log, j)
    requires forall k :: j < k < n ==> !AcceptedRelease(a, log, k)
    ensures a.After(log, n).leaseHolder.Some? && log[j].epoch <= a.After(log, n).leaseEpoch
  {
    LeaseStep(a, log, n);
    if j + 1 < n {
      SeatedUntilRelease(a, log, j, n - 1);
      assert !AcceptedRelease(a, log, n - 1);
    }
  }

  /** Between releases, accepted claims carry strictly increasing epochs. */
  lemma ClaimEpochsIncrease(a: Agent, log: seq<Event>, j: nat, k: nat)
    requires j < k && AcceptedClaim(a, log, j) && AcceptedClaim(a, log, k)
    requires forall i :: j < i < k ==> !AcceptedRelease(a, log, i)
    ensures log[j].epoch < log[k].epoch
  {
    SeatedUntilRelease(a, log, j, k);
  }

  ghost predicate EpochNeverFalls(a: Agent, log: seq<Event>) {
    forall i, j :: 0 <= i <= j <= |log| ==> a.After(log, i).leaseEpoch <= a.After(log, j).leaseEpoch
  }

  predicate RisesAt(a: Agent, log: seq<Event>, k: int) {
    AcceptedClaim(a, log, k) && a.After(log, k).leaseHolder.None? ==> a.After(log, k).leaseEpoch <= log[k].epoch
  }

  /** No claim on a vacant lease carries an epoch below the recorded one. */
  ghost predicate VacantClaimsRise(a: Agent, log: seq<Event>) {
    forall k :: RisesAt(a, log, k)
  }

  predicate StepRises(a: Agent, log: seq<Event>, k: int) {
    0 <= k < |log| && a.After(log, k).leaseEpoch <= a.After(log, k + 1).leaseEpoch
  }

  lemma {:induction false} StepsRise(a: Agent, log: seq<Event>, i: nat, n: nat)
    requires i <= n <= |log| && forall k :: i <= k < n ==> StepRises(a, log, k)
    ensures a.After(log, i).leaseEpoch <= a.After(log, n).leaseEpoch
  {
    if i < n {
      StepsRise(a, log, i, n - 1);
      assert StepRises(a, log, n - 1);
    }
  }

  lemma EpochRisesFrom(a: Agent, log: seq<Event>, i: nat, j: nat)
    requires i <= j <= |log| && VacantClaimsRise(a, log)
    ensures a.After(log, i).leaseEpoch <= a.After(log, j).leaseEpoch
  {
    forall k | i <= k < j ensures StepRises(a, log, k) {
      assert RisesAt(a, log, k);
      LeaseStep(a, log, k + 1);
    }
    StepsRise(a, log, i, j);
  }

  /** The recorded epoch never falls over a whole run exactly when no claim on a vacant lease
      carries a lower one; the rules themselves do not ask for that. */
  lemma EpochMonotoneIff(a: Agent, log: seq<Event>)
    ensures EpochNeverFalls(a, log) <==> VacantClaimsRise(a, log)
  {
    if VacantClaimsRise(a, log) {
      forall i, j | 0 <= i <= j <= |log| ensures a.After(log, i).leaseEpoch <= a.After(log, j).leaseEpoch {
        EpochRisesFrom(a, log, i, j);
      }
    }
    if EpochNeverFalls(a, log) {
      forall k ensures RisesAt(a, log, k) {
        if AcceptedClaim(a, log, k) {
          assert a.After(log, k).leaseEpoch <= a.After(log, k + 1).leaseEpoch;
        }
      }
    }
  }

  /** Every accepted claim carries a higher epoch than every earlier one. */
  ghost predicate ClaimsRise(a: Agent, log: seq<Event>) {
    forall j, k :: j < k && AcceptedClaim(a, log, j) && AcceptedClaim(a, log, k) ==> log[j].epoch < log[k].epoch
  }

  ghost predicate ClaimedBefore(a: Agent, log: seq<Event>, n: nat) {
    exists j :: j < n && AcceptedClaim(a, log, j)
  }

  /** Every claim on a vacant lease, but the first ever, carries an epoch above the recorded one. */
  ghost predicate VacantClaimsExceed(a: Agent, log: seq<Event>) {
    forall k: nat :: ExceedsAt(a, log, k)
  }

  ghost predicate ExceedsAt(a: Agent, log: seq<Event>, k: nat) {
    AcceptedClaim(a, log, k) && a.After(log, k).leaseHolder.None? && ClaimedBefore(a, log, k) ==>
      a.After(log, k).leaseEpoch < log[k].epoch
  }

  /** The recorded epoch is the last accepted claim's, released or not. */
  lemma {:induction false} EpochIsLastClaims(a: Agent, log: seq<Event>, n: nat) returns (i: nat)
    requires n <= |log| && ClaimedBefore(a, log, n)
    ensures i < n && AcceptedClaim(a, log, i) && a.After(log, n).leaseEpoch == log[i].epoch
  {
    LeaseStep(a, log, n);
    if AcceptedClaim(a, log, n - 1) {
      i := n - 1;
    } else {
      i := EpochIsLastClaims(a, log, n - 1);
    }
  }

  lemma ClaimStaysBelow(a: Agent, log: seq<Event>, j: nat, n: nat)
    requires j < n <= |log| && AcceptedClaim(a, log, j) && VacantClaimsExceed(a, log)
    ensures log[j].epoch <= a.After(log, n).leaseEpoch
  {
    forall k | j + 1 <= k < n ensures StepRises(a, log, k) {
      assert ClaimedBefore(a, log, k);
      EpochRises(a, log, k + 1);
    }
    StepsRise(a, log, j + 1, n);
    LeaseStep(a, log, j + 1);
  }

  lemma EpochRises(a: Agent, log: seq<Event>, n: nat)
    requires 0 < n <= |log| && ClaimedBefore(a, log, n - 1) && VacantClaimsExceed(a, log)
    ensures a.After(log, n - 1).leaseEpoch <= a.After(log, n).leaseEpoch
  {
    LeaseStep(a, log, n);
    if AcceptedClaim(a, log, n - 1) {
      ClaimExceeds(a, log, n - 1);
    }
  }

  lemma ClaimExceeds(a: Agent, log: seq<Event>, k: nat)
    requires AcceptedClaim(a, log, k) && ClaimedBefore(a, log, k) && VacantClaimsExceed(a, log)
    ensures a.After(log, k).leaseEpoch < log[k].epoch
  {
    assert ExceedsAt(a, log, k);
  }

  /** Accepted claims carry strictly increasing epochs over a whole run exactly when every claim on a
      vacant lease, but the first ever, exceeds the recorded epoch. That guard is not in the code. */
  lemma ClaimsRiseIff(a: Agent, log: seq<Event>)
    ensures ClaimsRise(a, log) <==> VacantClaimsExceed(a, log)
  {
    if VacantClaimsExceed(a, log) {
      forall j, k | j < k && AcceptedClaim(a, log, j) && AcceptedClaim(a, log, k) ensures log[j].epoch < log[k].epoch {
        ClaimStaysBelow(a, log, j, k);
        ClaimExceeds(a, log, k);
      }
    }
    if ClaimsRise(a, log) {
      forall k: nat ensures ExceedsAt(a, log, k) {
        if AcceptedClaim(a, log, k) && ClaimedBefore(a, log, k) {
          var i := EpochIsLastClaims(a, log, k);
        }
      }
    }
  }

  /** Whenever the lease is held at one recorded epoch, it is held by one controller. */
  ghost predicate OneHolderPerEpoch(a: Agent, log: seq<Event>) {
    forall i, k | 0 <= i <= |log| && 0 <= k <= |log| :: HoldersAgree(a.After(log, i), a.After(log, k))
  }

  predicate HoldersAgree(s: Store, t: Store) {
    s.leaseHolder.Some? && t.leaseHolder.Some? && s.leaseEpoch == t.leaseEpoch ==>
      s.leaseHolder.value.Same(t.leaseHolder.value)
  }

  /** Accepted claims with equal epochs come from one controller. */
  ghost predicate EpochsHaveOneClaimant(a: Agent, log: seq<Event>) {
    forall j, k :: AcceptedClaim(a, log, j) && AcceptedClaim(a, log, k) && log[j].epoch == log[k].epoch ==>
      log[j].issuer.Same(log[k].issuer)
  }

  lemma SeatOf(a: Agent, log: seq<Event>, n: nat) returns (j: nat)
    requires n <= |log| && a.After(log, n).leaseHolder.Some?
    ensures j < n && AcceptedClaim(a, log, j)
    ensures a.After(log, n).leaseHolder == Some(log[j].issuer) && a.After(log, n).leaseEpoch == log[j].epoch
  {
    HolderIsLatestClaim(a, log, n);
    j :| Seats(a, log, j, n);
  }

  /** No split brain, exactly when no two controllers have claims accepted at one epoch. */
  lemma OneHolderPerEpochIff(a: Agent, log: seq<Event>)
    ensures OneHolderPerEpoch(a, log) <==> EpochsHaveOneClaimant(a, log)
  {
    if EpochsHaveOneClaimant(a, log) {
      forall i, k | 0 <= i <= |log| && 0 <= k <= |log| ensures HoldersAgree(a.After(log, i), a.After(log, k)) {
        if a.After(log, i).leaseHolder.Some? && a.After(log, k).leaseHolder.Some? {
          var j := SeatOf(a, log, i);
          var j' := SeatOf(a, log, k);
        }
      }
    }
    if OneHolderPerEpoch(a, log) {
      forall j, k | AcceptedClaim(a, log, j) && AcceptedClaim(a, log, k) && log[j].epoch == log[k].epoch
        ensures log[j].issuer.Same(log[k].issuer)
      {
        LeaseStep(a, log, j + 1);
        LeaseStep(a, log, k + 1);
        assert HoldersAgree(a.After(log, j + 1), a.After(log, k + 1));
      }
    }
  }

  /** A run that lowers the epoch: claim at 2, release, claim at 1. */
  lemma EpochCanFall(parse: Parser, alice: NodeId, bob: NodeId)
    ensures
      var log := [Event(alice, 2, ClaimLease(bob)), Event(alice, 2, ReleaseLease(bob)), Event(bob, 1, ClaimLease(bob))];
      && AcceptedClaim(Ungated(parse), log, 2)
      && Ungated(parse).Final(log) == Store(map[], Some(bob), 1)
      && !EpochNeverFalls(Ungated(parse), log)
  {
    var a := Ungated(parse);
    var log := [Event(alice, 2, ClaimLease(bob)), Event(alice, 2, ReleaseLease(bob)), Event(bob, 1, ClaimLease(bob))];
    assert a.After(log, 0) == EMPTY;
    assert a.After(log, 1) == Store(map[], Some(alice), 2);
    assert a.After(log, 2) == Store(map[], None, 2);
    assert a.After(log, 3) == Store(map[], Some(bob), 1);
  }

  // ---- replay ----

  /** The accepted events among the first `n`, in order. */
  function AcceptedLog(a: Agent, log: seq<Event>, n: nat): seq<Event>
    requires n <= |log|
  {
    if n == 0 then []
    else AcceptedLog(a, log, n - 1) + if a.AcceptedAt(log, n - 1) then [log[n - 1]] else []
  }

  /** Appending one event to a log takes one more step. */
  lemma AfterSnoc(a: Agent, log: seq<Event>, ev: Event)
    ensures a.Final(log + [ev]) == a.Next(a.Final(log), ev)
  {
    AfterPrefix(a, log + [ev], log, |log|);
  }

  lemma AcceptedLogPrefix(a: Agent, log: seq<Event>, log': seq<Event>, n: nat)
    requires n <= |log| && n <= |log'| && log[..n] == log'[..n]
    ensures AcceptedLog(a, log, n) == AcceptedLog(a, log', n)
  {
    if n > 0 {
      assert log[..n - 1] == log[..n][..n - 1] && log'[..n - 1] == log'[..n][..n - 1];
      assert log[n - 1] == log[..n][n - 1] && log'[n - 1] == log'[..n][n - 1];
      AfterPrefix(a, log, log', n - 1);
      AcceptedLogPrefix(a, log, log', n - 1);
    }
  }

  /** Replaying only the accepted events gives the same state, and accepts all of them. */
  lemma {:induction false} ReplayAccepted(a: Agent, log: seq<Event>, n: nat)
    requires n <= |log|
    ensures
      var kept := AcceptedLog(a, log, n);
      a.Final(kept) == a.After(log, n) && AcceptedLog(a, kept, |kept|) == kept
  {
    if n > 0 {
      ReplayAccepted(a, log, n - 1);
      var kept := AcceptedLog(a, log, n - 1);
      if a.AcceptedAt(log, n - 1) {
        AfterSnoc(a, kept, log[n - 1]);
        var kept' := kept + [log[n - 1]];
        AfterPrefix(a, kept', kept, |kept|);
        AcceptedLogPrefix(a, kept', kept, |kept|);
        assert a.AcceptedAt(kept', |kept|);
        assert AcceptedLog(a, log, n) == kept';
      } else {
        assert AcceptedLog(a, log, n) == kept;
      }
    }
  }

  predicate Touches(ev: Event, m: string) {
    (ev.body.Assign? || ev.body.Unassign?) && ev.body.manifestId == m
  }

  predicate AcceptedTouch(a: Agent, log: seq<Event>, i: int, m: string) {
    a.AcceptedAt(log, i) && Touches(log[i], m)
  }

  /** Event `i` is the last accepted assignment of `m` before `n`, not followed by an accepted withdrawal. */
  ghost predicate Defines(a: Agent, log: seq<Event>, i: int, n: nat, m: string) {
    && i < n && AcceptedTouch(a, log, i, m) && log[i].body.Assign?
    && forall k :: i < k < n ==> !AcceptedTouch(a, log, k, m)
  }

  predicate AgreeOn(s: Store, t: Store, m: string) {
    if m in s.manifests then m in t.manifests && t.manifests[m] == s.manifests[m] else m !in t.manifests
  }

  /** One id after one more event. */
  lemma EntryStep(a: Agent, log: seq<Event>, n: nat, m: string)
    requires 0 < n <= |log|
    ensures
      var before, after := a.After(log, n - 1), a.After(log, n);
      if AcceptedTouch(a, log, n - 1, m) then
        if log[n - 1].body.Assign? then
          m in after.manifests && after.manifests[m] == EntryFor(a.parse, log[n - 1])
        else m !in after.manifests
      else AgreeOn(before, after, m)
  {
  }

  ghost predicate EntryIsLastAssign(s: Store, a: Agent, log: seq<Event>, n: nat, m: string) {
    && (m in s.manifests <==> exists i :: Defines(a, log, i, n, m))
    && forall i :: Defines(a, log, i, n, m) ==> m in s.manifests && s.manifests[m] == EntryFor(a.parse, log[i])
  }

  lemma DefinesStep(a: Agent, log: seq<Event>, i: int, n: nat, m: string)
    requires 0 < n <= |log|
    ensures Defines(a, log, i, n, m) <==>
      if AcceptedTouch(a, log, n - 1, m) then i == n - 1 && log[n - 1].body.Assign? else Defines(a, log, i, n - 1, m)
  {
  }

  /** A stored entry is exactly the last accepted assignment of its id that was not
      withdrawn, recorded at the epoch of that event. */
  lemma {:induction false} EntriesAreLastAssigns(a: Agent, log: seq<Event>, n: nat, m: string)
    requires n <= |log|
    ensures EntryIsLastAssign(a.After(log, n), a, log, n, m)
  {
    if n > 0 {
      EntriesAreLastAssigns(a, log, n - 1, m);
      LastAssignStep(a, log, n, m, a.After(log, n - 1), a.After(log, n));
    }
  }

  lemma LastAssignStep(a: Agent, log: seq<Event>, n: nat, m: string, before: Store, after: Store)
    requires 0 < n <= |log| && before == a.After(log, n - 1) && after == a.After(log, n)
    requires EntryIsLastAssign(before, a, log, n - 1, m)
    ensures EntryIsLastAssign(after, a, log, n, m)
  {
    EntryStep(a, log, n, m);
    if AcceptedTouch(a, log, n - 1, m) {
      TouchedStep(a, log, n, m, after);
    } else {
      UntouchedStep(a, log, n, m, before, after);
    }
  }

  lemma TouchedStep(a: Agent, log: seq<Event>, n: nat, m: string, after: Store)
    requires 0 < n <= |log| && AcceptedTouch(a, log, n - 1, m)
    requires if log[n - 1].body.Assign? then m in after.manifests && after.manifests[m] == EntryFor(a.parse, log[n - 1])
             else m !in after.manifests
    ensures EntryIsLastAssign(after, a, log, n, m)
  {
    if log[n - 1].body.Assign? {
      AssignDefines(a, log, n, m);
    } else {
      WithdrawalEnds(a, log, n, m);
    }
  }

  lemma AssignDefines(a: Agent, log: seq<Event>, n: nat, m: string)
    requires 0 < n <= |log| && AcceptedTouch(a, log, n - 1, m) && log[n - 1].body.Assign?
    ensures Defines(a, log, n - 1, n, m) && forall i :: Defines(a, log, i, n, m) ==> i == n - 1
  {
    forall i ensures Defines(a, log, i, n, m) ==> i == n - 1 {
      DefinesStep(a, log, i, n, m);
    }
  }

  lemma WithdrawalEnds(a: Agent, log: seq<Event>, n: nat, m: string)
    requires 0 < n <= |log| && AcceptedTouch(a, log, n - 1, m) && !log[n - 1].body.Assign?
    ensures forall i :: !Defines(a, log, i, n, m)
  {
    forall i ensures !Defines(a, log, i, n, m) {
      DefinesStep(a, log, i, n, m);
    }
  }

  lemma UntouchedStep(a: Agent, log: seq<Event>, n: nat, m: string, before: Store, after: Store)
    requires 0 < n <= |log| && !AcceptedTouch(a, log, n - 1, m) && AgreeOn(before, after, m)
    requires EntryIsLastAssign(before, a, log, n - 1, m)
    ensures EntryIsLastAssign(after, a, log, n, m)
  {
    forall i ensures Defines(a, log, i, n, m) <==> Defines(a, log, i, n - 1, m) {
      DefinesStep(a, log, i, n, m);
    }
    if m in before.manifests {
      var i :| Defines(a, log, i, n - 1, m);
      assert Defines(a, log, i, n, m);
    }
  }

  /** An accepted assignment that a later accepted event of the same id replaces or withdraws. */
  ghost predicate Superseded(a: Agent, log: seq<Event>, i: nat) {
    && a.AcceptedAt(log, i) && log[i].body.Assign?
    && exists k :: i < k && AcceptedTouch(a, log, k, log[i].body.manifestId)
  }

  /** The events that a mask keeps among the first `n`. */
  function Sift(log: seq<Event>, keep: seq<bool>, n: nat): seq<Event>
    requires n <= |log| == |keep|
  {
    if n == 0 then []
    else Sift(log, keep, n - 1) + if keep[n - 1] then [log[n - 1]] else []
  }

  /** The entry for `m` after `n` events is due to a dropped assignment. */
  ghost predicate Missing(a: Agent, log: seq<Event>, keep: seq<bool>, n: nat, m: string)
    requires |log| == |keep|
  {
    exists i: nat :: i < |log| && !keep[i] && Defines(a, log, i, n, m)
  }

  /** The two replays agree on the lease, and on every entry not due to a dropped assignment. */
  ghost predicate SiftedLike(a: Agent, log: seq<Event>, keep: seq<bool>, n: nat, s: Store, t: Store)
    requires |log| == |keep|
  {
    && s.leaseHolder == t.leaseHolder && s.leaseEpoch == t.leaseEpoch
    && forall m :: Missing(a, log, keep, n, m) || AgreeOn(s, t, m)
  }

  /** Acceptance of an event depends on the lease alone. */
  lemma AcceptanceIsByLease(parse: Parser, s: Store, t: Store, ev: Event)
    requires s.leaseHolder == t.leaseHolder && s.leaseEpoch == t.leaseEpoch
    ensures Ungated(parse).Accepts(s, ev) == Ungated(parse).Accepts(t, ev)
    ensures
      var s', t' := Ungated(parse).Next(s, ev), Ungated(parse).Next(t, ev);
      s'.leaseHolder == t'.leaseHolder && s'.leaseEpoch == t'.leaseEpoch
  {
  }

  lemma SameStepAgrees(parse: Parser, s: Store, t: Store, ev: Event, m: string)
    requires s.leaseHolder == t.leaseHolder && s.leaseEpoch == t.leaseEpoch
    requires AgreeOn(s, t, m) || (Ungated(parse).Accepts(s, ev) && Touches(ev, m))
    ensures AgreeOn(Ungated(parse).Next(s, ev), Ungated(parse).Next(t, ev), m)
  {
    AcceptanceIsByLease(parse, s, t, ev);
  }

  lemma MissingStep(a: Agent, log: seq<Event>, keep: seq<bool>, n: nat, m: string)
    requires 0 < n <= |log| == |keep|
    requires Missing(a, log, keep, n - 1, m) && !AcceptedTouch(a, log, n - 1, m)
    ensures Missing(a, log, keep, n, m)
  {
    var i: nat :| i < |log| && !keep[i] && Defines(a, log, i, n - 1, m);
    assert Defines(a, log, i, n, m);
  }

  lemma SiftStep(parse: Parser, log: seq<Event>, keep: seq<bool>, n: nat, s: Store, t: Store)
    requires 0 < n <= |log| == |keep| && s == Ungated(parse).After(log, n - 1)
    requires SiftedLike(Ungated(parse), log, keep, n - 1, s, t)
    requires !keep[n - 1] ==> Superseded(Ungated(parse), log, n - 1)
    ensures SiftedLike(Ungated(parse), log, keep, n, Ungated(parse).After(log, n),
      if keep[n - 1] then Ungated(parse).Next(t, log[n - 1]) else t)
  {
    var a, ev := Ungated(parse), log[n - 1];
    AcceptanceIsByLease(parse, s, t, ev);
    var s' := a.Next(s, ev);
    var t' := if keep[n - 1] then a.Next(t, ev) else t;
    forall m ensures Missing(a, log, keep, n, m) || AgreeOn(s', t', m) {
      if AcceptedTouch(a, log, n - 1, m) && !keep[n - 1] {
        assert Defines(a, log, n - 1, n, m);
      } else if Missing(a, log, keep, n - 1, m) && !AcceptedTouch(a, log, n - 1, m) {
        MissingStep(a, log, keep, n, m);
      } else if keep[n - 1] {
        SameStepAgrees(parse, s, t, ev, m);
      }
    }
  }

  lemma SiftedNext(a: Agent, log: seq<Event>, keep: seq<bool>, n: nat)
    requires 0 < n <= |log| == |keep|
    ensures
      var t := a.Final(Sift(log, keep, n - 1));
      a.Final(Sift(log, keep, n)) == if keep[n - 1] then a.Next(t, log[n - 1]) else t
  {
    var kept := Sift(log, keep, n - 1);
    if keep[n - 1] {
      AfterSnoc(a, kept, log[n - 1]);
    } else {
      assert Sift(log, keep, n) == kept;
    }
  }

  lemma {:induction false} SiftAgrees(parse: Parser, log: seq<Event>, keep: seq<bool>, n: nat)
    requires n <= |log| == |keep|
    requires forall i: nat :: i < |log| && !keep[i] ==> Superseded(Ungated(parse), log, i)
    ensures
      var a := Ungated(parse);
      SiftedLike(a, log, keep, n, a.After(log, n), a.Final(Sift(log, keep, n)))
  {
    if n > 0 {
      SiftAgrees(parse, log, keep, n - 1);
      SiftOnce(parse, log, keep, n);
    }
  }

  lemma SiftOnce(parse: Parser, log: seq<Event>, keep: seq<bool>, n: nat)
    requires 0 < n <= |log| == |keep| && (keep[n - 1] || Superseded(Ungated(parse), log, n - 1))
    requires
      var a := Ungated(parse);
      SiftedLike(a, log, keep, n - 1, a.After(log, n - 1), a.Final(Sift(log, keep, n - 1)))
    ensures
      var a := Ungated(parse);
      SiftedLike(a, log, keep, n, a.After(log, n), a.Final(Sift(log, keep, n)))
  {
    var a := Ungated(parse);
    SiftedNext(a, log, keep, n);
    SiftStep(parse, log, keep, n, a.After(log, n - 1), a.Final(Sift(log, keep, n - 1)));
  }

  /** Compaction: dropping any set of superseded assignments does not change the final state. */
  lemma CompactionIsSafe(parse: Parser, log: seq<Event>, keep: seq<bool>)
    requires |log| == |keep|
    requires forall i: nat :: i < |log| && !keep[i] ==> Superseded(Ungated(parse), log, i)
    ensures Ungated(parse).Final(Sift(log, keep, |log|)) == Ungated(parse).Final(log)
  {
    var a := Ungated(parse);
    SiftAgrees(parse, log, keep, |log|);
    forall m ensures !Missing(a, log, keep, |log|, m) {
      NothingMissing(parse, log, keep, m);
    }
    StoresEqual(a.Final(log), a.Final(Sift(log, keep, |log|)));
  }

  lemma NothingMissing(parse: Parser, log: seq<Event>, keep: seq<bool>, m: string)
    requires |log| == |keep|
    requires forall i: nat :: i < |log| && !keep[i] ==> Superseded(Ungated(parse), log, i)
    ensures !Missing(Ungated(parse), log, keep, |log|, m)
  {
    var a := Ungated(parse);
    forall i: nat | i < |log| && !keep[i] ensures !Defines(a, log, i, |log|, m) {
      var k :| i < k && AcceptedTouch(a, log, k, log[i].body.manifestId);
    }
  }

  lemma StoresEqual(s: Store, t: Store)
    requires s.leaseHolder == t.leaseHolder && s.leaseEpoch == t.leaseEpoch
    requires forall m :: AgreeOn(s, t, m)
    ensures s == t
  {
    assert forall m :: m in s.manifests ==> AgreeOn(s, t, m);
    assert forall m :: m in t.manifests ==> AgreeOn(s, t, m);
    assert s.manifests.Keys == t.manifests.Keys;
    assert s.manifests == t.manifests;
  }
}
