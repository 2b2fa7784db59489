/** The agent behind the chain: events reach the lease rules only after the log has accepted them. */
module Pipeline {
  import opened Wrappers
  import opened NodeIds
  import opened Events
  import opened Chain
  import opened Wanted
  import opened LeaseRuns

  function Payloads(log: seq<Envelope>): (r: seq<Event>)
    ensures |r| == |log|
    ensures forall i :: 0 <= i < |log| ==> r[i] == log[i].Payload()
  {
    seq(|log|, i requires 0 <= i < |log| => log[i].Payload())
  }

  /** The recorded lease epoch never runs ahead of the chain. */
  lemma {:induction false} LeaseBehindChain(crypto: Crypto, log: seq<Envelope>, a: Agent, n: nat)
    requires Linked(crypto, log) && 0 < n <= |log|
    ensures a.After(Payloads(log), n).leaseEpoch <= log[n - 1].core.epoch
  {
    LeaseStep(a, Payloads(log), n);
    if n > 1 {
      LeaseBehindChain(crypto, log, a, n - 1);
      Consecutive(crypto, log, n - 1);
    } else {
      assert a.After(Payloads(log), 0) == EMPTY;
    }
  }

  /** Behind the chain the lease epoch is monotone over every run, releases included. */
  lemma EpochMonotoneBehindChain(crypto: Crypto, log: seq<Envelope>, a: Agent)
    requires Linked(crypto, log)
    ensures EpochNeverFalls(a, Payloads(log))
  {
    var events := Payloads(log);
    forall k ensures RisesAt(a, events, k) {
      if AcceptedClaim(a, events, k) && k == 0 {
        assert a.After(events, 0) == EMPTY;
      } else if AcceptedClaim(a, events, k) {
        LeaseBehindChain(crypto, log, a, k);
        Consecutive(crypto, log, k);
      }
    }
    EpochMonotoneIff(a, events);
  }

  /** A lease passes to a different controller only with a strictly higher recorded epoch, whether it
      was released first or taken over. */
  lemma HandoverRaisesEpoch(crypto: Crypto, log: seq<Envelope>, a: Agent, i: nat, k: nat)
    requires Linked(crypto, log) && i <= k <= |log|
    requires
      var before, after := a.After(Payloads(log), i).leaseHolder, a.After(Payloads(log), k).leaseHolder;
      before.Some? && after.Some? && !before.value.Same(after.value)
    ensures a.After(Payloads(log), i).leaseEpoch < a.After(Payloads(log), k).leaseEpoch
  {
    var events := Payloads(log);
    HolderIsLatestClaim(a, events, i);
    HolderIsLatestClaim(a, events, k);
    var j :| Seats(a, events, j, i);
    var j' :| Seats(a, events, j', k);
    if j <= j' {
      OneIssuerPerEpoch(crypto, log, j, j');
    }
  }

  /** No split brain: two writes accepted under one recorded lease epoch come from one controller. */
  lemma OneWriterPerEpoch(crypto: Crypto, log: seq<Envelope>, a: Agent, i: nat, k: nat)
    requires Linked(crypto, log) && i <= k < |log|
    requires IsWrite(log[i].Payload()) && IsWrite(log[k].Payload())
    requires a.AcceptedAt(Payloads(log), i) && a.AcceptedAt(Payloads(log), k)
    requires a.After(Payloads(log), i).leaseEpoch == a.After(Payloads(log), k).leaseEpoch
    ensures log[i].core.issuer.Same(log[k].core.issuer)
  {
    var events := Payloads(log);
    WriterHolds(a, events, i);
    WriterHolds(a, events, k);
    if !log[i].core.issuer.Same(log[k].core.issuer) {
      HandoverRaisesEpoch(crypto, log, a, i, k);
    }
  }

  lemma WriterHolds(a: Agent, events: seq<Event>, i: nat)
    requires i < |events| && IsWrite(events[i]) && a.AcceptedAt(events, i)
    ensures
      var holder := a.After(events, i).leaseHolder;
      holder.Some? && holder.value.Same(events[i].issuer)
  {
  }

  /** The chain is what rules it out: the lease rules by themselves let two controllers write under
      one epoch, the second one claiming the released lease at the epoch of the first. */
  lemma SplitBrainWithoutChain(parse: Parser, alice: NodeId, bob: NodeId, m: string)
    ensures
      var a, log := Ungated(parse), [Event(alice, 1, ClaimLease(alice)), Event(alice, 1, Unassign(m)),
        Event(alice, 1, ReleaseLease(alice)), Event(bob, 1, ClaimLease(bob)), Event(bob, 1, Unassign(m))];
      && a.AcceptedAt(log, 1) && a.AcceptedAt(log, 4)
      && a.After(log, 1).leaseEpoch == a.After(log, 4).leaseEpoch
  {
    var a, log := Ungated(parse), [Event(alice, 1, ClaimLease(alice)), Event(alice, 1, Unassign(m)),
      Event(alice, 1, ReleaseLease(alice)), Event(bob, 1, ClaimLease(bob)), Event(bob, 1, Unassign(m))];
    assert a.After(log, 0) == EMPTY;
    assert a.After(log, 1) == Store(map[], Some(alice), 1);
    assert a.After(log, 2) == Store(map[], Some(alice), 1);
    assert a.After(log, 3) == Store(map[], None, 1);
    assert a.After(log, 4) == Store(map[], Some(bob), 1);
  }

  /** The epoch recorded with an entry tells stale assignments apart. While `j` seats the
      lease holder, an entry with an older epoch was assigned before `j`, and every entry last
      assigned by a different controller has an older epoch; one assigned since is the holder's own,
      at an epoch no older than the lease's. */
  lemma StaleEntriesHaveOlderEpochs(crypto: Crypto, log: seq<Envelope>, a: Agent, n: nat, j: nat, i: nat, m: string)
    requires Linked(crypto, log) && n <= |log|
    requires Seats(a, Payloads(log), j, n) && Defines(a, Payloads(log), i, n, m)
    ensures
      var s := a.After(Payloads(log), n);
      && m in s.manifests && s.leaseHolder == Some(log[j].core.issuer)
      && (s.manifests[m].assignedAtEpoch < s.leaseEpoch ==> i < j)
      && (!log[i].core.issuer.Same(log[j].core.issuer) ==> s.manifests[m].assignedAtEpoch < s.leaseEpoch)
      && (j < i ==> log[i].core.issuer.Same(log[j].core.issuer) && s.leaseEpoch <= s.manifests[m].assignedAtEpoch)
  {
    var events := Payloads(log);
    EntriesAreLastAssigns(a, events, n, m);
    HolderIsLatestClaim(a, events, n);
    assert i != j;
    if i < j {
      OneIssuerPerEpoch(crypto, log, i, j);
    } else {
      OneIssuerPerEpoch(crypto, log, j, i);
      ExclusiveWriter(a, events, i);
      var j' :| Seats(a, events, j', i) && events[j'].issuer.Same(events[i].issuer);
      assert AcceptedClaim(a, events, j') && AcceptedClaim(a, events, j);
      assert j' == j;
    }
  }
}
