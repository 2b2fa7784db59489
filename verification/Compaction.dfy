/** Dropping replaced assignments from a log, behind the refusal layer. */
module Compaction {
  import opened Wrappers
  import opened NodeIds
  import opened Events
  import opened Wanted
  import opened LeaseRuns
  import opened Refuse

  predicate AcceptedAssign(a: Agent, log: seq<Event>, i: int, m: string) {
    a.AcceptedAt(log, i) && log[i].body.Assign? && log[i].body.manifestId == m
  }

  /** An accepted assignment of `m` is still to come. */
  ghost predicate Pending(a: Agent, log: seq<Event>, n: nat, m: string) {
    exists k :: n <= k && AcceptedAssign(a, log, k, m)
  }

  /** An accepted assignment that a later accepted assignment of the same id replaces. */
  ghost predicate Replaced(a: Agent, log: seq<Event>, i: nat) {
    a.AcceptedAt(log, i) && log[i].body.Assign? && Pending(a, log, i + 1, log[i].body.manifestId)
  }

  predicate SameLease(s: Store, t: Store) {
    s.leaseHolder == t.leaseHolder && s.leaseEpoch == t.leaseEpoch
  }

  /** Two states after one event, seen from one id, given the two states before it. */
  ghost predicate Alike(a: Agent, s: Store, t: Store, ev: Event, m: string) {
    var s', t' := a.Next(s, ev), a.Next(t, ev);
    && SameLease(s', t')
    && (AgreeOn(s, t, m) ==> AgreeOn(s', t', m))
    && (ev.body.Assign? ==> a.Accepts(s, ev) == a.Accepts(t, ev))
    && (a.Accepts(s, ev) && ev.body.Assign? && ev.body.manifestId == m ==> AgreeOn(s', t', m))
  }

  /** The holder withdraws `m`, and the entry's own policy lets it. */
  predicate Withdraws(holder: Option<NodeId>, ev: Event, m: string, entry: WantedEntry) {
    && ev.body == Unassign(m) && LeaseVerdict(holder, ev.issuer).Ok?
    && entry.parsed.Some? && Admits(entry.parsed.value, ev.issuer) && Permits(entry.parsed.value, "unassign")
  }

  predicate WithdrawalRule(a: Agent, s: Store, ev: Event, m: string) {
    ev.body == Unassign(m) ==>
      (a.Accepts(s, ev) <==> m in s.manifests && Withdraws(s.leaseHolder, ev, m, s.manifests[m]))
  }

  /** What matters of the refusal layer here: an event fares alike for an id in two states that
      agree on the lease and on that id, an assignment does whatever they store, and a withdrawal
      is judged by the stored entry. */
  ghost predicate JudgesByEntry(a: Agent) {
    && (forall s, t, ev, m :: SameLease(s, t) ==> Alike(a, s, t, ev, m))
    && (forall s, ev, m :: WithdrawalRule(a, s, ev, m))
  }

  lemma GatedJudgesByEntry(parse: Parser)
    ensures JudgesByEntry(Gated(parse))
  {
    forall s, t, ev, m | SameLease(s, t) ensures Alike(Gated(parse), s, t, ev, m) {
      GatedAlike(parse, s, t, ev, m);
    }
    forall s, ev, m ensures WithdrawalRule(Gated(parse), s, ev, m) {
      GatedWithdrawal(parse, s, ev, m);
    }
  }

  lemma GatedWithdrawal(parse: Parser, s: Store, ev: Event, m: string)
    ensures WithdrawalRule(Gated(parse), s, ev, m)
  {
  }

  lemma GatedAlike(parse: Parser, s: Store, t: Store, ev: Event, m: string)
    requires SameLease(s, t)
    ensures Alike(Gated(parse), s, t, ev, m)
  {
    var body, issuer := ev.body, ev.issuer;
    assert body.Assign? || !ManifestScoped(body) || body.manifestId != m || !AgreeOn(s, t, m) ||
      MayApply(parse, issuer, body, StoredPolicy(s)) == MayApply(parse, issuer, body, StoredPolicy(t));
  }

  lemma StepAgrees(a: Agent, s: Store, t: Store, ev: Event, m: string)
    requires JudgesByEntry(a) && SameLease(s, t)
    ensures Alike(a, s, t, ev, m)
  {
  }

  // ---- dropping any number of replaced assignments ----

  ghost predicate AgreeOrPending(a: Agent, log: seq<Event>, n: nat, s: Store, t: Store) {
    SameLease(s, t) && forall m :: AgreeOn(s, t, m) || Pending(a, log, n, m)
  }

  lemma {:induction false} DroppedStaysPending(a: Agent, log: seq<Event>, keep: seq<bool>, n: nat)
    requires JudgesByEntry(a) && n <= |log| == |keep|
    requires forall i: nat :: i < |log| && !keep[i] ==> Replaced(a, log, i)
    ensures
      AgreeOrPending(a, log, n, a.After(log, n), a.Final(Sift(log, keep, n)))
  {
    if n > 0 {
      DroppedStaysPending(a, log, keep, n - 1);
      SiftedNext(a, log, keep, n);
      EitherStep(a, log, keep[n - 1], n, a.Final(Sift(log, keep, n - 1)));
    }
  }

  lemma EitherStep(a: Agent, log: seq<Event>, kept: bool, n: nat, t: Store)
    requires JudgesByEntry(a) && 0 < n <= |log| && (kept || Replaced(a, log, n - 1))
    requires AgreeOrPending(a, log, n - 1, a.After(log, n - 1), t)
    ensures AgreeOrPending(a, log, n, a.After(log, n), if kept then a.Next(t, log[n - 1]) else t)
  {
    if kept {
      KeptStep(a, log, n, a.After(log, n - 1), t);
    } else {
      DroppedStep(a, log, n, a.After(log, n - 1), t);
    }
  }

  lemma PendingMoves(a: Agent, log: seq<Event>, n: nat, m: string)
    requires n > 0 && Pending(a, log, n - 1, m)
    ensures AcceptedAssign(a, log, n - 1, m) || Pending(a, log, n, m)
  {
    var k :| n - 1 <= k && AcceptedAssign(a, log, k, m);
  }

  lemma KeptStep(a: Agent, log: seq<Event>, n: nat, s: Store, t: Store)
    requires JudgesByEntry(a) && 0 < n <= |log| && s == a.After(log, n - 1)
    requires AgreeOrPending(a, log, n - 1, s, t)
    ensures AgreeOrPending(a, log, n, a.After(log, n), a.Next(t, log[n - 1]))
  {
    var ev := log[n - 1];
    StepAgrees(a, s, t, ev, "");
    forall m ensures AgreeOn(a.Next(s, ev), a.Next(t, ev), m) || Pending(a, log, n, m) {
      StepAgrees(a, s, t, ev, m);
      if !AgreeOn(s, t, m) {
        PendingMoves(a, log, n, m);
      }
    }
  }

  lemma DroppedStep(a: Agent, log: seq<Event>, n: nat, s: Store, t: Store)
    requires 0 < n <= |log| && s == a.After(log, n - 1)
    requires AgreeOrPending(a, log, n - 1, s, t) && Replaced(a, log, n - 1)
    ensures AgreeOrPending(a, log, n, a.After(log, n), t)
  {
    forall m ensures AgreeOn(a.After(log, n), t, m) || Pending(a, log, n, m) {
      if m != log[n - 1].body.manifestId && !AgreeOn(s, t, m) {
        PendingMoves(a, log, n, m);
      }
    }
  }

  lemma DropReplaced(a: Agent, log: seq<Event>, keep: seq<bool>)
    requires JudgesByEntry(a) && |log| == |keep|
    requires forall i: nat :: i < |log| && !keep[i] ==> Replaced(a, log, i)
    ensures a.Final(Sift(log, keep, |log|)) == a.Final(log)
  {
    DroppedStaysPending(a, log, keep, |log|);
    assert forall m :: !Pending(a, log, |log|, m);
    StoresEqual(a.Final(log), a.Final(Sift(log, keep, |log|)));
  }

  /** Behind the refusal layer, dropping any set of replaced assignments does not change the
      final state, although withdrawals in between may fare differently. */
  lemma ReplacedAssignsAreRedundant(parse: Parser, log: seq<Event>, keep: seq<bool>)
    requires |log| == |keep|
    requires forall i: nat :: i < |log| && !keep[i] ==> Replaced(Gated(parse), log, i)
    ensures Gated(parse).Final(Sift(log, keep, |log|)) == Gated(parse).Final(log)
  {
    GatedJudgesByEntry(parse);
    DropReplaced(Gated(parse), log, keep);
  }

  // ---- dropping one assignment: exactly when ----

  function Without(log: seq<Event>, d: nat): seq<Event>
    requires d < |log|
  {
    log[..d] + log[d + 1..]
  }

  predicate WouldWithdraw(a: Agent, log: seq<Event>, k: int, m: string, entry: WantedEntry) {
    0 <= k < |log| && Withdraws(a.After(log, k).leaseHolder, log[k], m, entry)
  }

  /** The id is assigned or withdrawn, with success, after event `d`. */
  ghost predicate Touched(a: Agent, log: seq<Event>, d: int, m: string) {
    exists k :: d < k && AcceptedTouch(a, log, k, m)
  }

  /** Another assignment of the id was accepted later; or, where a withdrawal was, none was stored
      before or its own policy would have let a later withdrawal through; or, where neither was,
      the very same entry was already stored. */
  ghost predicate Redundant(a: Agent, log: seq<Event>, d: nat)
    requires d < |log| && log[d].body.Assign?
  {
    var m := log[d].body.manifestId;
    var before := a.After(log, d).manifests;
    || Pending(a, log, d + 1, m)
    || if Touched(a, log, d, m) then
         m !in before || exists k :: d < k && WouldWithdraw(a, log, k, m, before[m])
       else m in before && before[m] == EntryFor(a.parse, log[d])
  }

  lemma WithoutStep(a: Agent, log: seq<Event>, d: nat, n: nat)
    requires d < n <= |log|
    ensures |Without(log, d)| == |log| - 1
    ensures n == d + 1 ==> a.After(Without(log, d), n - 1) == a.After(log, d)
    ensures n > d + 1 ==> a.After(Without(log, d), n - 1) == a.Next(a.After(Without(log, d), n - 2), log[n - 1])
  {
    if n == d + 1 {
      AfterPrefix(a, Without(log, d), log, d);
    } else {
      assert Without(log, d)[n - 2] == log[n - 1];
    }
  }

  /** The two states differ at most in what they store for one id. */
  ghost predicate ApartOnlyOn(s: Store, t: Store, m: string) {
    SameLease(s, t) && forall other :: other == m || AgreeOn(s, t, other)
  }

  lemma ApartStep(a: Agent, s: Store, t: Store, ev: Event, m: string)
    requires JudgesByEntry(a) && ApartOnlyOn(s, t, m)
    ensures ApartOnlyOn(a.Next(s, ev), a.Next(t, ev), m)
  {
    var s', t' := a.Next(s, ev), a.Next(t, ev);
    StepAgrees(a, s, t, ev, m);
    forall other ensures other == m || AgreeOn(s', t', other) {
      StepAgrees(a, s, t, ev, other);
    }
  }

  lemma ApartOnce(a: Agent, s: Store, ev: Event)
    requires ev.body.Assign?
    ensures ApartOnlyOn(a.Next(s, ev), s, ev.body.manifestId)
  {
  }

  /** The state of the shorter log at the time of the first `n` events of the full one. */
  function Shorter(a: Agent, log: seq<Event>, d: nat, n: nat): Store
    requires d < n <= |log|
  {
    a.After(Without(log, d), n - 1)
  }

  lemma ShorterStep(a: Agent, log: seq<Event>, d: nat, n: nat)
    requires d < n <= |log|
    ensures Shorter(a, log, d, n) ==
      if n == d + 1 then a.After(log, d) else a.Next(Shorter(a, log, d, n - 1), log[n - 1])
  {
    WithoutStep(a, log, d, n);
  }

  /** Only the dropped id can tell the two runs apart. */
  lemma {:induction false} OthersAgree(a: Agent, log: seq<Event>, d: nat, n: nat)
    requires JudgesByEntry(a) && d < n <= |log| && log[d].body.Assign?
    ensures ApartOnlyOn(a.After(log, n), Shorter(a, log, d, n), log[d].body.manifestId)
  {
    var m := log[d].body.manifestId;
    ShorterStep(a, log, d, n);
    if n > d + 1 {
      OthersAgree(a, log, d, n - 1);
      ApartStep(a, a.After(log, n - 1), Shorter(a, log, d, n - 1), log[n - 1], m);
    } else {
      ApartOnce(a, a.After(log, d), log[d]);
    }
  }

  lemma TogetherNext(a: Agent, s: Store, t: Store, ev: Event, m: string)
    requires JudgesByEntry(a) && SameLease(s, t)
    requires AgreeOn(s, t, m) || (a.Accepts(s, ev) && ev.body.Assign? && ev.body.manifestId == m)
    ensures AgreeOn(a.Next(s, ev), a.Next(t, ev), m)
  {
    StepAgrees(a, s, t, ev, m);
  }

  /** A later accepted assignment of the dropped id brings the two runs together for good. */
  lemma {:induction false} TogetherAfter(a: Agent, log: seq<Event>, d: nat, k: nat, n: nat, m: string)
    requires JudgesByEntry(a) && d < k < n <= |log| && log[d].body.Assign? && m == log[d].body.manifestId
    requires AcceptedAssign(a, log, k, m)
    ensures AgreeOn(a.After(log, n), Shorter(a, log, d, n), m)
  {
    OthersAgree(a, log, d, n - 1);
    ShorterStep(a, log, d, n);
    if n > k + 1 {
      TogetherAfter(a, log, d, k, n - 1, m);
    }
    TogetherNext(a, a.After(log, n - 1), Shorter(a, log, d, n - 1), log[n - 1], m);
  }

  /** What was stored before stays until its own policy lets a withdrawal through. */
  ghost predicate OldEntry(a: Agent, log: seq<Event>, d: nat, n: nat, m: string, before: Store, t: Store) {
    && (m in t.manifests <==>
          m in before.manifests && forall k :: d < k < n ==> !WouldWithdraw(a, log, k, m, before.manifests[m]))
    && (m in t.manifests ==> t.manifests[m] == before.manifests[m])
  }

  lemma {:induction false} OldEntryStays(a: Agent, log: seq<Event>, d: nat, n: nat, m: string)
    requires JudgesByEntry(a) && d < n <= |log| && log[d].body.Assign? && log[d].body.manifestId == m
    requires !Pending(a, log, d + 1, m)
    ensures OldEntry(a, log, d, n, m, a.After(log, d), Shorter(a, log, d, n))
  {
    ShorterStep(a, log, d, n);
    if n > d + 1 {
      OldEntryStays(a, log, d, n - 1, m);
      OthersAgree(a, log, d, n - 1);
      NonePending(a, log, d, n, m);
      OldEntryNext(a, log, d, n, m, a.After(log, d), a.After(log, n - 1), Shorter(a, log, d, n - 1));
    }
  }

  lemma NonePending(a: Agent, log: seq<Event>, d: nat, n: nat, m: string)
    requires d + 1 < n <= |log| && !Pending(a, log, d + 1, m)
    ensures log[n - 1].body.Assign? && log[n - 1].body.manifestId == m ==> !a.Accepts(a.After(log, n - 1), log[n - 1])
  {
    assert !AcceptedAssign(a, log, n - 1, m);
  }

  lemma OldEntryNext(a: Agent, log: seq<Event>, d: nat, n: nat, m: string, before: Store, s: Store, t: Store)
    requires JudgesByEntry(a) && d + 1 < n <= |log| && s == a.After(log, n - 1) && SameLease(s, t)
    requires OldEntry(a, log, d, n - 1, m, before, t)
    requires log[n - 1].body.Assign? && log[n - 1].body.manifestId == m ==> !a.Accepts(s, log[n - 1])
    ensures OldEntry(a, log, d, n, m, before, a.Next(t, log[n - 1]))
  {
    EntryByWithdrawal(a, s, t, log[n - 1], m);
    OldEntryMoves(a, log, d, n, m, before, s, t, a.Next(t, log[n - 1]));
  }

  lemma EntryByWithdrawal(a: Agent, s: Store, t: Store, ev: Event, m: string)
    requires JudgesByEntry(a) && SameLease(s, t)
    requires ev.body.Assign? && ev.body.manifestId == m ==> !a.Accepts(s, ev)
    ensures
      var t' := a.Next(t, ev);
      && (m in t'.manifests <==> m in t.manifests && !Withdraws(s.leaseHolder, ev, m, t.manifests[m]))
      && (m in t'.manifests ==> t'.manifests[m] == t.manifests[m])
  {
    StepAgrees(a, s, t, ev, m);
    assert WithdrawalRule(a, t, ev, m);
  }

  lemma OldEntryMoves(
      a: Agent, log: seq<Event>, d: nat, n: nat, m: string, before: Store, s: Store, t: Store, t': Store)
    requires d + 1 < n <= |log| && s == a.After(log, n - 1)
    requires OldEntry(a, log, d, n - 1, m, before, t)
    requires m in t'.manifests <==> m in t.manifests && !Withdraws(s.leaseHolder, log[n - 1], m, t.manifests[m])
    requires m in t'.manifests ==> t'.manifests[m] == t.manifests[m]
    ensures OldEntry(a, log, d, n, m, before, t')
  {
    if m in before.manifests {
      var entry := before.manifests[m];
      assert WouldWithdraw(a, log, n - 1, m, entry) <==> Withdraws(s.leaseHolder, log[n - 1], m, entry);
    }
  }

  /** What the full log leaves for the dropped id. */
  lemma FullLogEntry(a: Agent, log: seq<Event>, d: nat, m: string)
    requires d < |log| && AcceptedAssign(a, log, d, m) && !Pending(a, log, d + 1, m)
    ensures
      var final := a.Final(log).manifests;
      if Touched(a, log, d, m) then m !in final
      else m in final && final[m] == EntryFor(a.parse, log[d])
  {
    EntriesAreLastAssigns(a, log, |log|, m);
    if Touched(a, log, d, m) {
      var k :| d < k && AcceptedTouch(a, log, k, m);
      if i :| Defines(a, log, i, |log|, m) {
        assert i <= d ==> i < k;
        assert AcceptedAssign(a, log, i, m);
        assert false;
      }
    } else {
      assert Defines(a, log, d, |log|, m);
    }
  }

  /** In the full log, a withdrawal that the dropped entry admits is accepted while that entry stands. */
  lemma WithdrawalLands(a: Agent, log: seq<Event>, d: nat, k: int, m: string)
    requires JudgesByEntry(a) && d < k && d < |log| && AcceptedAssign(a, log, d, m)
    requires !Touched(a, log, d, m)
    ensures !WouldWithdraw(a, log, k, m, EntryFor(a.parse, log[d]))
  {
    if WouldWithdraw(a, log, k, m, EntryFor(a.parse, log[d])) {
      EntriesAreLastAssigns(a, log, k, m);
      assert Defines(a, log, d, k, m);
      WithdrawalAccepted(a, a.After(log, k), log[k], m, EntryFor(a.parse, log[d]));
      assert AcceptedTouch(a, log, k, m);
    }
  }

  lemma WithdrawalAccepted(a: Agent, s: Store, ev: Event, m: string, entry: WantedEntry)
    requires JudgesByEntry(a) && m in s.manifests && s.manifests[m] == entry && Withdraws(s.leaseHolder, ev, m, entry)
    ensures a.Accepts(s, ev)
  {
    assert WithdrawalRule(a, s, ev, m);
  }

  lemma DropOne(a: Agent, log: seq<Event>, d: nat)
    requires JudgesByEntry(a) && d < |log| && a.AcceptedAt(log, d) && log[d].body.Assign?
    ensures a.Final(Without(log, d)) == a.Final(log) <==> Redundant(a, log, d)
  {
    var m := log[d].body.manifestId;
    OthersAgree(a, log, d, |log|);
    EqualWhenAgreed(a.Final(log), Shorter(a, log, d, |log|), m);
    if Pending(a, log, d + 1, m) {
      var k :| d + 1 <= k && AcceptedAssign(a, log, k, m);
      TogetherAfter(a, log, d, k, |log|, m);
    } else {
      DropLast(a, log, d, m);
    }
  }

  lemma DropLast(a: Agent, log: seq<Event>, d: nat, m: string)
    requires JudgesByEntry(a) && d < |log| && AcceptedAssign(a, log, d, m) && !Pending(a, log, d + 1, m)
    ensures AgreeOn(a.Final(log), Shorter(a, log, d, |log|), m) <==> Redundant(a, log, d)
  {
    OldEntryStays(a, log, d, |log|, m);
    FullLogEntry(a, log, d, m);
    NoWithdrawalLands(a, log, d, m);
    AgreesIffRedundant(a, log, d, m, a.After(log, d), a.Final(log), Shorter(a, log, d, |log|));
  }

  lemma NoWithdrawalLands(a: Agent, log: seq<Event>, d: nat, m: string)
    requires JudgesByEntry(a) && d < |log| && AcceptedAssign(a, log, d, m)
    ensures Touched(a, log, d, m) || forall k :: d < k ==> !WouldWithdraw(a, log, k, m, EntryFor(a.parse, log[d]))
  {
    if !Touched(a, log, d, m) {
      forall k | d < k ensures !WouldWithdraw(a, log, k, m, EntryFor(a.parse, log[d])) {
        WithdrawalLands(a, log, d, k, m);
      }
    }
  }

  lemma EqualWhenAgreed(s: Store, t: Store, m: string)
    requires ApartOnlyOn(s, t, m)
    ensures AgreeOn(s, t, m) <==> s == t
  {
    if AgreeOn(s, t, m) {
      forall other ensures AgreeOn(s, t, other) {
        assert other == m || AgreeOn(s, t, other);
      }
      StoresEqual(s, t);
    }
  }

  lemma AgreesIffRedundant(a: Agent, log: seq<Event>, d: nat, m: string, before: Store, s: Store, t: Store)
    requires d < |log| && log[d].body.Assign? && m == log[d].body.manifestId && before == a.After(log, d)
    requires !Pending(a, log, d + 1, m)
    requires OldEntry(a, log, d, |log|, m, before, t)
    requires
      if Touched(a, log, d, m) then m !in s.manifests
      else m in s.manifests && s.manifests[m] == EntryFor(a.parse, log[d])
    requires Touched(a, log, d, m) ||
      forall k :: d < k ==> !WouldWithdraw(a, log, k, m, EntryFor(a.parse, log[d]))
    ensures AgreeOn(s, t, m) <==> Redundant(a, log, d)
  {
  }

  /** Behind the refusal layer, dropping one accepted assignment from a log leaves the final state
      as it was exactly when the assignment is redundant. */
  lemma DropOneIff(parse: Parser, log: seq<Event>, d: nat)
    requires d < |log| && Gated(parse).AcceptedAt(log, d) && log[d].body.Assign?
    ensures Gated(parse).Final(Without(log, d)) == Gated(parse).Final(log) <==> Redundant(Gated(parse), log, d)
  {
    GatedJudgesByEntry(parse);
    DropOne(Gated(parse), log, d);
  }

  /** Being superseded is not enough behind the refusal layer. Here the assignment at 2 is withdrawn
      later, but without it the withdrawal is judged, and refused, by the entry of the one before. */
  lemma SupersededIsNotEnough(parse: Parser, alice: NodeId, m: string, strict: string, lax: string)
    requires parse(strict) == Some(Profile(None, 0, [], ["assign"])) && parse(lax) == Some(Profile(None, 0, [], []))
    ensures
      var log := [Event(alice, 1, ClaimLease(alice)), Event(alice, 1, Assign(m, strict)),
                  Event(alice, 1, Assign(m, lax)), Event(alice, 1, Unassign(m))];
      && Superseded(Gated(parse), log, 2)
      && m !in Gated(parse).Final(log).manifests
      && m in Gated(parse).Final(Without(log, 2)).manifests
  {
    var a := Gated(parse);
    var claim, first, second, last := Event(alice, 1, ClaimLease(alice)), Event(alice, 1, Assign(m, strict)),
      Event(alice, 1, Assign(m, lax)), Event(alice, 1, Unassign(m));
    var log := [claim, first, second, last];
    var s1 := Store(map[], Some(alice), 1);
    var s2 := Store(map[m := EntryFor(parse, first)], Some(alice), 1);
    var s3 := Store(map[m := EntryFor(parse, second)], Some(alice), 1);
    StrictRefuses(parse, alice, m, strict, lax);
    assert a.After(log, 0) == EMPTY;
    assert a.After(log, 1) == s1;
    assert a.After(log, 2) == s2;
    assert a.After(log, 3) == s3;
    assert AcceptedTouch(a, log, 3, m);
    var short := Without(log, 2);
    assert short == [claim, first, last] && short[..2] == log[..2];
    AfterPrefix(a, short, log, 2);
  }

  lemma StrictRefuses(parse: Parser, alice: NodeId, m: string, strict: string, lax: string)
    requires parse(strict) == Some(Profile(None, 0, [], ["assign"])) && parse(lax) == Some(Profile(None, 0, [], []))
    ensures
      var a, first, second, last := Gated(parse), Event(alice, 1, Assign(m, strict)),
        Event(alice, 1, Assign(m, lax)), Event(alice, 1, Unassign(m));
      var s1, s2, s3 := Store(map[], Some(alice), 1), Store(map[m := EntryFor(parse, first)], Some(alice), 1),
        Store(map[m := EntryFor(parse, second)], Some(alice), 1);
      && a.Next(EMPTY, Event(alice, 1, ClaimLease(alice))) == s1
      && a.Accepts(s1, first) && a.Next(s1, first) == s2
      && a.Accepts(s2, second) && a.Next(s2, second) == s3
      && a.Accepts(s3, last) && a.Next(s3, last) == s1 && !a.Accepts(s2, last)
  {
    var last := Event(alice, 1, Unassign(m));
    var s2, s3 := Store(map[m := EntryFor(parse, Event(alice, 1, Assign(m, strict)))], Some(alice), 1),
      Store(map[m := EntryFor(parse, Event(alice, 1, Assign(m, lax)))], Some(alice), 1);
    StrictAndLax(parse(strict).value, parse(lax).value);
    GatedWithdrawal(parse, s2, last, m);
    GatedWithdrawal(parse, s3, last, m);
    assert s3.manifests - {m} == map[];
  }

  lemma StrictAndLax(strict: Profile, lax: Profile)
    requires strict.operationsAllowed == ["assign"] && lax.operationsAllowed == []
    ensures Permits(strict, "assign") && !Permits(strict, "unassign")
    ensures Permits(lax, "assign") && Permits(lax, "unassign")
  {
    assert DEFAULT_SAFE_OPS[0] == "assign" && DEFAULT_SAFE_OPS[1] == "unassign";
    assert strict.operationsAllowed[0] == "assign";
    assert |"assign"| != |"unassign"|;
  }
}
