/** The append-only event log with chain verification. */
module Chain {
  import opened Wrappers
  import opened NodeIds
  import opened Events

  datatype ChainError =
    | UnknownIssuer(issuer: NodeId)
    | Verification(cause: VerifyError)
    | PrevHashMismatch(expectedHash: EventHash, gotHash: EventHash)
    | EpochRegression(head: LeaseEpoch, gotEpoch: LeaseEpoch)
    | BadGenesisSeq(gotSeq: Word)
    | EpochResetSeqNotZero(newEpoch: LeaseEpoch, gotSeq: Word)
    | IssuerSwitchInEpoch(epoch: LeaseEpoch, expected: NodeId, got: NodeId)
    | SeqGap(issuer: NodeId, expectedSeq: Word, gotSeq: Word)

  /** Trusted keys. Node ids hash and compare by suffix, so the suffix is the key. */
  datatype TrustStore = TrustStore(keys: map<string, PublicKey>) {
    function Get(node: NodeId): Option<PublicKey> {
      var k := node.HexSuffix();
      if k in keys then Some(keys[k]) else None
    }
  }

  function NextSeq(s: Word): Word {
    (s + 1) % U64
  }

  function HeadHash(crypto: Crypto, log: seq<Envelope>): EventHash {
    if log == [] then 0 else crypto.hash(log[|log| - 1].core)
  }

  /** Where an envelope stands relative to the accepted history: `Ok` when it continues it. */
  function Position(log: seq<Envelope>, c: Core): Result<(), ChainError> {
    if log == [] then
      if c.number == 0 then Ok(()) else Err(BadGenesisSeq(c.number))
    else
      var head := log[|log| - 1].core;
      if c.epoch < head.epoch then Err(EpochRegression(head.epoch, c.epoch))
      else if c.epoch > head.epoch then
        if c.number == 0 then Ok(()) else Err(EpochResetSeqNotZero(c.epoch, c.number))
      else if !c.issuer.Same(head.issuer) then
        Err(IssuerSwitchInEpoch(head.epoch, head.issuer, c.issuer))
      else if c.number != NextSeq(head.number) then
        Err(SeqGap(c.issuer, NextSeq(head.number), c.number))
      else Ok(())
  }

  /** The outcome of appending an envelope, as a function of the accepted history alone. */
  function Verdict(crypto: Crypto, trust: TrustStore, log: seq<Envelope>, env: Envelope): Result<(), ChainError> {
    match trust.Get(env.core.issuer)
    case None => Err(UnknownIssuer(env.core.issuer))
    case Some(key) =>
      match crypto.Verify(key, env)
      case Err(e) => Err(Verification(e))
      case Ok(_) =>
        if env.core.prevHash != HeadHash(crypto, log) then
          Err(PrevHashMismatch(HeadHash(crypto, log), env.core.prevHash))
        else Position(log, env.core)
  }

  /** An envelope's place in the history: it names the previous one and continues its epoch. */
  ghost predicate LinkedAt(crypto: Crypto, log: seq<Envelope>, i: nat)
    requires i < |log|
  {
    log[i].core.prevHash == HeadHash(crypto, log[..i]) && Position(log[..i], log[i].core).Ok?
  }

  ghost predicate Linked(crypto: Crypto, log: seq<Envelope>) {
    forall i :: 0 <= i < |log| ==> LinkedAt(crypto, log, i)
  }

  lemma LinkedPrefix(crypto: Crypto, log: seq<Envelope>, n: nat)
    requires Linked(crypto, log) && n <= |log|
    ensures Linked(crypto, log[..n])
  {
    forall i | 0 <= i < n ensures LinkedAt(crypto, log[..n], i) {
      assert LinkedAt(crypto, log, i);
      assert log[..n][..i] == log[..i];
    }
  }

  lemma LinkedSnoc(crypto: Crypto, trust: TrustStore, log: seq<Envelope>, env: Envelope)
    requires Linked(crypto, log) && Verdict(crypto, trust, log, env).Ok?
    ensures Linked(crypto, log + [env])
  {
    var log' := log + [env];
    forall i | 0 <= i < |log'| ensures LinkedAt(crypto, log', i) {
      assert log'[..i] == log[..i];
      if i < |log| {
        assert LinkedAt(crypto, log, i);
      } else {
        assert log[..i] == log;
      }
    }
  }

  /** The log with its cached head. */
  class EventLog {
    const crypto: Crypto
    var events: seq<Envelope>
    var headHash: Option<EventHash>
    var headEpoch: LeaseEpoch
    var headIssuer: Option<NodeId>
    var headSeq: Option<Word>

    /** The history is linked and the cached fields describe its last envelope. */
    ghost predicate Valid()
      reads this
    {
      && Linked(crypto, events)
      && if events == [] then headHash == None && headEpoch == 0 && headIssuer == None && headSeq == None
      else
        var head := events[|events| - 1].core;
        && headHash == Some(crypto.hash(head)) && headEpoch == head.epoch
        && headIssuer == Some(head.issuer) && headSeq == Some(head.number)
    }

    constructor (crypto: Crypto)
      ensures Valid() && events == [] && this.crypto == crypto
    {
      this.crypto := crypto;
      events, headHash, headEpoch, headIssuer, headSeq := [], None, 0, None, None;
    }

    /** Accepts exactly the envelopes that continue the history, in constant time from
        the cached head; a rejected envelope changes nothing. */
    method Append(env: Envelope, trust: TrustStore) returns (r: Result<(), ChainError>)
      requires Valid()
      modifies this
      ensures Valid()
      ensures r == Verdict(crypto, trust, old(events), env)
      ensures r.Ok? ==> events == old(events) + [env]
      ensures r.Err? ==> unchanged(this)
    {
      var key := trust.Get(env.core.issuer);
      if key.None? {
        return Err(UnknownIssuer(env.core.issuer));
      }
      var verified := crypto.Verify(key.value, env);
      if verified.Err? {
        return Err(Verification(verified.error));
      }
      var head := headHash.OrElse(0);
      if env.core.prevHash != head {
        return Err(PrevHashMismatch(head, env.core.prevHash));
      }
      if env.core.epoch < headEpoch {
        return Err(EpochRegression(headEpoch, env.core.epoch));
      }
      if events == [] {
        if env.core.number != 0 {
          return Err(BadGenesisSeq(env.core.number));
        }
      } else if env.core.epoch > headEpoch {
        if env.core.number != 0 {
          return Err(EpochResetSeqNotZero(env.core.epoch, env.core.number));
        }
      } else {
        var issuer := headIssuer.value;
        if !env.core.issuer.Same(issuer) {
          return Err(IssuerSwitchInEpoch(headEpoch, issuer, env.core.issuer));
        }
        var want := NextSeq(headSeq.value);
        if env.core.number != want {
          return Err(SeqGap(env.core.issuer, want, env.core.number));
        }
      }
      LinkedSnoc(crypto, trust, events, env);
      headHash := Some(crypto.hash(env.core));
      headEpoch := env.core.epoch;
      headIssuer := Some(env.core.issuer);
      headSeq := Some(env.core.number);
      events := events + [env];
      r := Ok(());
    }
  }

  // ---- acceptance, spelled out ----

  /** Equal node ids have one trusted key, filed under the suffix. */
  lemma SameNodesShareKeys(trust: TrustStore, x: NodeId, y: NodeId, role: string, hex: string)
    ensures x.Same(y) ==> trust.Get(x) == trust.Get(y)
    ensures '-' !in hex ==>
      trust.Get(NodeId(role + "-" + hex)) == if hex in trust.keys then Some(trust.keys[hex]) else None
  {
    if '-' !in hex {
      SuffixAfterRole(role, hex);
    }
  }

  /** An envelope that may follow another: later in the same epoch, or first in a higher one. */
  predicate Follows(last: Core, c: Core) {
    || (c.epoch == last.epoch && c.issuer.Same(last.issuer) && c.number == (last.number + 1) % 0x1_0000_0000_0000_0000)
    || (c.epoch > last.epoch && c.number == 0)
  }

  /** Exactly the envelopes are accepted that are of version 1, signed under the trusted key of their
      issuer, linked to the last one, and placed where one may follow. */
  lemma AcceptedIff(crypto: Crypto, trust: TrustStore, log: seq<Envelope>, env: Envelope)
    ensures Verdict(crypto, trust, log, env).Ok? <==>
      && trust.Get(env.core.issuer).Some? && env.core.schema == 1
      && crypto.signs(trust.Get(env.core.issuer).value, env.core, env.signature)
      && if log == [] then env.core.prevHash == 0 && env.core.number == 0
         else env.core.prevHash == crypto.hash(log[|log| - 1].core) && Follows(log[|log| - 1].core, env.core)
  {
  }

  /** The checks come in a fixed order, and each error carries what was expected and what came. */
  lemma RejectionReason(crypto: Crypto, trust: TrustStore, log: seq<Envelope>, env: Envelope)
    ensures
      var r, c := Verdict(crypto, trust, log, env), env.core;
      var key, head := trust.Get(c.issuer), if log == [] then 0 else crypto.hash(log[|log| - 1].core);
      if key.None? then r == Err(UnknownIssuer(c.issuer))
      else if c.schema != 1 then r == Err(Verification(SchemaMismatch(c.schema, 1)))
      else if !crypto.signs(key.value, c, env.signature) then r == Err(Verification(BadSignature))
      else if c.prevHash != head then r == Err(PrevHashMismatch(head, c.prevHash))
      else if log == [] then (c.number != 0 ==> r == Err(BadGenesisSeq(c.number)))
      else PlaceReason(log[|log| - 1].core, c, r)
  {
  }

  predicate PlaceReason(last: Core, c: Core, r: Result<(), ChainError>) {
    && (c.epoch < last.epoch ==> r == Err(EpochRegression(last.epoch, c.epoch)))
    && (c.epoch > last.epoch && c.number != 0 ==> r == Err(EpochResetSeqNotZero(c.epoch, c.number)))
    && (c.epoch == last.epoch && !c.issuer.Same(last.issuer) ==>
          r == Err(IssuerSwitchInEpoch(last.epoch, last.issuer, c.issuer)))
    && (c.epoch == last.epoch && c.issuer.Same(last.issuer) && !Follows(last, c) ==>
          r == Err(SeqGap(c.issuer, (last.number + 1) % 0x1_0000_0000_0000_0000, c.number)))
  }

  // ---- what every history satisfies ----

  /** How an accepted event relates to the one before it. */
  lemma Consecutive(crypto: Crypto, log: seq<Envelope>, j: nat)
    requires Linked(crypto, log) && j < |log|
    ensures log[j].core.prevHash == HeadHash(crypto, log[..j])
    ensures j == 0 ==> log[j].core.number == 0
    ensures j > 0 ==>
      var prev, c := log[j - 1].core, log[j].core;
      && prev.epoch <= c.epoch
      && (prev.epoch == c.epoch ==> c.issuer.Same(prev.issuer) && c.number == NextSeq(prev.number))
      && (prev.epoch < c.epoch ==> c.number == 0)
  {
    assert LinkedAt(crypto, log, j);
    if j > 0 {
      assert log[..j][|log[..j]| - 1] == log[j - 1];
    }
  }

  /** The sequence number `k` events further on. */
  function Advance(s: Word, k: nat): Word {
    if k == 0 then s else NextSeq(Advance(s, k - 1))
  }

  lemma NextWraps(n: nat)
    ensures NextSeq(n % U64) == (n + 1) % U64
  {
  }

  lemma {:induction false} AdvanceWraps(s: Word, k: nat)
    ensures Advance(s, k) == (s + k) % U64
  {
    if k > 0 {
      AdvanceWraps(s, k - 1);
      NextWraps(s + (k - 1));
    }
  }

  /** Epochs never go back, one epoch has one issuer, and its events are numbered
      consecutively. */
  lemma {:induction false} OneIssuerPerEpoch(crypto: Crypto, log: seq<Envelope>, i: nat, j: nat)
    requires Linked(crypto, log) && i <= j < |log|
    ensures log[i].core.epoch <= log[j].core.epoch
    ensures log[i].core.epoch == log[j].core.epoch ==>
      log[i].core.issuer.Same(log[j].core.issuer) && log[j].core.number == Advance(log[i].core.number, j - i)
    decreases j
  {
    if i < j {
      OneIssuerPerEpoch(crypto, log, i, j - 1);
      Consecutive(crypto, log, j);
    }
  }

  /** Epoch and sequence number identify an accepted event. */
  lemma SequenceNumbersAreUnique(crypto: Crypto, log: seq<Envelope>, i: nat, j: nat)
    requires Linked(crypto, log) && |log| <= U64
    requires i < |log| && j < |log|
    requires log[i].core.epoch == log[j].core.epoch && log[i].core.number == log[j].core.number
    ensures i == j
  {
    var lo, hi := if i < j then i else j, if i < j then j else i;
    OneIssuerPerEpoch(crypto, log, lo, hi);
    AdvanceWraps(log[lo].core.number, hi - lo);
  }

  function Cores(log: seq<Envelope>): set<Core> {
    set e | e in log :: e.core
  }

  /** No two different ones of these cores have the same hash, and none has that of the empty log. */
  ghost predicate CollisionFree(crypto: Crypto, cores: set<Core>) {
    && (forall x, y | x in cores && y in cores :: crypto.hash(x) == crypto.hash(y) ==> x == y)
    && (forall x | x in cores :: crypto.hash(x) != 0)
  }

  ghost predicate SameCores(a: seq<Envelope>, b: seq<Envelope>) {
    |a| == |b| && forall i :: 0 <= i < |a| ==> a[i].core == b[i].core
  }

  /** The head hash determines the whole history: two agents, each with its own trusted
      keys, that agree on it have accepted the same events in the same order. */
  lemma {:induction false} HeadHashPinsHistory(crypto: Crypto, a: seq<Envelope>, b: seq<Envelope>)
    requires CollisionFree(crypto, Cores(a) + Cores(b)) && Linked(crypto, a) && Linked(crypto, b)
    requires HeadHash(crypto, a) == HeadHash(crypto, b)
    ensures SameCores(a, b)
  {
    assert a != [] ==> a[|a| - 1].core in Cores(a);
    assert b != [] ==> b[|b| - 1].core in Cores(b);
    if a != [] && b != [] {
      var m, n := |a| - 1, |b| - 1;
      assert a[m].core == b[n].core;
      Consecutive(crypto, a, m);
      Consecutive(crypto, b, n);
      LinkedPrefix(crypto, a, m);
      LinkedPrefix(crypto, b, n);
      assert Cores(a[..m]) + Cores(b[..n]) <= Cores(a) + Cores(b);
      HeadHashPinsHistory(crypto, a[..m], b[..n]);
      assert a == a[..m] + [a[m]] && b == b[..n] + [b[n]];
    }
  }

  /** Signatures are not pinned: with another signature on an accepted envelope, neither the head hash
      nor anything appended after it can tell, and the envelope itself is accepted exactly when that
      signature verifies. */
  lemma SignaturesAreNotPinned(
      crypto: Crypto, trust: TrustStore, log: seq<Envelope>, k: nat, sig: Signature, key: PublicKey)
    requires k < |log| && Verdict(crypto, trust, log[..k], log[k]).Ok?
    requires trust.Get(log[k].core.issuer) == Some(key)
    ensures
      var log' := log[k := Envelope(log[k].core, sig)];
      && (Verdict(crypto, trust, log'[..k], log'[k]).Ok? <==> crypto.signs(key, log[k].core, sig))
      && HeadHash(crypto, log') == HeadHash(crypto, log)
      && forall i, t, e :: 0 <= i <= |log| ==> Verdict(crypto, t, log'[..i], e) == Verdict(crypto, t, log[..i], e)
  {
    var log' := log[k := Envelope(log[k].core, sig)];
    assert log'[..k] == log[..k];
  }
}
