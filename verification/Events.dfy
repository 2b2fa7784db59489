/** The controller events that ride on the chain, and the envelopes that carry them. */
module Events {
  import opened Wrappers
  import opened NodeIds

  /** An unsigned 64-bit value. */
  type Word = n: nat | n < U64

  type LeaseEpoch = Word

  datatype EventBody =
    | ClaimLease(targetNode: NodeId)
    | ReleaseLease(targetNode: NodeId)
    | Assign(manifestId: string, manifestToml: string)
    | Unassign(manifestId: string)
    | Balloon(manifestId: string, targetMb: Word)
    | Heartbeat(freeMemoryMb: Word, freeVcpus: nat, running: seq<string>, lastAppliedHash: Option<string>)

  /** The part of an event that the agent's rules look at. */
  datatype Event = Event(issuer: NodeId, epoch: LeaseEpoch, body: EventBody)

  /** A 256-bit hash, as a number; zero is the hash before the first event. */
  type EventHash = n: nat | n < U64 * U64 * U64 * U64

  type Signature = nat

  type PublicKey = nat

  const SCHEMA_VERSION := 1

  /** The signed part of an envelope. */
  datatype Core = Core(
    schema: nat,
    issuer: NodeId,
    number: Word,
    epoch: LeaseEpoch,
    prevHash: EventHash,
    timestamp: Word,
    body: EventBody)

  datatype Envelope = Envelope(core: Core, signature: Signature) {
    function Payload(): Event {
      Event(core.issuer, core.epoch, core.body)
    }
  }

  datatype VerifyError = SchemaMismatch(got: nat, expected: nat) | BadSignature

  /** The hash and the signature check, about which nothing is assumed unless a lemma says so. */
  datatype Crypto = Crypto(
    hash: Core -> EventHash,
    signs: (PublicKey, Core, Signature) -> bool)
  {
    function Verify(key: PublicKey, e: Envelope): Result<(), VerifyError> {
      if e.core.schema != SCHEMA_VERSION then Err(SchemaMismatch(e.core.schema, SCHEMA_VERSION))
      else if !signs(key, e.core, e.signature) then Err(BadSignature)
      else Ok(())
    }
  }
}
