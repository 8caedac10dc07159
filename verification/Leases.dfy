/** Claim leases: the clock floor and the acquire, renew and release
    operations of src/claim-operations.js.

    Instants are integers (milliseconds), epochs are naturals bounded by
    MAX_EPOCH, and item and owner identities are opaque naturals. */
module Leases {
  import opened Options

  type ItemId = nat
  type OwnerId = nat
  type Instant = int

  /** 2^64 - 1: the high-water mark past which no epoch is issued. */
  const MAX_EPOCH: nat := 18446744073709551615

  datatype Lease = Lease(owner: OwnerId, epoch: nat, issuedAt: Instant, expiresAt: Instant)

  datatype ClaimRecord = ClaimRecord(lastEpoch: nat, active: Option<Lease>)

  /** The claims array of the source holds one record per item, so it is a map. */
  datatype ClaimState = ClaimState(floor: Option<Instant>, claims: map<ItemId, ClaimRecord>)

  /** `expected` of an acquire is the whole observed record: a CAS witness. */
  datatype Request =
    | Acquire(item: ItemId, owner: OwnerId, leaseMs: nat, expected: ClaimRecord)
    | Renew(item: ItemId, owner: OwnerId, epoch: nat, expectedExpiresAt: Instant, leaseMs: nat)
    | Release(item: ItemId, owner: OwnerId, epoch: nat, expectedExpiresAt: Instant)
    | Read(item: ItemId)

  datatype Verdict =
    | Acquired(lease: Lease)
    | Renewed(lease: Lease)
    | Released(lease: Lease)
    | Observed
    | ClaimConflict
    | ClaimHeld
    | ClaimExpired
    | EpochExhausted

  const EMPTY_RECORD := ClaimRecord(0, None)
  const EMPTY_STATE := ClaimState(None, map[])

  function RecordOf(s: ClaimState, item: ItemId): ClaimRecord {
    if item in s.claims then s.claims[item] else EMPTY_RECORD
  }

  /** The effective time of a decision: the floor never yields to an earlier clock. */
  function Effective(floor: Option<Instant>, now: Instant): Instant {
    match floor
    case None => now
    case Some(f) => if now > f then now else f
  }

  function AdvanceClockFloor(s: ClaimState, now: Instant): ClaimState {
    s.(floor := Some(Effective(s.floor, now)))
  }

  predicate TupleMatches(active: Option<Lease>, owner: OwnerId, epoch: nat, expiresAt: Instant) {
    && active.Some?
    && active.value.owner == owner
    && active.value.epoch == epoch
    && active.value.expiresAt == expiresAt
  }

  /** What one request decides about the record it names, at effective time `at`. */
  function Decide(record: ClaimRecord, request: Request, at: Instant): Verdict {
    match request
    case Acquire(_, owner, leaseMs, expected) =>
      if record != expected then ClaimConflict
      else if record.active.Some? && at < record.active.value.expiresAt then ClaimHeld
      else if record.lastEpoch >= MAX_EPOCH then EpochExhausted
      else Acquired(Lease(owner, record.lastEpoch + 1, at, at + leaseMs))
    case Renew(_, owner, epoch, expiresAt, leaseMs) =>
      if !TupleMatches(record.active, owner, epoch, expiresAt) then ClaimConflict
      else if at >= record.active.value.expiresAt then ClaimExpired
      else Renewed(record.active.value.(expiresAt := at + leaseMs))
    case Release(_, owner, epoch, expiresAt) =>
      if !TupleMatches(record.active, owner, epoch, expiresAt) then ClaimConflict
      else if at >= record.active.value.expiresAt then ClaimExpired
      else Released(record.active.value)
    case Read(_) => Observed
  }

  /** The record after a verdict: only the three successes change it. */
  function Settle(record: ClaimRecord, verdict: Verdict): ClaimRecord {
    match verdict
    case Acquired(lease) => ClaimRecord(lease.epoch, Some(lease))
    case Renewed(lease) => record.(active := Some(lease))
    case Released(_) => record.(active := None)
    case _ => record
  }

  datatype Operated = Operated(state: ClaimState, verdict: Verdict)

  /** One operation on a copy of the state: the floor advances and the record
      exists afterwards, whatever the verdict. */
  function Operate(s: ClaimState, request: Request, now: Instant): Operated {
    var at := Effective(s.floor, now);
    var record := RecordOf(s, request.item);
    var verdict := Decide(record, request, at);
    Operated(ClaimState(Some(at), s.claims[request.item := Settle(record, verdict)]), verdict)
  }
}
