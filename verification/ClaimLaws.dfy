/** What a claim command decides, read off the journal it is appended to: who may
    acquire, renew and release, what each leaves behind, and that before its
    expiry a lease is only its owner's to move or end.

    A run is any sequence of journal entries, as in LeaseSafety.dfy. */
module ClaimLaws {
  import opened Options
  import opened Leases
  import opened Journal
  import opened LeaseSafety

  /** The claim the entry at `i` asks for, decided there. */
  ghost function VerdictAt(j: seq<Entry>, i: nat): Verdict
    requires i < |j| && j[i].Claim?
  {
    Operate(Replay(j[..i]), j[i].request, j[i].physicalNow).verdict
  }

  /** Its instant: the later of the floor before it and its own clock. */
  ghost function DecidedAt(j: seq<Entry>, i: nat): Instant
    requires i < |j| && j[i].Claim?
  {
    var floor := Replay(j[..i]).floor;
    if floor.Some? && floor.value >= j[i].physicalNow then floor.value else j[i].physicalNow
  }

  ghost function RecordBefore(j: seq<Entry>, i: nat): ClaimRecord
    requires i < |j| && j[i].Claim?
  {
    RecordOf(Replay(j[..i]), j[i].request.item)
  }

  ghost function RecordAfter(j: seq<Entry>, i: nat): ClaimRecord
    requires i < |j| && j[i].Claim?
  {
    RecordOf(Replay(j[..i + 1]), j[i].request.item)
  }

  lemma ReplayNext(j: seq<Entry>, i: nat)
    requires i < |j|
    ensures Replay(j[..i + 1]) == ReplayEntry(Replay(j[..i]), j[i])
  {
    assert j[..i + 1][..i] == j[..i];
  }

  /** An acquire succeeds exactly when its witness is the record, no lease is
      live and an epoch is left; the lease then is the requester's own, of the
      next epoch, from now for as long as asked. */
  lemma AcquireExactly(j: seq<Entry>, i: nat)
    requires i < |j| && j[i].Claim? && j[i].request.Acquire?
    ensures var request, record, at := j[i].request, RecordBefore(j, i), DecidedAt(j, i);
            var live := record.active.Some? && at < record.active.value.expiresAt;
            && (VerdictAt(j, i).ClaimConflict? <==> record != request.expected)
            && (VerdictAt(j, i).ClaimHeld? <==> record == request.expected && live)
            && (VerdictAt(j, i).EpochExhausted? <==> record == request.expected && !live && record.lastEpoch >= MAX_EPOCH)
            && (VerdictAt(j, i).Acquired? <==> record == request.expected && !live && record.lastEpoch < MAX_EPOCH)
            && (VerdictAt(j, i).Acquired? ==>
                  && VerdictAt(j, i).lease == Lease(request.owner, record.lastEpoch + 1, at, at + request.leaseMs)
                  && RecordAfter(j, i) == ClaimRecord(record.lastEpoch + 1, Some(VerdictAt(j, i).lease)))
            && (!VerdictAt(j, i).Acquired? ==> RecordAfter(j, i) == record)
  {
    ReplayNext(j, i);
  }

  /** A renewal or release succeeds exactly when the owner, epoch and expiry it
      names are the lease's own and the lease is still live; a conflict when any
      of the three differs, an expiry when only the time does. */
  lemma RenewOrReleaseExactly(j: seq<Entry>, i: nat)
    requires i < |j| && j[i].Claim? && (j[i].request.Renew? || j[i].request.Release?)
    ensures var request, record, at := j[i].request, RecordBefore(j, i), DecidedAt(j, i);
            var named := record.active.Some? && record.active.value.owner == request.owner
                         && record.active.value.epoch == request.epoch
                         && record.active.value.expiresAt == request.expectedExpiresAt;
            && (VerdictAt(j, i).ClaimConflict? <==> !named)
            && (VerdictAt(j, i).ClaimExpired? <==> named && request.expectedExpiresAt <= at)
            && (VerdictAt(j, i).Renewed? <==> request.Renew? && named && at < request.expectedExpiresAt)
            && (VerdictAt(j, i).Released? <==> request.Release? && named && at < request.expectedExpiresAt)
            && (VerdictAt(j, i).Renewed? ==>
                  && VerdictAt(j, i).lease == record.active.value.(expiresAt := at + request.leaseMs)
                  && RecordAfter(j, i) == ClaimRecord(record.lastEpoch, Some(VerdictAt(j, i).lease)))
            && (VerdictAt(j, i).Released? ==>
                  && VerdictAt(j, i).lease == record.active.value
                  && RecordAfter(j, i) == ClaimRecord(record.lastEpoch, None))
            && (!VerdictAt(j, i).Renewed? && !VerdictAt(j, i).Released? ==> RecordAfter(j, i) == record)
  {
    ReplayNext(j, i);
  }

  /** Only a claim command on the item touches its record. */
  lemma OthersKeepRecord(j: seq<Entry>, i: nat, item: ItemId)
    requires i < |j| && !(j[i].Claim? && j[i].request.item == item && !j[i].request.Read?)
    ensures RecordOf(Replay(j[..i + 1]), item) == RecordOf(Replay(j[..i]), item)
  {
    ReplayNext(j, i);
  }

  /** A request of the lease's own owner, on the lease as it was. */
  ghost predicate ByOwner(e: Entry, item: ItemId, lease: Lease) {
    && e.Claim? && (e.request.Renew? || e.request.Release?)
    && e.request.item == item && e.request.owner == lease.owner
    && e.request.epoch == lease.epoch && e.request.expectedExpiresAt == lease.expiresAt
  }

  ghost predicate HoldsAt(j: seq<Entry>, n: nat, item: ItemId, lease: Lease)
    requires n <= |j|
  {
    RecordOf(Replay(j[..n]), item).active == Some(lease)
  }

  /** One entry that moves or ends a live lease is a request of its owner. */
  lemma LiveLeaseMoves(j: seq<Entry>, i: nat, item: ItemId, lease: Lease)
    requires i < |j| && HoldsAt(j, i, item, lease) && !HoldsAt(j, i + 1, item, lease)
    requires Replay(j[..i + 1]).floor.Some? && Replay(j[..i + 1]).floor.value < lease.expiresAt
    ensures ByOwner(j[i], item, lease)
  {
    ReplayNext(j, i);
    if j[i].Claim? && j[i].request.item == item && !j[i].request.Read? {
      if j[i].request.Acquire? {
        AcquireExactly(j, i);
      } else {
        RenewOrReleaseExactly(j, i);
      }
    } else {
      OthersKeepRecord(j, i, item);
    }
  }

  /** Before its expiry a lease is renewed, ended or replaced only by a request
      of its own owner: if it is gone while the floor is still below its expiry,
      such a request lies in between. */
  lemma {:induction false} LeaseIsItsOwners(j: seq<Entry>, a: nat, b: nat, item: ItemId, lease: Lease) returns (i: nat)
    requires a < b <= |j| && HoldsAt(j, a, item, lease) && !HoldsAt(j, b, item, lease)
    requires Replay(j[..b]).floor.Some? && Replay(j[..b]).floor.value < lease.expiresAt
    ensures a <= i < b && ByOwner(j[i], item, lease)
    decreases b
  {
    var k := b - 1;
    if HoldsAt(j, k, item, lease) {
      LiveLeaseMoves(j, k, item, lease);
      i := k;
    } else {
      assert j[..b][..k] == j[..k];
      NothingFalls(j[..b], k, item);
      RunAgreesFloor(j, a, k, item);
      i := LeaseIsItsOwners(j, a, k, item, lease);
    }
  }

  /** A replay that holds a lease has a floor, and keeps one. */
  lemma RunAgreesFloor(j: seq<Entry>, a: nat, k: nat, item: ItemId)
    requires a <= k <= |j| && RecordOf(Replay(j[..a]), item).active.Some?
    ensures Replay(j[..k]).floor.Some?
  {
    RunAgrees(j[..a], item);
    assert j[..k][..a] == j[..a];
    NothingFalls(j[..k], a, item);
  }
}
