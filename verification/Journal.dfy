/** The append-only claim journal of src/claim-journal.js: its entries, their
    replay into claim state, and the questions other modules ask of it.

    Sequence numbers are positions: entry i of the sequence carries seq i + 1,
    which is what appendClaimEntry writes and readJournalEntries insists on. */
module Journal {
  import opened Options
  import opened Leases

  type Revision = nat       // opaque, one value per distinct byte string
  type OperationId = nat
  type AttemptId = nat
  type Namespace = nat
  type WorktreeId = nat

  const NAMESPACE: Namespace := 0

  datatype Command = PatchV1 | TransitionV1 | CreateV1

  datatype Fence = Fence(ns: Namespace, item: ItemId, owner: OwnerId, epoch: nat)

  /** A publish-claimed request. The digest of an operation identifies its whole
      request, so the request stands for its own digest. */
  datatype PublishRequest = PublishRequest(
    op: OperationId, ns: Namespace, item: ItemId,
    expected: Revision, candidate: Revision, fence: Fence)

  datatype RejectReason =
    | FenceNamespaceMismatch
    | FenceItemMismatch
    | NoActiveClaim
    | OwnerMismatch
    | EpochMismatch
    | FenceExpired
    | RevisionConflict
    | CandidateInvalid

  datatype Outcome =
    | Committed(revision: Revision, fence: Fence)
    | Rejected(reason: RejectReason)
    | Unknown

  datatype RepairItem = RepairItem(item: ItemId, expected: Revision, candidate: Revision)

  datatype Entry =
    | Clock(now: Instant, floor: Instant)
    | Claim(request: Request, physicalNow: Instant)
    | LegacyIntent(attempt: AttemptId, item: ItemId, command: Command,
                   expected: Option<Revision>, candidate: Revision,
                   writer: Option<WorktreeId>, observedAt: Instant)
    | LegacyMutation(attempt: AttemptId, item: ItemId, command: Command,
                     committed: Revision, writer: Option<WorktreeId>, observedAt: Instant)
    | LegacyAbort(attempt: AttemptId, item: ItemId, command: Command,
                  observed: Option<Revision>, observedAt: Instant)
    | PublishIntent(digest: PublishRequest, floor: Instant, writer: Option<WorktreeId>)
    | PublishFinal(op: OperationId, digest: PublishRequest, item: ItemId,
                   writer: Option<WorktreeId>, outcome: Outcome)
    | PublishFinalization(op: OperationId, item: ItemId, committed: Revision)
    | Adoption(item: ItemId, from: Revision, to: Revision, adoptedAt: Instant)
    | RepairIntent(repair: nat, staging: nat, items: seq<RepairItem>)
    | RepairFinal(repair: nat, staging: nat, items: seq<RepairItem>, observedAt: Instant)

  // ----- replay -----

  function ReplayEntry(s: ClaimState, e: Entry): ClaimState {
    match e
    case Clock(_, floor) => AdvanceClockFloor(s, floor)
    case Claim(request, now) => if request.Read? then s else Operate(s, request, now).state
    case _ => s
  }

  /** Left fold of the entries over the empty state. */
  function Replay(entries: seq<Entry>): ClaimState {
    if entries == [] then EMPTY_STATE
    else ReplayEntry(Replay(entries[..|entries| - 1]), entries[|entries| - 1])
  }

  /** The fold as the source runs it. */
  method ReplayClaimEntries(entries: seq<Entry>) returns (state: ClaimState)
    ensures state == Replay(entries)
  {
    state := EMPTY_STATE;
    for i := 0 to |entries|
      invariant state == Replay(entries[..i])
    {
      assert entries[..i + 1][..i] == entries[..i];
      state := ReplayEntry(state, entries[i]);
    }
    assert entries[..|entries|] == entries;
  }

  lemma ReplayAppend(entries: seq<Entry>, e: Entry)
    ensures Replay(entries + [e]) == ReplayEntry(Replay(entries), e)
  {
    assert (entries + [e])[..|entries + [e]| - 1] == entries;
  }

  predicate Replayed(e: Entry) {
    e.Clock? || e.Claim?
  }

  /** Entries replay ignores leave the state alone, however many follow. */
  lemma {:induction false} ReplayIgnores(entries: seq<Entry>, tail: seq<Entry>)
    requires forall e :: e in tail ==> !Replayed(e)
    ensures Replay(entries + tail) == Replay(entries)
  {
    if tail == [] {
      assert entries + tail == entries;
    } else {
      var k := |tail| - 1;
      ReplayIgnores(entries, tail[..k]);
      assert entries + tail == (entries + tail[..k]) + [tail[k]];
      ReplayAppend(entries + tail[..k], tail[k]);
      assert tail[k] in tail;
    }
  }

  // ----- the reconciliation log -----

  /** Whether the tracked reconciliation log carries an entry. */
  predicate IsProjected(e: Entry) {
    !e.Clock? && !e.PublishFinalization?
  }

  function Projected(entries: seq<Entry>): seq<Entry> {
    if entries == [] then []
    else
      var k := |entries| - 1;
      Projected(entries[..k]) + (if IsProjected(entries[k]) then [entries[k]] else [])
  }

  lemma ProjectedAppend(entries: seq<Entry>, e: Entry)
    ensures Projected(entries + [e]) == Projected(entries) + (if IsProjected(e) then [e] else [])
  {
    assert (entries + [e])[..|entries + [e]| - 1] == entries;
  }

  /** The log carries claims, intents, terminals, finals, adoptions and repairs, and
      neither clock entries nor finalizations, in journal order. */
  lemma {:induction false} ProjectedExactly(entries: seq<Entry>, e: Entry, rest: seq<Entry>)
    ensures e in Projected(entries)
            <==> && e in entries
                 && (e.Claim? || e.LegacyIntent? || e.LegacyMutation? || e.LegacyAbort? || e.PublishIntent?
                     || e.PublishFinal? || e.Adoption? || e.RepairIntent? || e.RepairFinal?)
    ensures Projected(entries + rest) == Projected(entries) + Projected(rest)
  {
    ProjectedConcat(entries, rest);
    if entries != [] {
      var k := |entries| - 1;
      ProjectedExactly(entries[..k], e, rest);
      assert entries == entries[..k] + [entries[k]];
    }
  }

  lemma {:induction false} ProjectedConcat(entries: seq<Entry>, rest: seq<Entry>)
    ensures Projected(entries + rest) == Projected(entries) + Projected(rest)
  {
    if rest == [] {
      assert entries + rest == entries;
    } else {
      var k := |rest| - 1;
      ProjectedConcat(entries, rest[..k]);
      assert entries + rest == (entries + rest[..k]) + [rest[k]];
      ProjectedAppend(entries + rest[..k], rest[k]);
    }
  }

  // ----- authorized revisions -----

  predicate IsCommittedFinal(e: Entry) {
    e.PublishFinal? && e.outcome.Committed?
  }

  predicate IsAuthorization(e: Entry) {
    e.LegacyMutation? || e.Adoption? || IsCommittedFinal(e)
  }

  /** The entries that rule a revision of `item` legitimate. */
  predicate Authorizes(e: Entry, item: ItemId) {
    IsAuthorization(e) && e.item == item
  }

  function AuthorizedRevision(e: Entry): Revision
    requires IsAuthorization(e)
  {
    match e
    case LegacyMutation(_, _, _, committed, _, _) => committed
    case Adoption(_, _, to, _) => to
    case PublishFinal(_, _, _, _, outcome) => outcome.revision
  }

  function Authorizing(entries: seq<Entry>, item: ItemId): (r: seq<Entry>)
    ensures forall e :: e in r <==> e in entries && Authorizes(e, item)
    ensures forall i :: 0 <= i < |r| ==> Authorizes(r[i], item)
  {
    if entries == [] then []
    else
      var k := |entries| - 1;
      var rest := Authorizing(entries[..k], item);
      if Authorizes(entries[k], item) then rest + [entries[k]] else rest
  }

  /** The entry that last ruled on the item. */
  function LatestAuthorization(entries: seq<Entry>, item: ItemId): (r: Option<Entry>)
    ensures r.Some? ==> r.value in entries && Authorizes(r.value, item)
  {
    if entries == [] then None
    else
      var k := |entries| - 1;
      if Authorizes(entries[k], item) then Some(entries[k]) else LatestAuthorization(entries[..k], item)
  }

  /** The item's authorized revision: what the journal last ruled legitimate. */
  function LatestAuthorized(entries: seq<Entry>, item: ItemId): Option<Revision> {
    match LatestAuthorization(entries, item)
    case None => None
    case Some(e) => Some(AuthorizedRevision(e))
  }

  lemma LatestAppend(entries: seq<Entry>, e: Entry, item: ItemId)
    ensures LatestAuthorization(entries + [e], item)
         == if Authorizes(e, item) then Some(e) else LatestAuthorization(entries, item)
  {
    assert (entries + [e])[..|entries + [e]| - 1] == entries;
  }

  /** The last element of the source's filtered list is the latest authorization. */
  lemma {:induction false} LatestIsLastAuthorizing(entries: seq<Entry>, item: ItemId)
    ensures var all := Authorizing(entries, item);
            LatestAuthorization(entries, item) == if all == [] then None else Some(all[|all| - 1])
  {
    if entries == [] {
    } else {
      LatestIsLastAuthorizing(entries[..|entries| - 1], item);
    }
  }

  // ----- open attempts -----

  predicate HasFinal(entries: seq<Entry>, op: OperationId, item: ItemId) {
    exists i :: 0 <= i < |entries| && entries[i].PublishFinal? && entries[i].op == op && entries[i].item == item
  }

  predicate HasFinalOp(entries: seq<Entry>, op: OperationId) {
    exists i :: 0 <= i < |entries| && entries[i].PublishFinal? && entries[i].op == op
  }

  predicate HasIntentOp(entries: seq<Entry>, op: OperationId) {
    exists i :: 0 <= i < |entries| && entries[i].PublishIntent? && entries[i].digest.op == op
  }

  predicate HasFinalization(entries: seq<Entry>, op: OperationId, item: ItemId) {
    exists i :: 0 <= i < |entries| && entries[i].PublishFinalization? && entries[i].op == op && entries[i].item == item
  }

  predicate HasLegacyIntent(entries: seq<Entry>, attempt: AttemptId) {
    exists i :: 0 <= i < |entries| && entries[i].LegacyIntent? && entries[i].attempt == attempt
  }

  predicate IsLegacyTerminal(e: Entry) {
    e.LegacyMutation? || e.LegacyAbort?
  }

  predicate HasLegacyTerminal(entries: seq<Entry>, attempt: AttemptId) {
    exists i :: 0 <= i < |entries| && IsLegacyTerminal(entries[i]) && entries[i].attempt == attempt
  }

  /** A publish-intent of `entries` with no final for its operation and item. */
  predicate OpenPublish(entries: seq<Entry>, e: Entry) {
    e.PublishIntent? && e in entries && !HasFinal(entries, e.digest.op, e.digest.item)
  }

  predicate OpenLegacy(entries: seq<Entry>, e: Entry) {
    e.LegacyIntent? && e in entries && !HasLegacyTerminal(entries, e.attempt)
  }
}
