/** Journal reconciliation as a function: what reconcileClaimJournal of
    src/claim-publication.js appends, finds and refuses, together with the
    topology classifier of src/reconciliation-classifier.js it consults.

    The class in Coordinator.dfy runs the same thing as loops over a store and
    is proved equal to these functions. */
module Reconciliation {
  import opened Options
  import opened Leases
  import opened Journal

  // ----- the classifier -----

  datatype RevisionState = Expected | Authorized | Uncovered | Absent
  datatype OwnerKind = OwnedHere | NamedSibling | ReachableUnowned | Unreachable
  datatype WriterKind = CurrentWriter | OtherWriter | UnknownWriter
  datatype Scope = Global | Targeted | Nobody
  datatype Remedy =
    | CommitInGit | WaitForNamedOwner | EstablishOwnership
    | InspectReachableHistory | AwaitOwnerCommit | RestoreOrAdopt
  datatype Decision = Decision(scope: Scope, remedy: Remedy)

  const UNAUTHORIZED := Decision(Global, RestoreOrAdopt)

  /** Where one surface's bytes stand against the journal. */
  function NormalizeRevision(revision: Option<Revision>, expected: Revision, covered: set<Revision>): RevisionState {
    match revision
    case None => Absent
    case Some(r) => if r == expected then Expected else if r in covered then Authorized else Uncovered
  }

  predicate IsUnattributed(workingTree: RevisionState, head: RevisionState) {
    workingTree.Uncovered? || head.Uncovered? || (workingTree.Absent? && !head.Absent?)
  }

  predicate RequiresOwnerEvidence(workingTree: RevisionState, head: RevisionState) {
    !IsUnattributed(workingTree, head) && !workingTree.Expected?
  }

  function Classify(workingTree: RevisionState, head: RevisionState, owner: Option<OwnerKind>, writer: WriterKind): Decision
    requires RequiresOwnerEvidence(workingTree, head) ==> owner.Some?
  {
    if IsUnattributed(workingTree, head) then UNAUTHORIZED
    else if workingTree.Expected? then Decision(Global, CommitInGit)
    else if workingTree.Absent? then Decision(Targeted, EstablishOwnership)
    else if owner.value.NamedSibling? then Decision(Targeted, WaitForNamedOwner)
    else if !writer.CurrentWriter? && !owner.value.OwnedHere? then
      Decision(Targeted, if owner.value.ReachableUnowned? then InspectReachableHistory else AwaitOwnerCommit)
    else UNAUTHORIZED
  }

  /** Scope alone decides what a finding refuses. */
  predicate BlocksTarget(scope: Scope, item: ItemId, target: Option<ItemId>) {
    match scope
    case Nobody => false
    case Global => true
    case Targeted => target.None? || target.value == item
  }

  // ----- what one reconciliation reads -----

  type Tree = map<ItemId, Revision>

  /** `owners` is the Git ownership evidence; an item it omits is unreachable. */
  datatype Env = Env(now: Instant, target: Option<ItemId>, writer: Option<WorktreeId>, owners: map<ItemId, OwnerKind>)

  datatype Finding =
    | LegacyOutcomeUnknown(item: ItemId, attempt: AttemptId)
    | PublicationOutcomeUnknown(item: ItemId, op: OperationId)
    | PendingIntentResolved(item: ItemId, op: OperationId)
    | ClaimedPublicationPending(item: ItemId)
    | StaleWrite(item: ItemId, decision: Decision)
    | RevisionRegression(item: ItemId)

  function ScopeOf(f: Finding): Scope {
    match f
    case PendingIntentResolved(_, _) => Nobody
    case StaleWrite(_, decision) => decision.scope
    case _ => Global
  }

  datatype Reconciled = Reconciled(
    entries: seq<Entry>, findings: set<Finding>, unsafe: bool,
    state: ClaimState, observedAt: Instant, missing: set<ItemId>)

  function RevisionIn(tree: Tree, item: ItemId): Option<Revision> {
    if item in tree then Some(tree[item]) else None
  }

  // ----- pending legacy mutations -----

  /** The legacy intents of `prefix` that no terminal of `entries` resolves. */
  function PendingLegacy(entries: seq<Entry>, prefix: seq<Entry>): (r: seq<Entry>)
    ensures forall e :: e in r <==> e in prefix && e.LegacyIntent? && !HasLegacyTerminal(entries, e.attempt)
    ensures forall i :: 0 <= i < |r| ==> r[i].LegacyIntent?
  {
    if prefix == [] then []
    else
      var k := |prefix| - 1;
      var e := prefix[k];
      PendingLegacy(entries, prefix[..k])
      + (if e.LegacyIntent? && !HasLegacyTerminal(entries, e.attempt) then [e] else [])
  }

  /** Committed when the candidate is on disk, aborted when the expected bytes
      still are, and left open for any third revision. */
  function ResolveLegacy(intent: Entry, disk: Tree, at: Instant): Option<Entry>
    requires intent.LegacyIntent?
  {
    var actual := RevisionIn(disk, intent.item);
    if actual == Some(intent.candidate) then
      Some(LegacyMutation(intent.attempt, intent.item, intent.command, intent.candidate, intent.writer, at))
    else if actual == intent.expected then
      Some(LegacyAbort(intent.attempt, intent.item, intent.command, actual, at))
    else None
  }

  function LegacyTail(pending: seq<Entry>, disk: Tree, at: Instant): seq<Entry>
    requires forall i :: 0 <= i < |pending| ==> pending[i].LegacyIntent?
  {
    if pending == [] then []
    else
      var k := |pending| - 1;
      var r := ResolveLegacy(pending[k], disk, at);
      LegacyTail(pending[..k], disk, at) + (if r.Some? then [r.value] else [])
  }

  function LegacyFindings(pending: seq<Entry>, disk: Tree): set<Finding>
    requires forall i :: 0 <= i < |pending| ==> pending[i].LegacyIntent?
  {
    if pending == [] then {}
    else
      var k := |pending| - 1;
      LegacyFindings(pending[..k], disk)
      + (if ResolveLegacy(pending[k], disk, 0).None?
         then {LegacyOutcomeUnknown(pending[k].item, pending[k].attempt)} else {})
  }

  // ----- pending publications -----

  /** The publish intents of `prefix` with no final in `entries`. */
  function PendingPublish(entries: seq<Entry>, prefix: seq<Entry>): (r: seq<Entry>)
    ensures forall e :: e in r <==> e in prefix && e.PublishIntent? && !HasFinal(entries, e.digest.op, e.digest.item)
    ensures forall i :: 0 <= i < |r| ==> r[i].PublishIntent?
  {
    if prefix == [] then []
    else
      var k := |prefix| - 1;
      var e := prefix[k];
      PendingPublish(entries, prefix[..k])
      + (if e.PublishIntent? && !HasFinal(entries, e.digest.op, e.digest.item) then [e] else [])
  }

  /** A committed publication of `item` whose revision is `actual`. */
  predicate PublishedBefore(entries: seq<Entry>, item: ItemId, actual: Option<Revision>) {
    exists i :: 0 <= i < |entries| && IsCommittedFinal(entries[i]) && entries[i].item == item
                && Some(entries[i].outcome.revision) == actual
  }

  predicate HigherEpoch(state: ClaimState, request: PublishRequest) {
    RecordOf(state, request.item).lastEpoch > request.fence.epoch
  }

  function RecoveredOutcome(entries: seq<Entry>, request: PublishRequest, disk: Tree, state: ClaimState): Outcome {
    var actual := RevisionIn(disk, request.item);
    if actual == Some(request.candidate) && !HigherEpoch(state, request) then Committed(request.candidate, request.fence)
    else if HigherEpoch(state, request) then Rejected(EpochMismatch)
    else if actual == Some(request.expected) || PublishedBefore(entries, request.item, actual) then Rejected(RevisionConflict)
    else Unknown
  }

  function RecoveredFinal(entries: seq<Entry>, intent: Entry, disk: Tree, state: ClaimState): Entry
    requires intent.PublishIntent?
  {
    PublishFinal(intent.digest.op, intent.digest, intent.digest.item, intent.writer,
                 RecoveredOutcome(entries, intent.digest, disk, state))
  }

  /** The finals appended for the pending intents, each judged against the
      journal as the ones before it left it. */
  function PublishTail(entries: seq<Entry>, pending: seq<Entry>, disk: Tree, state: ClaimState): seq<Entry>
    requires forall i :: 0 <= i < |pending| ==> pending[i].PublishIntent?
  {
    if pending == [] then []
    else
      var k := |pending| - 1;
      var before := PublishTail(entries, pending[..k], disk, state);
      before + [RecoveredFinal(entries + before, pending[k], disk, state)]
  }

  function PublishFinding(final: Entry): Finding
    requires final.PublishFinal?
  {
    if final.outcome.Unknown? then PublicationOutcomeUnknown(final.item, final.op)
    else PendingIntentResolved(final.item, final.op)
  }

  function PublishFindings(tail: seq<Entry>): set<Finding> {
    set e | e in tail && e.PublishFinal? :: PublishFinding(e)
  }

  // ----- finalizations -----

  predicate Finalizable(entries: seq<Entry>, e: Entry, head: Tree) {
    && IsCommittedFinal(e)
    && !HasFinalization(entries, e.op, e.item)
    && RevisionIn(head, e.item) == Some(e.outcome.revision)
  }

  function FinalizationOf(e: Entry): Entry
    requires IsCommittedFinal(e)
  {
    PublishFinalization(e.op, e.item, e.outcome.revision)
  }

  /** The finalizations appended while scanning `scan`. */
  function FinalizationTail(entries: seq<Entry>, scan: seq<Entry>, head: Tree): seq<Entry> {
    if scan == [] then []
    else
      var k := |scan| - 1;
      var before := FinalizationTail(entries, scan[..k], head);
      before + (if Finalizable(entries + before, scan[k], head) then [FinalizationOf(scan[k])] else [])
  }

  // ----- judging the surfaces -----

  predicate Coordinates(e: Entry) {
    e.PublishFinalization? || e.LegacyMutation?
  }

  function Coordinated(entries: seq<Entry>): set<ItemId> {
    set e | e in entries && Coordinates(e) :: e.item
  }

  /** Every revision of the item some entry rules legitimate, or once expected. */
  function Covered(entries: seq<Entry>, item: ItemId): set<Revision> {
    (set e | e in entries && Authorizes(e, item) :: AuthorizedRevision(e))
    + (set e | e in entries && e.LegacyIntent? && e.item == item && e.expected.Some? :: e.expected.value)
  }

  /** The last committed publication of the item under exactly this epoch. */
  function LatestUnderEpoch(entries: seq<Entry>, item: ItemId, epoch: nat): Option<Revision> {
    if entries == [] then None
    else
      var k := |entries| - 1;
      var e := entries[k];
      if IsCommittedFinal(e) && e.item == item && e.outcome.fence.epoch == epoch then Some(e.outcome.revision)
      else LatestUnderEpoch(entries[..k], item, epoch)
  }

  predicate PublishedUnderEarlierEpoch(entries: seq<Entry>, item: ItemId, actual: Option<Revision>, epoch: nat) {
    exists i :: 0 <= i < |entries| && IsCommittedFinal(entries[i]) && entries[i].item == item
                && Some(entries[i].outcome.revision) == actual
                && entries[i].outcome.fence.epoch < epoch
  }

  datatype Mismatch = NoMismatch | Later | Earlier

  /** Whether an unexpired claim's own publication is not what the disk holds. */
  function ActivePublicationMismatch(entries: seq<Entry>, item: ItemId, record: ClaimRecord,
                                     actual: Option<Revision>, at: Instant): Mismatch {
    if record.active.None? || at >= record.active.value.expiresAt then NoMismatch
    else
      var epoch := record.active.value.epoch;
      var published := LatestUnderEpoch(entries, item, epoch);
      if published.None? || actual == published then NoMismatch
      else if PublishedUnderEarlierEpoch(entries, item, actual, epoch) then Earlier
      else Later
  }

  function WriterOf(e: Entry): Option<WorktreeId> {
    match e
    case LegacyMutation(_, _, _, _, writer, _) => writer
    case PublishFinal(_, _, _, writer, _) => writer
    case _ => None
  }

  function ExpectedWriter(recorded: Option<WorktreeId>, current: Option<WorktreeId>): WriterKind {
    if recorded.None? || current.None? then UnknownWriter
    else if recorded == current then CurrentWriter
    else OtherWriter
  }

  function OwnerOf(env: Env, item: ItemId): OwnerKind {
    if item in env.owners then env.owners[item] else Unreachable
  }

  /** The finding, if any, about one coordinated item. */
  function CoordinatedFindings(entries: seq<Entry>, item: ItemId, disk: Tree, head: Option<Tree>,
                               state: ClaimState, at: Instant, env: Env): set<Finding> {
    var latest := LatestAuthorization(entries, item);
    if latest.None? then {}
    else
      var expected := AuthorizedRevision(latest.value);
      var covered := Covered(entries, item);
      var actual := RevisionIn(disk, item);
      var headRevision := if head.Some? then RevisionIn(head.value, item) else None;
      var workingTreeChanged := actual != Some(expected);
      var gitHeadChanged := head.Some? && !(headRevision.Some? && headRevision.value in covered);
      if !workingTreeChanged && !gitHeadChanged then {}
      else if ActivePublicationMismatch(entries, item, RecordOf(state, item), actual, at).Earlier?
      then {ClaimedPublicationPending(item)}
      else {StaleWrite(item, Classify(
              NormalizeRevision(actual, expected, covered),
              NormalizeRevision(headRevision, expected, covered),
              Some(OwnerOf(env, item)),
              ExpectedWriter(WriterOf(latest.value), env.writer)))}
  }

  /** The finding, if any, about one claimed item the journal does not coordinate. */
  function ClaimFindings(entries: seq<Entry>, item: ItemId, disk: Tree, state: ClaimState, at: Instant): set<Finding> {
    match ActivePublicationMismatch(entries, item, RecordOf(state, item), RevisionIn(disk, item), at)
    case NoMismatch => {}
    case Earlier => {ClaimedPublicationPending(item)}
    case Later => {RevisionRegression(item)}
  }

  function SurfaceFindings(entries: seq<Entry>, disk: Tree, head: Option<Tree>,
                           state: ClaimState, at: Instant, env: Env): set<Finding> {
    var coordinated := Coordinated(entries);
    (set item, f | item in coordinated && f in CoordinatedFindings(entries, item, disk, head, state, at, env) :: f)
    + (set item, f | item in state.claims.Keys - coordinated && f in ClaimFindings(entries, item, disk, state, at) :: f)
  }

  predicate Unsafe(findings: set<Finding>, target: Option<ItemId>) {
    exists f :: f in findings && BlocksTarget(ScopeOf(f), f.item, target)
  }

  // ----- the whole reconciliation -----

  function ObservedAt(journal: seq<Entry>, now: Instant): Instant {
    Effective(Replay(journal).floor, now)
  }

  /** The journal after each of the four appending phases. */
  function AfterClock(journal: seq<Entry>, env: Env): seq<Entry> {
    journal + [Clock(env.now, ObservedAt(journal, env.now))]
  }

  function AfterLegacy(journal: seq<Entry>, disk: Tree, env: Env): seq<Entry> {
    var j := AfterClock(journal, env);
    j + LegacyTail(PendingLegacy(j, j), disk, ObservedAt(journal, env.now))
  }

  function ReconciledState(journal: seq<Entry>, env: Env): ClaimState {
    AdvanceClockFloor(Replay(journal), env.now)
  }

  function PublishPart(journal: seq<Entry>, disk: Tree, env: Env): seq<Entry> {
    PublishTail(AfterLegacy(journal, disk, env), PendingPublish(journal, journal), disk, ReconciledState(journal, env))
  }

  function AfterPublish(journal: seq<Entry>, disk: Tree, env: Env): seq<Entry> {
    AfterLegacy(journal, disk, env) + PublishPart(journal, disk, env)
  }

  function AfterReconcile(journal: seq<Entry>, disk: Tree, head: Option<Tree>, env: Env): seq<Entry> {
    var j := AfterPublish(journal, disk, env);
    match head
    case None => j
    case Some(h) => j + FinalizationTail(j, j, h)
  }

  function Reconcile(journal: seq<Entry>, disk: Tree, head: Option<Tree>, env: Env): Reconciled {
    var entries := AfterReconcile(journal, disk, head, env);
    var at := ObservedAt(journal, env.now);
    var state := ReconciledState(journal, env);
    var j := AfterClock(journal, env);
    var findings := LegacyFindings(PendingLegacy(j, j), disk)
                    + PublishFindings(PublishPart(journal, disk, env))
                    + SurfaceFindings(entries, disk, head, state, at, env);
    Reconciled(entries, findings, Unsafe(findings, env.target), state, at, Coordinated(entries) - disk.Keys)
  }
}
