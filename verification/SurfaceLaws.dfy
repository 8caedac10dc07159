/** What a reconciliation finds and whom it refuses, said of the journal entries
    it leaves and the bytes on disk and at HEAD, kind of finding by kind. */
module SurfaceLaws {
  import opened Options
  import opened Leases
  import opened Journal
  import opened Reconciliation
  import opened Gate

  // ----- publications under a lease -----

  /** A committed publication of the item that no later one under this epoch follows. */
  ghost predicate LastUnder(entries: seq<Entry>, item: ItemId, epoch: nat, f: nat) {
    && CommittedAt(entries, f, item) && entries[f].outcome.fence.epoch == epoch
    && forall g: nat :: g > f && CommittedAt(entries, g, item) ==> entries[g].outcome.fence.epoch != epoch
  }

  /** An epoch before this one published the very bytes. */
  ghost predicate EarlierHas(entries: seq<Entry>, item: ItemId, epoch: nat, bytes: Option<Revision>) {
    exists g: nat :: CommittedAt(entries, g, item) && entries[g].outcome.fence.epoch < epoch
                     && Some(entries[g].outcome.revision) == bytes
  }

  lemma {:induction false} LastUnderIsLatest(entries: seq<Entry>, item: ItemId, epoch: nat, f: nat)
    requires LastUnder(entries, item, epoch, f)
    ensures LatestUnderEpoch(entries, item, epoch) == Some(entries[f].outcome.revision)
  {
    var k := |entries| - 1;
    if f < k {
      assert !(CommittedAt(entries, k, item) && entries[k].outcome.fence.epoch == epoch);
      assert forall g: nat :: CommittedAt(entries[..k], g, item) ==> CommittedAt(entries, g, item);
      LastUnderIsLatest(entries[..k], item, epoch, f);
    }
  }

  lemma {:induction false} LatestIsLastUnder(entries: seq<Entry>, item: ItemId, epoch: nat) returns (f: nat)
    requires LatestUnderEpoch(entries, item, epoch).Some?
    ensures LastUnder(entries, item, epoch, f)
  {
    var k := |entries| - 1;
    if CommittedAt(entries, k, item) && entries[k].outcome.fence.epoch == epoch {
      f := k;
    } else {
      f := LatestIsLastUnder(entries[..k], item, epoch);
      forall g: nat | g > f && CommittedAt(entries, g, item) ensures entries[g].outcome.fence.epoch != epoch {
        if g < k { assert CommittedAt(entries[..k], g, item); }
      }
    }
  }

  /** The item has a live lease, and the last publication under it is not what
      these bytes are. */
  ghost predicate Regressed(entries: seq<Entry>, item: ItemId, record: ClaimRecord, bytes: Option<Revision>, at: Instant) {
    && record.active.Some? && at < record.active.value.expiresAt
    && exists f: nat :: LastUnder(entries, item, record.active.value.epoch, f) && bytes != Some(entries[f].outcome.revision)
  }

  ghost predicate RegressedToEarlier(entries: seq<Entry>, item: ItemId, record: ClaimRecord, bytes: Option<Revision>, at: Instant) {
    Regressed(entries, item, record, bytes, at) && EarlierHas(entries, item, record.active.value.epoch, bytes)
  }

  lemma EarlierIsPublished(entries: seq<Entry>, item: ItemId, epoch: nat, bytes: Option<Revision>)
    ensures PublishedUnderEarlierEpoch(entries, item, bytes, epoch) <==> EarlierHas(entries, item, epoch, bytes)
  {
    if i :| 0 <= i < |entries| && IsCommittedFinal(entries[i]) && entries[i].item == item
            && Some(entries[i].outcome.revision) == bytes && entries[i].outcome.fence.epoch < epoch {
      assert CommittedAt(entries, i, item);
    }
    if g: nat :| CommittedAt(entries, g, item) && entries[g].outcome.fence.epoch < epoch
                 && Some(entries[g].outcome.revision) == bytes {
      assert IsCommittedFinal(entries[g]);
    }
  }

  lemma MismatchExactly(entries: seq<Entry>, item: ItemId, record: ClaimRecord, bytes: Option<Revision>, at: Instant)
    ensures var m := ActivePublicationMismatch(entries, item, record, bytes, at);
            && (m.NoMismatch? <==> !Regressed(entries, item, record, bytes, at))
            && (m.Earlier? <==> RegressedToEarlier(entries, item, record, bytes, at))
  {
    if record.active.Some? {
      var epoch := record.active.value.epoch;
      EarlierIsPublished(entries, item, epoch, bytes);
      if LatestUnderEpoch(entries, item, epoch).Some? {
        var f := LatestIsLastUnder(entries, item, epoch);
        LastUnderIsLatest(entries, item, epoch, f);
      }
      forall f: nat | LastUnder(entries, item, epoch, f)
        ensures LatestUnderEpoch(entries, item, epoch) == Some(entries[f].outcome.revision)
      {
        LastUnderIsLatest(entries, item, epoch, f);
      }
    }
  }

  // ----- coordinated items -----

  /** The journal answers for the item: a legacy mutation committed on it, or HEAD
      was seen to carry a publication of it. */
  ghost predicate IsCoordinated(entries: seq<Entry>, item: ItemId) {
    exists i :: 0 <= i < |entries| && (entries[i].LegacyMutation? || entries[i].PublishFinalization?) && entries[i].item == item
  }

  lemma CoordinatedExactly(entries: seq<Entry>, item: ItemId)
    ensures item in Coordinated(entries) <==> IsCoordinated(entries, item)
  {
    if i :| 0 <= i < |entries| && (entries[i].LegacyMutation? || entries[i].PublishFinalization?) && entries[i].item == item {
      assert entries[i] in entries;
    }
  }

  /** Some entry ruled the revision of the item legitimate, or expected it. */
  ghost predicate Vouched(entries: seq<Entry>, item: ItemId, revision: Revision) {
    exists i :: 0 <= i < |entries| && Vouches(entries[i], item, revision)
  }

  ghost predicate Vouches(e: Entry, item: ItemId, revision: Revision) {
    match e
    case LegacyMutation(_, x, _, committed, _, _) => x == item && committed == revision
    case Adoption(x, _, to, _) => x == item && to == revision
    case PublishFinal(_, _, x, _, outcome) => x == item && outcome.Committed? && outcome.revision == revision
    case LegacyIntent(_, x, _, expected, _, _, _) => x == item && expected == Some(revision)
    case _ => false
  }

  lemma CoveredExactly(entries: seq<Entry>, item: ItemId, revision: Revision)
    ensures revision in Covered(entries, item) <==> Vouched(entries, item, revision)
  {
    if i :| 0 <= i < |entries| && Vouches(entries[i], item, revision) {
      assert entries[i] in entries;
    }
    if revision in Covered(entries, item) {
      var e :| e in entries && Vouches(e, item, revision);
      var i :| 0 <= i < |entries| && entries[i] == e;
    }
  }

  /** A ruled item whose bytes are not its ruling, or which HEAD holds other than
      as the journal vouches. */
  ghost predicate Drifted(entries: seq<Entry>, item: ItemId, disk: Tree, head: Option<Tree>) {
    && LatestAuthorized(entries, item).Some?
    && (RevisionIn(disk, item) != LatestAuthorized(entries, item)
        || (head.Some? && !(item in head.value && Vouched(entries, item, head.value[item]))))
  }

  // ----- what each finding means -----

  ghost predicate IsSurfaceFinding(f: Finding) {
    f.ClaimedPublicationPending? || f.StaleWrite? || f.RevisionRegression?
  }

  lemma {:induction false} LegacyFindingsExactly(pending: seq<Entry>, disk: Tree, f: Finding)
    requires forall i :: 0 <= i < |pending| ==> pending[i].LegacyIntent?
    ensures f in LegacyFindings(pending, disk) <==>
              f.LegacyOutcomeUnknown? && exists i :: (0 <= i < |pending|
                && pending[i].item == f.item && pending[i].attempt == f.attempt
                && RevisionIn(disk, f.item) != Some(pending[i].candidate) && RevisionIn(disk, f.item) != pending[i].expected)
  {
    if pending == [] {
    } else {
      var k := |pending| - 1;
      LegacyFindingsExactly(pending[..k], disk, f);
      assert forall i :: 0 <= i < k ==> pending[..k][i] == pending[i];
    }
  }

  /** An attempt whose outcome the disk does not settle, and no other. */
  lemma LegacyUnknownExactly(journal: seq<Entry>, disk: Tree, head: Option<Tree>, env: Env, item: ItemId, attempt: AttemptId)
    ensures LegacyOutcomeUnknown(item, attempt) in Reconcile(journal, disk, head, env).findings <==>
              exists e :: OpenLegacy(journal, e) && e.item == item && e.attempt == attempt
                          && RevisionIn(disk, item) != Some(e.candidate) && RevisionIn(disk, item) != e.expected
  {
    var f := LegacyOutcomeUnknown(item, attempt);
    var j := AfterClock(journal, env);
    var pending := PendingLegacy(j, j);
    LegacyFindingsExactly(pending, disk, f);
    FoundWhere(journal, disk, head, env, f);
    if e :| OpenLegacy(journal, e) && e.item == item && e.attempt == attempt
            && RevisionIn(disk, item) != Some(e.candidate) && RevisionIn(disk, item) != e.expected {
      ClockKeepsOpen(journal, env, e);
      assert e in pending;
    }
    if i :| 0 <= i < |pending| && pending[i].item == item && pending[i].attempt == attempt
            && RevisionIn(disk, item) != Some(pending[i].candidate) && RevisionIn(disk, item) != pending[i].expected {
      assert pending[i] in pending;
      ClockKeepsOpen(journal, env, pending[i]);
    }
  }

  lemma ClockKeepsOpen(journal: seq<Entry>, env: Env, e: Entry)
    ensures OpenLegacy(AfterClock(journal, env), e) <==> OpenLegacy(journal, e)
  {
    var j := AfterClock(journal, env);
    assert forall i :: 0 <= i < |journal| ==> j[i] == journal[i];
    assert j[|journal|].Clock?;
  }

  /** Every recovered publication is reported: as unknown, a barrier, or as
      resolved, news that refuses nothing. */
  lemma PublishFoundExactly(journal: seq<Entry>, disk: Tree, head: Option<Tree>, env: Env, item: ItemId, op: OperationId)
    ensures var r, tail := Reconcile(journal, disk, head, env), PublishPart(journal, disk, env);
            && (PublicationOutcomeUnknown(item, op) in r.findings <==>
                  exists e :: e in tail && e.PublishFinal? && e.item == item && e.op == op && e.outcome.Unknown?)
            && (PendingIntentResolved(item, op) in r.findings <==>
                  exists e :: e in tail && e.PublishFinal? && e.item == item && e.op == op && !e.outcome.Unknown?)
  {
    FoundWhere(journal, disk, head, env, PublicationOutcomeUnknown(item, op));
    FoundWhere(journal, disk, head, env, PendingIntentResolved(item, op));
  }

  /** Which phase of a reconciliation a finding comes from. */
  lemma FoundWhere(journal: seq<Entry>, disk: Tree, head: Option<Tree>, env: Env, f: Finding)
    ensures var r, j := Reconcile(journal, disk, head, env), AfterClock(journal, env);
            f in r.findings <==>
              if f.LegacyOutcomeUnknown? then f in LegacyFindings(PendingLegacy(j, j), disk)
              else if IsSurfaceFinding(f) then f in SurfaceFindings(r.entries, disk, head, r.state, r.observedAt, env)
              else f in PublishFindings(PublishPart(journal, disk, env))
  {
    var r, j := Reconcile(journal, disk, head, env), AfterClock(journal, env);
    var legacy, publish := LegacyFindings(PendingLegacy(j, j), disk), PublishFindings(PublishPart(journal, disk, env));
    var surface := SurfaceFindings(r.entries, disk, head, r.state, r.observedAt, env);
    LegacyFindingsAre(PendingLegacy(j, j), disk);
    PublishFindingsAre(PublishPart(journal, disk, env), f);
    SurfaceIsOwn(r.entries, disk, head, r.state, r.observedAt, env, f);
    SurfaceKind(r.entries, disk, head, r.state, r.observedAt, env, f);
    assert r.findings == legacy + publish + surface;
  }

  lemma PublishFindingsAre(tail: seq<Entry>, f: Finding)
    ensures f in PublishFindings(tail) ==> f.PublicationOutcomeUnknown? || f.PendingIntentResolved?
  {
  }

  lemma SurfaceKind(entries: seq<Entry>, disk: Tree, head: Option<Tree>, state: ClaimState, at: Instant, env: Env, f: Finding)
    ensures f in SurfaceFindings(entries, disk, head, state, at, env) ==> IsSurfaceFinding(f)
  {
    if f in SurfaceFindings(entries, disk, head, state, at, env) {
      OnlySurfaceFindings(entries, disk, head, state, at, env, f);
    }
  }

  lemma OnlySurfaceFindings(entries: seq<Entry>, disk: Tree, head: Option<Tree>, state: ClaimState, at: Instant, env: Env, f: Finding)
    requires f in SurfaceFindings(entries, disk, head, state, at, env)
    ensures IsSurfaceFinding(f)
    ensures if f.item in Coordinated(entries) then f in CoordinatedFindings(entries, f.item, disk, head, state, at, env)
            else f.item in state.claims && f in ClaimFindings(entries, f.item, disk, state, at)
  {
  }

  lemma SurfaceIsOwn(entries: seq<Entry>, disk: Tree, head: Option<Tree>, state: ClaimState, at: Instant, env: Env, f: Finding)
    ensures f in SurfaceFindings(entries, disk, head, state, at, env) <==>
              if f.item in Coordinated(entries) then f in CoordinatedFindings(entries, f.item, disk, head, state, at, env)
              else f.item in state.claims && f in ClaimFindings(entries, f.item, disk, state, at)
  {
    if f in SurfaceFindings(entries, disk, head, state, at, env) {
      OnlySurfaceFindings(entries, disk, head, state, at, env, f);
    }
  }

  lemma SurfaceRegression(entries: seq<Entry>, disk: Tree, head: Option<Tree>, state: ClaimState, at: Instant, env: Env, item: ItemId)
    ensures RevisionRegression(item) in SurfaceFindings(entries, disk, head, state, at, env)
            <==> && !IsCoordinated(entries, item)
                 && Regressed(entries, item, RecordOf(state, item), RevisionIn(disk, item), at)
                 && !RegressedToEarlier(entries, item, RecordOf(state, item), RevisionIn(disk, item), at)
  {
    SurfaceIsOwn(entries, disk, head, state, at, env, RevisionRegression(item));
    CoordinatedExactly(entries, item);
    MismatchExactly(entries, item, RecordOf(state, item), RevisionIn(disk, item), at);
  }

  /** A regression is found exactly on an item the journal does not coordinate,
      whose bytes are neither what its live lease last published nor what an
      earlier epoch did. */
  lemma RegressionFoundExactly(journal: seq<Entry>, disk: Tree, head: Option<Tree>, env: Env, item: ItemId)
    ensures var r := Reconcile(journal, disk, head, env);
            var record := RecordOf(r.state, item);
            var bytes := RevisionIn(disk, item);
            RevisionRegression(item) in r.findings <==>
              && !IsCoordinated(r.entries, item)
              && Regressed(r.entries, item, record, bytes, r.observedAt)
              && !RegressedToEarlier(r.entries, item, record, bytes, r.observedAt)
  {
    var r := Reconcile(journal, disk, head, env);
    FoundWhere(journal, disk, head, env, RevisionRegression(item));
    SurfaceRegression(r.entries, disk, head, r.state, r.observedAt, env, item);
  }

  lemma SurfacePending(entries: seq<Entry>, disk: Tree, head: Option<Tree>, state: ClaimState, at: Instant, env: Env, item: ItemId)
    ensures ClaimedPublicationPending(item) in SurfaceFindings(entries, disk, head, state, at, env)
            <==> && RegressedToEarlier(entries, item, RecordOf(state, item), RevisionIn(disk, item), at)
                 && (IsCoordinated(entries, item) ==> Drifted(entries, item, disk, head))
  {
    SurfaceIsOwn(entries, disk, head, state, at, env, ClaimedPublicationPending(item));
    CoordinatedExactly(entries, item);
    MismatchExactly(entries, item, RecordOf(state, item), RevisionIn(disk, item), at);
    HeadIsCovered(entries, item, head);
  }

  /** A pending publication is found exactly on an item whose live lease last
      published other bytes and an earlier epoch these; on a coordinated item
      only when it has drifted. */
  lemma PendingFoundExactly(journal: seq<Entry>, disk: Tree, head: Option<Tree>, env: Env, item: ItemId)
    ensures var r := Reconcile(journal, disk, head, env);
            ClaimedPublicationPending(item) in r.findings <==>
              && RegressedToEarlier(r.entries, item, RecordOf(r.state, item), RevisionIn(disk, item), r.observedAt)
              && (IsCoordinated(r.entries, item) ==> Drifted(r.entries, item, disk, head))
  {
    var r := Reconcile(journal, disk, head, env);
    FoundWhere(journal, disk, head, env, ClaimedPublicationPending(item));
    SurfacePending(r.entries, disk, head, r.state, r.observedAt, env, item);
  }

  lemma HeadIsCovered(entries: seq<Entry>, item: ItemId, head: Option<Tree>)
    ensures head.Some? && item in head.value ==>
              (head.value[item] in Covered(entries, item) <==> Vouched(entries, item, head.value[item]))
  {
    if head.Some? && item in head.value {
      CoveredExactly(entries, item, head.value[item]);
    }
  }

  /** The decision the classifier comes to about a drifted item. */
  ghost function DriftDecision(entries: seq<Entry>, item: ItemId, disk: Tree, head: Option<Tree>, env: Env): Decision
    requires LatestAuthorization(entries, item).Some?
  {
    var latest := LatestAuthorization(entries, item).value;
    var expected := AuthorizedRevision(latest);
    Classify(NormalizeRevision(RevisionIn(disk, item), expected, Covered(entries, item)),
             NormalizeRevision(if head.Some? then RevisionIn(head.value, item) else None, expected, Covered(entries, item)),
             Some(OwnerOf(env, item)), ExpectedWriter(WriterOf(latest), env.writer))
  }

  lemma SurfaceStale(entries: seq<Entry>, disk: Tree, head: Option<Tree>, state: ClaimState, at: Instant, env: Env,
                     item: ItemId, decision: Decision)
    ensures StaleWrite(item, decision) in SurfaceFindings(entries, disk, head, state, at, env)
            <==> && IsCoordinated(entries, item) && Drifted(entries, item, disk, head)
                 && !RegressedToEarlier(entries, item, RecordOf(state, item), RevisionIn(disk, item), at)
                 && decision == DriftDecision(entries, item, disk, head, env)
  {
    SurfaceIsOwn(entries, disk, head, state, at, env, StaleWrite(item, decision));
    CoordinatedExactly(entries, item);
    MismatchExactly(entries, item, RecordOf(state, item), RevisionIn(disk, item), at);
    HeadIsCovered(entries, item, head);
  }

  /** A stale write is found exactly on a drifted coordinated item with no pending
      publication. */
  lemma StaleFoundExactly(journal: seq<Entry>, disk: Tree, head: Option<Tree>, env: Env, item: ItemId, decision: Decision)
    ensures var r := Reconcile(journal, disk, head, env);
            StaleWrite(item, decision) in r.findings <==>
              && IsCoordinated(r.entries, item) && Drifted(r.entries, item, disk, head)
              && !RegressedToEarlier(r.entries, item, RecordOf(r.state, item), RevisionIn(disk, item), r.observedAt)
              && decision == DriftDecision(r.entries, item, disk, head, env)
  {
    var r := Reconcile(journal, disk, head, env);
    FoundWhere(journal, disk, head, env, StaleWrite(item, decision));
    SurfaceStale(r.entries, disk, head, r.state, r.observedAt, env, item, decision);
  }

  // ----- the classifier, said of the bytes -----

  /** Bytes no entry vouches for. */
  ghost predicate Foreign(entries: seq<Entry>, item: ItemId, bytes: Option<Revision>) {
    bytes.Some? && !Vouched(entries, item, bytes.value)
  }

  /** This worktree wrote the ruling, as far as both are named. */
  ghost predicate WroteRuling(latest: Entry, env: Env) {
    var writer := match latest
                  case LegacyMutation(_, _, _, _, w, _) => w
                  case PublishFinal(_, _, _, w, _) => w
                  case _ => None;
    writer.Some? && env.writer == writer
  }

  ghost predicate OwnedBy(env: Env, item: ItemId, kind: OwnerKind) {
    item in env.owners && env.owners[item] == kind
  }

  /** Somebody else can still bring the ruling here: it never was here at all, a
      named worktree carries it, or neither this worktree's writing nor its
      history does. */
  ghost predicate AwaitsOthers(entries: seq<Entry>, item: ItemId, disk: Tree, head: Option<Tree>, env: Env)
    requires LatestAuthorization(entries, item).Some?
  {
    var bytes := RevisionIn(disk, item);
    var atHead := if head.Some? then RevisionIn(head.value, item) else None;
    && !Foreign(entries, item, bytes) && !Foreign(entries, item, atHead)
    && (if bytes.None? then atHead.None?
        else
          && bytes != LatestAuthorized(entries, item)
          && (OwnedBy(env, item, NamedSibling)
              || (!WroteRuling(LatestAuthorization(entries, item).value, env) && !OwnedBy(env, item, OwnedHere))))
  }

  /** Whom a drifted item's stale write refuses: with its ruling on disk, or bytes
      nobody vouches for, everyone; while others may still bring the ruling, only
      writes to the item. */
  lemma DriftScopeExactly(entries: seq<Entry>, item: ItemId, disk: Tree, head: Option<Tree>, env: Env)
    requires LatestAuthorization(entries, item).Some?
    ensures var scope := DriftDecision(entries, item, disk, head, env).scope;
            && (scope.Targeted? <==> AwaitsOthers(entries, item, disk, head, env))
            && (scope.Global? <==> !AwaitsOthers(entries, item, disk, head, env))
  {
    RulingIsVouched(entries, item);
    BytesAre(entries, item, RevisionIn(disk, item));
    BytesAre(entries, item, if head.Some? then RevisionIn(head.value, item) else None);
  }

  /** What it tells the operator to do. */
  lemma DriftRemedyExactly(entries: seq<Entry>, item: ItemId, disk: Tree, head: Option<Tree>, env: Env)
    requires LatestAuthorization(entries, item).Some?
    ensures var remedy := DriftDecision(entries, item, disk, head, env).remedy;
            var bytes := RevisionIn(disk, item);
            var atHead := if head.Some? then RevisionIn(head.value, item) else None;
            var awaits := AwaitsOthers(entries, item, disk, head, env);
            && (remedy.CommitInGit? <==> bytes == LatestAuthorized(entries, item) && !Foreign(entries, item, atHead))
            && (remedy.EstablishOwnership? <==> awaits && bytes.None?)
            && (remedy.WaitForNamedOwner? <==> awaits && bytes.Some? && OwnedBy(env, item, NamedSibling))
            && (remedy.InspectReachableHistory? <==> awaits && bytes.Some? && OwnedBy(env, item, ReachableUnowned))
            && (remedy.AwaitOwnerCommit? <==>
                  awaits && bytes.Some? && (item !in env.owners || OwnedBy(env, item, Unreachable)))
            && (remedy.RestoreOrAdopt? <==> !awaits && !remedy.CommitInGit?)
  {
    RulingIsVouched(entries, item);
    BytesAre(entries, item, RevisionIn(disk, item));
    BytesAre(entries, item, if head.Some? then RevisionIn(head.value, item) else None);
  }

  lemma BytesAre(entries: seq<Entry>, item: ItemId, bytes: Option<Revision>)
    requires LatestAuthorization(entries, item).Some?
    ensures var n := NormalizeRevision(bytes, AuthorizedRevision(LatestAuthorization(entries, item).value), Covered(entries, item));
            && (n.Absent? <==> bytes.None?)
            && (n.Expected? <==> bytes == LatestAuthorized(entries, item))
            && (n.Uncovered? <==> Foreign(entries, item, bytes))
  {
    RulingIsVouched(entries, item);
    if bytes.Some? {
      CoveredExactly(entries, item, bytes.value);
    }
  }

  lemma RulingIsVouched(entries: seq<Entry>, item: ItemId)
    requires LatestAuthorization(entries, item).Some?
    ensures Vouched(entries, item, AuthorizedRevision(LatestAuthorization(entries, item).value))
  {
    var e := LatestAuthorization(entries, item).value;
    var i :| 0 <= i < |entries| && entries[i] == e;
    assert Vouches(entries[i], item, AuthorizedRevision(e));
  }

  /** Owner evidence is gathered exactly for a working tree that is behind, or empty
      like HEAD, with no foreign bytes at either; elsewhere it would decide nothing. */
  lemma EvidenceExactly(workingTree: RevisionState, head: RevisionState, a: Option<OwnerKind>, b: Option<OwnerKind>, writer: WriterKind)
    ensures RequiresOwnerEvidence(workingTree, head)
            <==> head != Uncovered && (workingTree == Authorized || (workingTree == Absent && head == Absent))
    ensures !RequiresOwnerEvidence(workingTree, head) ==>
              Classify(workingTree, head, a, writer) == Classify(workingTree, head, b, writer)
  {
  }

  // ----- recovered publications -----

  /** How an open publication is closed, whatever the state: committed when its
      candidate is on disk and no later epoch was issued, lost to the epoch when
      one was, a conflict when the disk holds what it expected or what some
      publication committed, and otherwise unknown. */
  lemma RecoveredExactly(entries: seq<Entry>, request: PublishRequest, disk: Tree, state: ClaimState)
    ensures var outcome := RecoveredOutcome(entries, request, disk, state);
            var bytes := RevisionIn(disk, request.item);
            var overtaken := RecordOf(state, request.item).lastEpoch > request.fence.epoch;
            && (outcome == Rejected(EpochMismatch) <==> overtaken)
            && (outcome == Committed(request.candidate, request.fence)
                <==> !overtaken && bytes == Some(request.candidate))
            && (outcome == Rejected(RevisionConflict)
                <==> && !overtaken && bytes != Some(request.candidate)
                     && (bytes == Some(request.expected) || CommittedBefore(entries, request.item, bytes)))
            && (outcome == Outcome.Unknown
                <==> && !overtaken && bytes !in {Some(request.candidate), Some(request.expected)}
                     && !CommittedBefore(entries, request.item, bytes))
  {
  }

  // ----- whom the findings refuse -----

  /** What is unknown, pending or regressed anywhere refuses every write, as does a
      stale write of global scope; one that waits for others refuses writes to its
      item, and the caller without a target; resolved intents refuse nothing. */
  ghost predicate Refuses(f: Finding, target: Option<ItemId>) {
    match f
    case PendingIntentResolved(_, _) => false
    case StaleWrite(item, decision) => decision.scope.Global? || (decision.scope.Targeted? && target in {None, Some(item)})
    case _ => true
  }

  lemma BlocksIsRefuses(f: Finding, target: Option<ItemId>)
    ensures BlocksTarget(ScopeOf(f), f.item, target) <==> Refuses(f, target)
  {
  }

  lemma UnsafeExactly(findings: set<Finding>, target: Option<ItemId>)
    ensures Unsafe(findings, target) <==> exists f :: f in findings && Refuses(f, target)
  {
    forall f ensures BlocksTarget(ScopeOf(f), f.item, target) <==> Refuses(f, target) {
      BlocksIsRefuses(f, target);
    }
  }

  /** The write gate for claimed items. If a reconciliation lets the target
      through, every item with a live lease that the journal does not coordinate
      has on disk what that lease last published. */
  lemma ClaimedGateIsSound(journal: seq<Entry>, disk: Tree, head: Option<Tree>, env: Env, item: ItemId, lease: Lease, f: nat)
    requires !Reconcile(journal, disk, head, env).unsafe
    requires var r := Reconcile(journal, disk, head, env);
             && RecordOf(r.state, item).active == Some(lease) && r.observedAt < lease.expiresAt
             && LastUnder(r.entries, item, lease.epoch, f) && !IsCoordinated(r.entries, item)
    ensures RevisionIn(disk, item) == Some(Reconcile(journal, disk, head, env).entries[f].outcome.revision)
  {
    var r := Reconcile(journal, disk, head, env);
    if RevisionIn(disk, item) != Some(r.entries[f].outcome.revision) {
      RegressionBlocks(journal, disk, head, env, item);
    }
  }

  /** And conversely: where a live lease's last publication is not on disk, every
      target is refused, as pending when an earlier epoch published what is there
      and otherwise as a regression; on a coordinated item, as pending once it
      has drifted. */
  lemma RegressionBlocks(journal: seq<Entry>, disk: Tree, head: Option<Tree>, env: Env, item: ItemId)
    requires var r := Reconcile(journal, disk, head, env);
             var record, bytes := RecordOf(r.state, item), RevisionIn(disk, item);
             && Regressed(r.entries, item, record, bytes, r.observedAt)
             && (IsCoordinated(r.entries, item) ==>
                   RegressedToEarlier(r.entries, item, record, bytes, r.observedAt) && Drifted(r.entries, item, disk, head))
    ensures var r := Reconcile(journal, disk, head, env);
            && r.unsafe
            && (if RegressedToEarlier(r.entries, item, RecordOf(r.state, item), RevisionIn(disk, item), r.observedAt)
                then ClaimedPublicationPending(item) in r.findings else RevisionRegression(item) in r.findings)
  {
    var r := Reconcile(journal, disk, head, env);
    RegressionFoundExactly(journal, disk, head, env, item);
    PendingFoundExactly(journal, disk, head, env, item);
    ReportedBlocks(journal, disk, head, env,
      if RegressedToEarlier(r.entries, item, RecordOf(r.state, item), RevisionIn(disk, item), r.observedAt)
      then ClaimedPublicationPending(item) else RevisionRegression(item));
  }
}
