/** What a reconciliation guarantees the command behind it: the write gate is
    sound, and reconciling again on unchanged surfaces does nothing. */
module Gate {
  import opened Options
  import opened Leases
  import opened Journal
  import opened Reconciliation
  import opened Seqs

  /** A committed publication of the item. */
  ghost predicate CommittedAt(entries: seq<Entry>, f: nat, item: ItemId) {
    f < |entries| && entries[f].PublishFinal? && entries[f].outcome.Committed? && entries[f].item == item
  }

  /** Some publication of the item committed these bytes. */
  ghost predicate CommittedBefore(entries: seq<Entry>, item: ItemId, bytes: Option<Revision>) {
    exists f: nat :: CommittedAt(entries, f, item) && Some(entries[f].outcome.revision) == bytes
  }

  // ----- the tails append only terminals -----

  lemma {:induction false} LegacyTailShape(pending: seq<Entry>, disk: Tree, at: Instant)
    requires forall i :: 0 <= i < |pending| ==> pending[i].LegacyIntent?
    ensures forall e :: e in LegacyTail(pending, disk, at) ==>
              IsLegacyTerminal(e) && exists i :: 0 <= i < |pending| && ResolveLegacy(pending[i], disk, at) == Some(e)
    ensures forall i :: 0 <= i < |pending| && ResolveLegacy(pending[i], disk, at).Some? ==>
              ResolveLegacy(pending[i], disk, at).value in LegacyTail(pending, disk, at)
  {
    if pending == [] {
    } else {
      var k := |pending| - 1;
      LegacyTailShape(pending[..k], disk, at);
      forall e | e in LegacyTail(pending, disk, at)
        ensures IsLegacyTerminal(e) && exists i :: 0 <= i < |pending| && ResolveLegacy(pending[i], disk, at) == Some(e)
      {
        if e in LegacyTail(pending[..k], disk, at) {
          var i :| 0 <= i < |pending[..k]| && ResolveLegacy(pending[..k][i], disk, at) == Some(e);
          assert pending[i] == pending[..k][i];
        } else {
          assert ResolveLegacy(pending[k], disk, at) == Some(e);
        }
      }
      forall i | 0 <= i < |pending| && ResolveLegacy(pending[i], disk, at).Some?
        ensures ResolveLegacy(pending[i], disk, at).value in LegacyTail(pending, disk, at)
      {
        if i < k { assert pending[i] == pending[..k][i]; }
      }
    }
  }

  /** The pending intent a legacy terminal resolves. */
  lemma ResolvedFrom(pending: seq<Entry>, disk: Tree, at: Instant, e: Entry) returns (p: Entry)
    requires forall i :: 0 <= i < |pending| ==> pending[i].LegacyIntent?
    requires e in LegacyTail(pending, disk, at)
    ensures p in pending && p.LegacyIntent? && ResolveLegacy(p, disk, at) == Some(e)
  {
    LegacyTailShape(pending, disk, at);
    var i :| 0 <= i < |pending| && ResolveLegacy(pending[i], disk, at) == Some(e);
    p := pending[i];
  }

  lemma {:induction false} PublishTailShape(entries: seq<Entry>, pending: seq<Entry>, disk: Tree, state: ClaimState)
    requires forall i :: 0 <= i < |pending| ==> pending[i].PublishIntent?
    ensures var tail := PublishTail(entries, pending, disk, state);
            |tail| == |pending|
            && forall i :: 0 <= i < |pending| ==>
                 tail[i] == RecoveredFinal(entries + tail[..i], pending[i], disk, state)
  {
    if pending == [] {
    } else {
      var k := |pending| - 1;
      PublishTailShape(entries, pending[..k], disk, state);
      var before := PublishTail(entries, pending[..k], disk, state);
      var tail := PublishTail(entries, pending, disk, state);
      forall i | 0 <= i < |pending|
        ensures tail[i] == RecoveredFinal(entries + tail[..i], pending[i], disk, state)
      {
        if i < k {
          assert pending[..k][i] == pending[i];
          assert before[..i] == tail[..i];
        } else {
          assert tail[..k] == before;
        }
      }
    }
  }

  lemma PublishTailHasFinals(entries: seq<Entry>, pending: seq<Entry>, disk: Tree, state: ClaimState)
    requires forall i :: 0 <= i < |pending| ==> pending[i].PublishIntent?
    ensures forall e :: e in PublishTail(entries, pending, disk, state) ==> e.PublishFinal?
  {
    PublishTailShape(entries, pending, disk, state);
  }

  /** Every finalization names a committed final that HEAD carries. */
  lemma {:induction false} FinalizationTailShape(entries: seq<Entry>, scan: seq<Entry>, head: Tree)
    ensures forall e :: e in FinalizationTail(entries, scan, head) ==>
              e.PublishFinalization? && RevisionIn(head, e.item) == Some(e.committed)
              && exists i :: 0 <= i < |scan| && IsCommittedFinal(scan[i]) && FinalizationOf(scan[i]) == e
  {
    if scan == [] {
    } else {
      var k := |scan| - 1;
      FinalizationTailShape(entries, scan[..k], head);
      forall e | e in FinalizationTail(entries, scan, head)
        ensures e.PublishFinalization? && RevisionIn(head, e.item) == Some(e.committed)
        ensures exists i :: 0 <= i < |scan| && IsCommittedFinal(scan[i]) && FinalizationOf(scan[i]) == e
      {
        if e in FinalizationTail(entries, scan[..k], head) {
          var i :| 0 <= i < |scan[..k]| && IsCommittedFinal(scan[..k][i]) && FinalizationOf(scan[..k][i]) == e;
          assert scan[i] == scan[..k][i];
        } else {
          assert IsCommittedFinal(scan[k]) && FinalizationOf(scan[k]) == e;
        }
      }
    }
  }

  lemma FinalizationMonotone(a: seq<Entry>, b: seq<Entry>, op: OperationId, item: ItemId)
    requires HasFinalization(a, op, item)
    ensures HasFinalization(a + b, op, item)
  {
    var i :| 0 <= i < |a| && a[i].PublishFinalization? && a[i].op == op && a[i].item == item;
    assert (a + b)[i] == a[i];
  }

  /** Once scanned, a committed final is finalized or HEAD does not carry it. */
  lemma {:induction false} ScannedIsFinal(entries: seq<Entry>, scan: seq<Entry>, head: Tree, i: nat)
    requires i < |scan|
    ensures !Finalizable(entries + FinalizationTail(entries, scan, head), scan[i], head)
  {
    var k := |scan| - 1;
    var before := FinalizationTail(entries, scan[..k], head);
    var tail := FinalizationTail(entries, scan, head);
    if i < k {
      ScannedIsFinal(entries, scan[..k], head, i);
      assert scan[..k][i] == scan[i];
      if tail != before {
        var last := FinalizationOf(scan[k]);
        assert entries + tail == (entries + before) + [last];
        if IsCommittedFinal(scan[i]) && HasFinalization(entries + before, scan[i].op, scan[i].item) {
          FinalizationMonotone(entries + before, [last], scan[i].op, scan[i].item);
        }
      }
    } else if Finalizable(entries + before, scan[k], head) {
      var all := entries + tail;
      assert all[|all| - 1] == FinalizationOf(scan[k]);
      assert HasFinalization(all, scan[k].op, scan[k].item);
    } else {
      assert tail == before;
    }
  }

  // ----- the write gate -----

  /** One item's share of the gate: when its own finding, if any, blocks nothing. */
  lemma ItemGate(entries: seq<Entry>, item: ItemId, disk: Tree, head: Option<Tree>,
                 state: ClaimState, at: Instant, env: Env)
    requires LatestAuthorization(entries, item).Some?
    requires forall f :: f in CoordinatedFindings(entries, item, disk, head, state, at, env) ==>
               !BlocksTarget(ScopeOf(f), f.item, env.target)
    ensures item in disk ==> disk[item] in Covered(entries, item)
    ensures head.Some? && item in head.value ==> head.value[item] in Covered(entries, item)
    ensures env.target.None? || env.target.value == item ==>
              RevisionIn(disk, item) == LatestAuthorized(entries, item)
  {
    var latest := LatestAuthorization(entries, item).value;
    assert AuthorizedRevision(latest) in Covered(entries, item);
    var found := CoordinatedFindings(entries, item, disk, head, state, at, env);
    if f :| f in found {
      assert !BlocksTarget(ScopeOf(f), f.item, env.target);
    }
  }

  /** The gate is sound. When a reconciliation does not block its target, every
      coordinated item holds, on disk and at HEAD, no bytes or bytes some entry
      covers; and the target, or every item when no target is named, holds
      exactly its latest authorized revision on disk. */
  lemma GateIsSound(journal: seq<Entry>, disk: Tree, head: Option<Tree>, env: Env, item: ItemId)
    requires !Reconcile(journal, disk, head, env).unsafe
    requires item in Coordinated(AfterReconcile(journal, disk, head, env))
    requires LatestAuthorization(AfterReconcile(journal, disk, head, env), item).Some?
    ensures var entries := AfterReconcile(journal, disk, head, env);
            && (item in disk ==> disk[item] in Covered(entries, item))
            && (head.Some? && item in head.value ==> head.value[item] in Covered(entries, item))
            && (env.target.None? || env.target.value == item ==>
                  RevisionIn(disk, item) == LatestAuthorized(entries, item))
  {
    var r := Reconcile(journal, disk, head, env);
    var found := CoordinatedFindings(r.entries, item, disk, head, r.state, r.observedAt, env);
    forall f | f in found
      ensures !BlocksTarget(ScopeOf(f), f.item, env.target)
    {
      FoundIsReported(r.entries, item, disk, head, r.state, r.observedAt, env, f);
      assert f in r.findings;
    }
    ItemGate(r.entries, item, disk, head, r.state, r.observedAt, env);
  }

  lemma FoundIsReported(entries: seq<Entry>, item: ItemId, disk: Tree, head: Option<Tree>,
                        state: ClaimState, at: Instant, env: Env, f: Finding)
    requires item in Coordinated(entries)
    requires f in CoordinatedFindings(entries, item, disk, head, state, at, env)
    ensures f in SurfaceFindings(entries, disk, head, state, at, env)
  {
  }

  lemma ReportedBlocks(journal: seq<Entry>, disk: Tree, head: Option<Tree>, env: Env, f: Finding)
    requires f in Reconcile(journal, disk, head, env).findings && ScopeOf(f).Global?
    ensures Reconcile(journal, disk, head, env).unsafe
  {
  }

  lemma LegacyIsReported(journal: seq<Entry>, disk: Tree, head: Option<Tree>, env: Env, f: Finding)
    requires f in LegacyFindings(PendingLegacy(AfterClock(journal, env), AfterClock(journal, env)), disk)
    ensures f in Reconcile(journal, disk, head, env).findings
  {
  }

  /** A reconciliation that does not block leaves no legacy attempt unresolved. */
  lemma GateClosesLegacy(journal: seq<Entry>, disk: Tree, head: Option<Tree>, env: Env, intent: Entry)
    requires !Reconcile(journal, disk, head, env).unsafe
    requires intent in PendingLegacy(AfterClock(journal, env), AfterClock(journal, env))
    ensures ResolveLegacy(intent, disk, ObservedAt(journal, env.now)).Some?
  {
    ResolutionIgnoresTime(intent, disk, ObservedAt(journal, env.now));
    if ResolveLegacy(intent, disk, 0).None? {
      UnresolvedBlocks(journal, disk, head, env, intent);
    }
  }

  lemma ResolutionIgnoresTime(intent: Entry, disk: Tree, at: Instant)
    requires intent.LegacyIntent?
    ensures ResolveLegacy(intent, disk, at).Some? <==> ResolveLegacy(intent, disk, 0).Some?
  {
  }

  lemma UnresolvedBlocks(journal: seq<Entry>, disk: Tree, head: Option<Tree>, env: Env, intent: Entry)
    requires intent in PendingLegacy(AfterClock(journal, env), AfterClock(journal, env))
    requires ResolveLegacy(intent, disk, 0).None?
    ensures Reconcile(journal, disk, head, env).unsafe
  {
    var j := AfterClock(journal, env);
    var f := LegacyOutcomeUnknown(intent.item, intent.attempt);
    UnresolvedIsFound(PendingLegacy(j, j), disk, intent);
    LegacyIsReported(journal, disk, head, env, f);
    ReportedBlocks(journal, disk, head, env, f);
  }

  lemma {:induction false} UnresolvedIsFound(pending: seq<Entry>, disk: Tree, intent: Entry)
    requires forall i :: 0 <= i < |pending| ==> pending[i].LegacyIntent?
    requires intent in pending
    ensures ResolveLegacy(intent, disk, 0).None? ==>
              LegacyOutcomeUnknown(intent.item, intent.attempt) in LegacyFindings(pending, disk)
  {
    var k := |pending| - 1;
    if intent != pending[k] {
      UnresolvedIsFound(pending[..k], disk, intent);
    }
  }

  /** An unknown outcome recovery records is a finding that blocks every target
      of that reconciliation. */
  lemma UnknownFinalBlocks(journal: seq<Entry>, disk: Tree, head: Option<Tree>, env: Env, final: Entry)
    requires final in PublishPart(journal, disk, env) && final.PublishFinal? && final.outcome.Unknown?
    ensures PublicationOutcomeUnknown(final.item, final.op) in Reconcile(journal, disk, head, env).findings
    ensures Reconcile(journal, disk, head, env).unsafe
  {
    var f := PublicationOutcomeUnknown(final.item, final.op);
    assert f == PublishFinding(final);
    PublishIsReported(journal, disk, head, env, f);
    ReportedBlocks(journal, disk, head, env, f);
  }

  lemma PublishIsReported(journal: seq<Entry>, disk: Tree, head: Option<Tree>, env: Env, f: Finding)
    requires f in PublishFindings(PublishPart(journal, disk, env))
    ensures f in Reconcile(journal, disk, head, env).findings
  {
  }

  /** Nothing is pending, every coordinated item is at its authorized revision
      on disk and covered at HEAD, and no live claim's publication is missing. */
  ghost predicate Clean(entries: seq<Entry>, disk: Tree, head: Option<Tree>, state: ClaimState, at: Instant) {
    && (forall item :: item in Coordinated(entries) ==>
          && RevisionIn(disk, item) == LatestAuthorized(entries, item)
          && (head.Some? ==> item in head.value && head.value[item] in Covered(entries, item)))
    && (forall item :: item in state.claims.Keys - Coordinated(entries) ==>
          ActivePublicationMismatch(entries, item, RecordOf(state, item), RevisionIn(disk, item), at).NoMismatch?)
  }

  lemma CleanFindsNothing(entries: seq<Entry>, disk: Tree, head: Option<Tree>, state: ClaimState, at: Instant, env: Env)
    requires Clean(entries, disk, head, state, at)
    ensures SurfaceFindings(entries, disk, head, state, at, env) == {}
  {
    forall item | item in Coordinated(entries)
      ensures CoordinatedFindings(entries, item, disk, head, state, at, env) == {}
    {
    }
  }

  /** The gate is not vacuous: on clean surfaces every target passes. */
  lemma CleanSurfacesPass(journal: seq<Entry>, disk: Tree, head: Option<Tree>, env: Env)
    requires PendingLegacy(AfterClock(journal, env), AfterClock(journal, env)) == []
    requires PendingPublish(journal, journal) == []
    requires Clean(AfterReconcile(journal, disk, head, env), disk, head,
                   ReconciledState(journal, env), ObservedAt(journal, env.now))
    ensures Reconcile(journal, disk, head, env).findings == {}
    ensures !Reconcile(journal, disk, head, env).unsafe
  {
    CleanFindsNothing(AfterReconcile(journal, disk, head, env), disk, head,
                      ReconciledState(journal, env), ObservedAt(journal, env.now), env);
  }

  // ----- reconciliation is a fixpoint -----

  predicate IsIntent(e: Entry) {
    e.LegacyIntent? || e.PublishIntent?
  }

  /** What the entries after the clock may be. */
  predicate IsRuling(e: Entry) {
    IsLegacyTerminal(e) || e.PublishFinal? || e.PublishFinalization?
  }

  lemma LegacyPhase(journal: seq<Entry>, disk: Tree, env: Env) returns (tail: seq<Entry>)
    ensures AfterLegacy(journal, disk, env) == AfterClock(journal, env) + tail
    ensures tail == LegacyTail(PendingLegacy(AfterClock(journal, env), AfterClock(journal, env)), disk, ObservedAt(journal, env.now))
    ensures forall e :: e in tail ==> IsRuling(e)
  {
    var j := AfterClock(journal, env);
    tail := LegacyTail(PendingLegacy(j, j), disk, ObservedAt(journal, env.now));
    LegacyTailShape(PendingLegacy(j, j), disk, ObservedAt(journal, env.now));
  }

  lemma PublishPhase(journal: seq<Entry>, disk: Tree, env: Env) returns (tail: seq<Entry>)
    ensures AfterPublish(journal, disk, env) == AfterLegacy(journal, disk, env) + tail
    ensures tail == PublishPart(journal, disk, env)
    ensures forall e :: e in tail ==> IsRuling(e)
  {
    tail := PublishPart(journal, disk, env);
    PublishTailShape(AfterLegacy(journal, disk, env), PendingPublish(journal, journal), disk, ReconciledState(journal, env));
  }

  lemma FinalizePhase(journal: seq<Entry>, disk: Tree, head: Option<Tree>, env: Env) returns (tail: seq<Entry>)
    ensures AfterReconcile(journal, disk, head, env) == AfterPublish(journal, disk, env) + tail
    ensures forall e :: e in tail ==> IsRuling(e)
    ensures head.Some? ==> tail == FinalizationTail(AfterPublish(journal, disk, env), AfterPublish(journal, disk, env), head.value)
    ensures head.None? ==> tail == []
  {
    var j := AfterPublish(journal, disk, env);
    if head.Some? {
      tail := FinalizationTail(j, j, head.value);
      FinalizationTailShape(j, j, head.value);
    } else {
      tail := [];
      assert j + tail == j;
    }
  }

  /** A reconciliation appends one clock entry and then only rulings: no intent,
      no claim and no adoption, so it opens nothing. */
  lemma ReconcileOpensNothing(journal: seq<Entry>, disk: Tree, head: Option<Tree>, env: Env) returns (tail: seq<Entry>)
    ensures AfterReconcile(journal, disk, head, env) == AfterClock(journal, env) + tail
    ensures forall e :: e in tail ==> IsRuling(e)
  {

    var t1 := LegacyPhase(journal, disk, env);
    var t2 := PublishPhase(journal, disk, env);
    var t3 := FinalizePhase(journal, disk, head, env);
    var j := AfterClock(journal, env);
    tail := t1 + t2 + t3;
    Assoc4(j, t1, t2, t3);
  }

  lemma OldIntent(journal: seq<Entry>, c: Entry, tail: seq<Entry>, e: Entry)
    requires c.Clock? && IsIntent(e) && e in journal + [c] + tail
    requires forall x :: x in tail ==> IsRuling(x)
    ensures e in journal
  {
  }

  lemma FinalMonotone(a: seq<Entry>, b: seq<Entry>, op: OperationId, item: ItemId)
    requires HasFinal(a, op, item)
    ensures HasFinal(a + b, op, item)
  {
    var i :| 0 <= i < |a| && a[i].PublishFinal? && a[i].op == op && a[i].item == item;
    assert (a + b)[i] == a[i];
  }

  lemma TerminalMonotone(a: seq<Entry>, b: seq<Entry>, attempt: AttemptId)
    requires HasLegacyTerminal(a, attempt)
    ensures HasLegacyTerminal(a + b, attempt)
  {
    var i :| 0 <= i < |a| && IsLegacyTerminal(a[i]) && a[i].attempt == attempt;
    assert (a + b)[i] == a[i];
  }

  /** After a reconciliation every publish intent has its final. */
  lemma ReconcileClosesPublish(journal: seq<Entry>, disk: Tree, head: Option<Tree>, env: Env, intent: Entry)
    requires intent.PublishIntent? && intent in AfterReconcile(journal, disk, head, env)
    ensures HasFinal(AfterReconcile(journal, disk, head, env), intent.digest.op, intent.digest.item)
  {
    var tail := ReconcileOpensNothing(journal, disk, head, env);
    OldIntent(journal, Clock(env.now, ObservedAt(journal, env.now)), tail, intent);
    var op, item := intent.digest.op, intent.digest.item;
    if HasFinal(journal, op, item) {
      FinalMonotone(journal, [Clock(env.now, ObservedAt(journal, env.now))], op, item);
      FinalMonotone(AfterClock(journal, env), tail, op, item);
    } else {
      var finals := PublishPhase(journal, disk, env);
      var rest := FinalizePhase(journal, disk, head, env);
      PendingIsClosed(AfterLegacy(journal, disk, env), PendingPublish(journal, journal), disk, ReconciledState(journal, env), intent);
      FinalMonotone(AfterPublish(journal, disk, env), rest, op, item);
    }
  }

  lemma PendingIsClosed(entries: seq<Entry>, pending: seq<Entry>, disk: Tree, state: ClaimState, intent: Entry)
    requires forall i :: 0 <= i < |pending| ==> pending[i].PublishIntent?
    requires intent in pending
    ensures HasFinal(entries + PublishTail(entries, pending, disk, state), intent.digest.op, intent.digest.item)
  {
    PublishTailShape(entries, pending, disk, state);
    var tail := PublishTail(entries, pending, disk, state);
    var i :| 0 <= i < |pending| && pending[i] == intent;
    assert (entries + tail)[|entries| + i] == tail[i];
  }

  lemma ResolvedIsClosed(entries: seq<Entry>, pending: seq<Entry>, disk: Tree, at: Instant, intent: Entry)
    requires forall i :: 0 <= i < |pending| ==> pending[i].LegacyIntent?
    requires intent in pending && ResolveLegacy(intent, disk, at).Some?
    ensures HasLegacyTerminal(entries + LegacyTail(pending, disk, at), intent.attempt)
  {
    LegacyTailShape(pending, disk, at);
    var tail := LegacyTail(pending, disk, at);
    var i :| 0 <= i < |pending| && pending[i] == intent;
    var e := ResolveLegacy(intent, disk, at).value;
    var q :| 0 <= q < |tail| && tail[q] == e;
    assert (entries + tail)[|entries| + q] == e;
  }

  /** After a reconciliation an open legacy intent is one whose item holds a
      third revision, neither expected nor candidate. */
  lemma ReconcileLeavesThirdRevisions(journal: seq<Entry>, disk: Tree, head: Option<Tree>, env: Env, intent: Entry)
    requires OpenLegacy(AfterReconcile(journal, disk, head, env), intent)
    ensures RevisionIn(disk, intent.item) != Some(intent.candidate)
    ensures RevisionIn(disk, intent.item) != intent.expected
    ensures intent in PendingLegacy(AfterClock(journal, env), AfterClock(journal, env))
  {
    var j := AfterClock(journal, env);
    var at := ObservedAt(journal, env.now);
    var tail := ReconcileOpensNothing(journal, disk, head, env);
    OldIntent(journal, Clock(env.now, at), tail, intent);
    if HasLegacyTerminal(j, intent.attempt) {
      TerminalMonotone(j, tail, intent.attempt);
    }
    var t1 := LegacyPhase(journal, disk, env);
    var t2 := PublishPhase(journal, disk, env);
    var t3 := FinalizePhase(journal, disk, head, env);
    if ResolveLegacy(intent, disk, at).Some? {
      ResolvedIsClosed(j, PendingLegacy(j, j), disk, at, intent);
      TerminalMonotone(j + t1, t2, intent.attempt);
      TerminalMonotone(j + t1 + t2, t3, intent.attempt);
    }
  }

  lemma UnresolvedTail(pending: seq<Entry>, disk: Tree, at: Instant)
    requires forall i :: 0 <= i < |pending| ==> pending[i].LegacyIntent? && ResolveLegacy(pending[i], disk, at).None?
    ensures LegacyTail(pending, disk, at) == []
  {
    LegacyTailShape(pending, disk, at);
  }

  /** The second run's legacy phase resolves nothing. */
  lemma SecondLegacyPhase(journal: seq<Entry>, disk: Tree, head: Option<Tree>, env: Env, again: Env)
    ensures var first := AfterReconcile(journal, disk, head, env);
            AfterLegacy(first, disk, again) == AfterClock(first, again)
  {
    var first := AfterReconcile(journal, disk, head, env);
    var j := AfterClock(first, again);
    var at := ObservedAt(first, again.now);
    var pending := PendingLegacy(j, j);
    forall i | 0 <= i < |pending| ensures ResolveLegacy(pending[i], disk, at).None? {
      var intent := pending[i];
      assert intent in pending;
      if HasLegacyTerminal(first, intent.attempt) {
        TerminalMonotone(first, [Clock(again.now, at)], intent.attempt);
      }
      ReconcileLeavesThirdRevisions(journal, disk, head, env, intent);
    }
    UnresolvedTail(pending, disk, at);
    assert j + [] == j;
  }

  lemma SecondPublishPhase(journal: seq<Entry>, disk: Tree, head: Option<Tree>, env: Env)
    ensures var first := AfterReconcile(journal, disk, head, env);
            PendingPublish(first, first) == []
  {
    var first := AfterReconcile(journal, disk, head, env);
    var open := PendingPublish(first, first);
    if open != [] {
      assert open[0] in open;
      ReconcileClosesPublish(journal, disk, head, env, open[0]);
    }
  }

  /** Reconciling again with the same disk and HEAD appends exactly one clock
      entry, whatever the second invocation's time, target and writer, so the
      projected log does not change. */
  lemma ReconcileIsFixpoint(journal: seq<Entry>, disk: Tree, head: Option<Tree>, env: Env, again: Env)
    ensures var first := AfterReconcile(journal, disk, head, env);
            var second := AfterReconcile(first, disk, head, again);
            second == first + [Clock(again.now, ObservedAt(first, again.now))]
            && Projected(second) == Projected(first)
  {
    var first := AfterReconcile(journal, disk, head, env);
    var j := AfterClock(first, again);
    SecondLegacyPhase(journal, disk, head, env, again);
    SecondPublishPhase(journal, disk, head, env);
    assert AfterPublish(first, disk, again) == j by { assert j + [] == j; }
    if head.Some? {
      var published := AfterPublish(journal, disk, env);
      NothingLeftToFinalize(published, head.value, Clock(again.now, ObservedAt(first, again.now)), |j|);
      assert j[..|j|] == j && j + [] == j;
    }
    ProjectedAppend(first, Clock(again.now, ObservedAt(first, again.now)));
  }

  /** A second scan finds every committed final finalized or not at HEAD. */
  lemma {:induction false} NothingLeftToFinalize(published: seq<Entry>, head: Tree, c: Entry, n: nat)
    requires c.Clock?
    requires n <= |published + FinalizationTail(published, published, head) + [c]|
    ensures var j := published + FinalizationTail(published, published, head) + [c];
            FinalizationTail(j, j[..n], head) == []
  {
    var tail := FinalizationTail(published, published, head);
    var j := published + tail + [c];
    if n == 0 {
    } else {
      NothingLeftToFinalize(published, head, c, n - 1);
      TakeTake(j, n, n - 1);
      NotFinalizableAgain(published, head, c, n - 1);
      AddNothing(j);
    }
  }

  lemma NotFinalizableAgain(published: seq<Entry>, head: Tree, c: Entry, i: nat)
    requires c.Clock? && i < |published + FinalizationTail(published, published, head) + [c]|
    ensures var j := published + FinalizationTail(published, published, head) + [c];
            !Finalizable(j, j[i], head)
  {
    var tail := FinalizationTail(published, published, head);
    var j := published + tail + [c];
    if i < |published| {
      ScannedIsFinal(published, published, head, i);
      if IsCommittedFinal(j[i]) && HasFinalization(published + tail, j[i].op, j[i].item) {
        FinalizationMonotone(published + tail, [c], j[i].op, j[i].item);
      }
    } else if i < |published + tail| {
      FinalizationTailShape(published, published, head);
      assert j[i] == tail[i - |published|];
      assert j[i] in tail;
    }
  }

  /** The barrier an unknown outcome raises lasts one reconciliation: the next one
      has no finding about any publication left to recover. */
  lemma PublishFindingsLastOnce(journal: seq<Entry>, disk: Tree, head: Option<Tree>, env: Env, again: Env, f: Finding)
    requires f.PublicationOutcomeUnknown? || f.PendingIntentResolved?
    ensures f !in Reconcile(AfterReconcile(journal, disk, head, env), disk, head, again).findings
  {
    SecondPublishPhase(journal, disk, head, env);
    NoPublicationFound(AfterReconcile(journal, disk, head, env), disk, head, again, f);
  }

  lemma NoPublicationFound(journal: seq<Entry>, disk: Tree, head: Option<Tree>, env: Env, f: Finding)
    requires PendingPublish(journal, journal) == [] && (f.PublicationOutcomeUnknown? || f.PendingIntentResolved?)
    ensures f !in Reconcile(journal, disk, head, env).findings
  {
    var j := AfterClock(journal, env);
    LegacyFindingsAre(PendingLegacy(j, j), disk);
    SurfaceFindingsAre(AfterReconcile(journal, disk, head, env), disk, head, ReconciledState(journal, env),
                       ObservedAt(journal, env.now), env, f);
  }

  lemma SurfaceFindingsAre(entries: seq<Entry>, disk: Tree, head: Option<Tree>,
                           state: ClaimState, at: Instant, env: Env, f: Finding)
    requires f.PublicationOutcomeUnknown? || f.PendingIntentResolved?
    ensures f !in SurfaceFindings(entries, disk, head, state, at, env)
  {
  }

  lemma {:induction false} LegacyFindingsAre(pending: seq<Entry>, disk: Tree)
    requires forall i :: 0 <= i < |pending| ==> pending[i].LegacyIntent?
    ensures forall f :: f in LegacyFindings(pending, disk) ==> f.LegacyOutcomeUnknown?
  {
    if pending == [] {
    } else {
      LegacyFindingsAre(pending[..|pending| - 1], disk);
    }
  }

  /** The state a reconciliation hands on is what its journal replays to. */
  lemma ReconciledStateIsReplay(journal: seq<Entry>, disk: Tree, head: Option<Tree>, env: Env)
    ensures Replay(AfterReconcile(journal, disk, head, env)) == ReconciledState(journal, env)
  {
    var j := AfterClock(journal, env);
    var tail := ReconcileOpensNothing(journal, disk, head, env);
    ReplayAppend(journal, Clock(env.now, ObservedAt(journal, env.now)));
    ReplayIgnores(j, tail);
  }
}
