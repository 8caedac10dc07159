/** Journals that rule on nothing yet: what a reconciliation and a claim command
    make of them. The concrete runs of the other modules start here. */
module QuietJournals {
  import opened Options
  import opened Leases
  import opened Journal
  import opened Reconciliation
  import opened Gate
  import opened Protocol
  import opened Fencing

  /** Nothing authorizes, finalizes or opens a legacy attempt. */
  ghost predicate Quiet(j: seq<Entry>) {
    forall i :: 0 <= i < |j| ==> !IsAuthorization(j[i]) && !j[i].PublishFinalization? && !j[i].LegacyIntent?
  }

  lemma {:induction false} NoLegacyPending(j: seq<Entry>, prefix: seq<Entry>)
    requires forall i :: 0 <= i < |prefix| ==> !prefix[i].LegacyIntent?
    ensures PendingLegacy(j, prefix) == []
  {
    if prefix == [] {
    } else {
      NoLegacyPending(j, prefix[..|prefix| - 1]);
    }
  }

  lemma {:induction false} QuietIsUnpublished(j: seq<Entry>, item: ItemId, epoch: nat)
    requires Quiet(j)
    ensures LatestUnderEpoch(j, item, epoch) == None
  {
    if j == [] {
    } else {
      QuietIsUnpublished(j[..|j| - 1], item, epoch);
    }
  }

  lemma {:induction false} QuietFinalizesNothing(j: seq<Entry>, scan: seq<Entry>, head: Tree)
    requires Quiet(scan)
    ensures FinalizationTail(j, scan, head) == []
  {
    if scan == [] {
    } else {
      QuietFinalizesNothing(j, scan[..|scan| - 1], head);
    }
  }

  lemma {:induction false} NoPublishPending(j: seq<Entry>, prefix: seq<Entry>)
    requires forall i :: 0 <= i < |prefix| && prefix[i].PublishIntent? ==> HasFinal(j, prefix[i].digest.op, prefix[i].digest.item)
    ensures PendingPublish(j, prefix) == []
  {
    if prefix == [] {
    } else {
      NoPublishPending(j, prefix[..|prefix| - 1]);
    }
  }

  /** Without pending attempts the reconciliation of a quiet journal appends its
      clock entry, finds nothing and lets every target through. */
  lemma QuietReconciles(w: World, env: Env)
    requires Quiet(w.journal) && PendingPublish(w.journal, w.journal) == []
    ensures Caught(w, env) == AfterClock(w.journal, env)
    ensures ReconcileIn(w, env).findings == {} && !ReconcileIn(w, env).unsafe
  {
    var k := AfterClock(w.journal, env);
    NoLegacyPending(k, k);
    assert k + [] == k;
    assert AfterPublish(w.journal, w.disk, env) == k;
    if w.head.Some? {
      QuietFinalizesNothing(k, k, w.head.value);
    }
    QuietIsClean(k, w.disk, w.head, ReconciledState(w.journal, env), ObservedAt(w.journal, env.now));
    CleanSurfacesPass(w.journal, w.disk, w.head, env);
  }

  lemma QuietIsClean(j: seq<Entry>, disk: Tree, head: Option<Tree>, state: ClaimState, at: Instant)
    requires Quiet(j)
    ensures Clean(j, disk, head, state, at)
  {
    assert Coordinated(j) == {};
    forall item | item in state.claims.Keys
      ensures ActivePublicationMismatch(j, item, RecordOf(state, item), RevisionIn(disk, item), at).NoMismatch?
    {
      if RecordOf(state, item).active.Some? {
        QuietIsUnpublished(j, item, RecordOf(state, item).active.value.epoch);
      }
    }
  }

  /** When reconciling appends the clock entry alone, so do its effects. */
  lemma OnlyClockEffects(w: World, env: Env)
    requires Caught(w, env) == AfterClock(w.journal, env)
    ensures ReconcileEffects(w, env) == [Append(Clock(env.now, ObservedAt(w.journal, env.now)))]
  {
    var c := Clock(env.now, ObservedAt(w.journal, env.now));
    assert (w.journal + [c])[|w.journal|..] == [c];
    AppendsLength([c]);
  }

  /** A verification, and a claim command, journaled in full. */
  lemma QuietVerifyRuns(w: World, env: Env)
    requires Quiet(w.journal) && PendingPublish(w.journal, w.journal) == []
    ensures Perform(w, Action(Verify(env), 1)) == w.(journal := w.journal + [Clock(env.now, ObservedAt(w.journal, env.now))])
  {
    QuietReconciles(w, env);
    OnlyClockEffects(w, env);
    var es := ReconcileEffects(w, env);
    assert es[..1] == es;
    ApplyOne(w, es[0]);
  }

  lemma QuietClaimRuns(w: World, env: Env, request: Request)
    requires Quiet(w.journal) && PendingPublish(w.journal, w.journal) == []
    ensures Perform(w, Action(ClaimCommand(env, request), 2))
         == w.(journal := w.journal + [Clock(env.now, ObservedAt(w.journal, env.now)), Claim(request, env.now)])
  {
    QuietReconciles(w, env);
    OnlyClockEffects(w, env);
    var c, claim := Clock(env.now, ObservedAt(w.journal, env.now)), Claim(request, env.now);
    var es := ClaimEffects(w, env, request);
    AppendsLength([c, claim]);
    assert es == Appends([c, claim]) && es[..2] == es;
    ApplyAppends(w, [c, claim]);
  }
}
