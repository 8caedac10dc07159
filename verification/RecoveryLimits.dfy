/** Where crash recovery does less than its documentation promises, and exactly
    when: a stale publication that died between its intent and the revision
    check, and a publication whose bytes landed but whose outcome was reported
    unknown. */
module RecoveryLimits {
  import opened Options
  import opened Leases
  import opened Journal
  import opened Reconciliation
  import opened Gate
  import opened Protocol
  import opened Fencing
  import opened Recovery
  import opened QuietJournals

  // ----- a publication that reaches its write -----

  function IntentFor(w: World, env: Env, request: PublishRequest): Entry {
    PublishIntent(request, ObservedAt(w.journal, env.now), env.writer)
  }

  lemma FencedShape(r: Reconciled, env: Env, request: PublishRequest, write: Attempted, outcome: Outcome)
    requires FenceRejection(request, RecordOf(r.state, request.item).active, r.observedAt).None?
    requires ReportedOutcome(request, write.report) == Some(outcome)
    ensures FencedEffects(r, env, request, write)
         == [Append(PublishIntent(request, r.observedAt, env.writer))]
            + WriteEffect(write, request.item, request.candidate)
            + [Append(FinalFor(env, request, outcome))]
  {
  }

  /** Under a report that has a terminal: reconciliation, intent, write, final. */
  lemma ReachedEffects(w: World, env: Env, request: PublishRequest, write: Attempted, outcome: Outcome)
    requires ReachesWrite(w, env, request, true)
    requires ReportedOutcome(request, write.report) == Some(outcome)
    ensures PublishEffects(w, env, request, true, write)
         == ReconcileEffects(w, env)
            + ([Append(IntentFor(w, env, request))]
               + WriteEffect(write, request.item, request.candidate)
               + [Append(FinalFor(env, request, outcome))])
  {
    FencedShape(ReconcileIn(w, env), env, request, write, outcome);
  }

  /** Run to its end under a report that has a terminal, and bytes that landed. */
  lemma ReachedApplies(w: World, env: Env, request: PublishRequest, write: Attempted, outcome: Outcome)
    requires ReachesWrite(w, env, request, true)
    requires write.applied && ReportedOutcome(request, write.report) == Some(outcome)
    ensures ApplyAll(w, PublishEffects(w, env, request, true, write))
         == World(Caught(w, env) + [IntentFor(w, env, request)] + [FinalFor(env, request, outcome)],
                  w.disk[request.item := request.candidate], w.head)
  {
    var w1 := w.(journal := Caught(w, env));
    var intent, final := IntentFor(w, env, request), FinalFor(env, request, outcome);
    ReachedEffects(w, env, request, write, outcome);
    AfterReconciling(w, env, [Append(intent)] + [Write(request.item, request.candidate)] + [Append(final)]);
    ApplyFence(w1, intent, [Write(request.item, request.candidate)], [Append(final)]);
    ApplyOne(w1.(journal := w1.journal + [intent]), Write(request.item, request.candidate));
    ApplyOne(World(w1.journal + [intent], w.disk[request.item := request.candidate], w.head), Append(final));
  }

  /** Cutting an invocation that does one thing and then a fence. */
  lemma CutFence(es: seq<Effect>, first: Effect, intent: Effect, write: seq<Effect>, terminal: seq<Effect>)
    requires es == [first] + ([intent] + write + terminal)
    ensures |es| >= 2 && es[..2] == [first] + [intent]
    ensures |write| == 1 && |terminal| == 1 ==> es[..4] == es
  {
  }

  function ClockFor(w: World, env: Env): Entry {
    Clock(env.now, ObservedAt(w.journal, env.now))
  }

  /** What an action whose effects are known keeps of them. */
  lemma PerformCut(w: World, a: Action, es: seq<Effect>, kept: seq<Effect>)
    requires Effects(w, a.step) == es && a.kept <= |es| && es[..a.kept] == kept
    ensures Perform(w, a) == ApplyAll(w, kept)
  {
  }

  /** Its effects as a list, when reconciling has only the clock to append. */
  lemma ReachedShape(w: World, step: Step, outcome: Outcome)
    requires step.Publish? && step.candidateValid && ReachesWrite(w, step.env, step.publication, true)
    requires Caught(w, step.env) == AfterClock(w.journal, step.env)
    requires ReportedOutcome(step.publication, step.write.report) == Some(outcome)
    ensures Effects(w, step)
         == [Append(ClockFor(w, step.env))]
            + ([Append(IntentFor(w, step.env, step.publication))]
               + WriteEffect(step.write, step.publication.item, step.publication.candidate)
               + [Append(FinalFor(step.env, step.publication, outcome))])
  {
    OnlyClockEffects(w, step.env);
    ReachedEffects(w, step.env, step.publication, step.write, outcome);
  }

  /** Such an action run to its end. */
  lemma FenceRuns(w: World, a: Action, c: Entry, intent: Entry, write: Effect, final: Entry)
    requires Effects(w, a.step) == [Append(c)] + ([Append(intent)] + [write] + [Append(final)])
    requires a.kept == 4 && write.Write?
    ensures Perform(w, a) == World(w.journal + [c] + [intent] + [final], w.disk[write.item := write.revision], w.head)
  {
    var es := Effects(w, a.step);
    var w1 := w.(journal := w.journal + [c]);
    CutFence(es, Append(c), Append(intent), [write], [Append(final)]);
    PerformCut(w, a, es, es);
    ApplyFirst(w, Append(c), [Append(intent)] + [write] + [Append(final)]);
    ApplyFence(w1, intent, [write], [Append(final)]);
    ApplyOne(w1.(journal := w1.journal + [intent]), write);
    ApplyOne(World(w1.journal + [intent], w.disk[write.item := write.revision], w.head), Append(final));
  }

  /** Such an action killed right after its intent reached the journal. */
  lemma FenceCrashes(w: World, a: Action, c: Entry, intent: Entry, write: seq<Effect>, terminal: seq<Effect>)
    requires Effects(w, a.step) == [Append(c)] + ([Append(intent)] + write + terminal) && a.kept == 2
    ensures Perform(w, a) == w.(journal := w.journal + [c] + [intent])
  {
    var es := Effects(w, a.step);
    CutFence(es, Append(c), Append(intent), write, terminal);
    PerformCut(w, a, es, [Append(c)] + [Append(intent)]);
    ClockAndIntent(w, c, intent);
  }

  lemma ClockAndIntent(w: World, c: Entry, intent: Entry)
    ensures ApplyAll(w, [Append(c)] + [Append(intent)]) == w.(journal := w.journal + [c] + [intent])
  {
    ApplyFirst(w, Append(c), [Append(intent)]);
    ApplyOne(w.(journal := w.journal + [c]), Append(intent));
  }

  /** One more action of a run known so far. */
  lemma NextAction(w: World, actions: seq<Action>, a: Action, now: World)
    requires Lawful(w, actions) && InProtocolRun(w, actions) && Run(w, actions) == now && Admissible(now, a.step)
    ensures Lawful(w, actions + [a]) && Run(w, actions + [a]) == Perform(now, a)
    ensures InProtocol(now, a.step) ==> InProtocolRun(w, actions + [a])
  {
    RunSnoc(w, actions, a);
    if InProtocol(now, a.step) {
      InProtocolSnoc(w, actions, a);
    }
  }

  // ----- a lease, and publications under it -----

  const OWNER: OwnerId := 1
  const ENV_ACQUIRE := Env(10, Some(0), None, map[])
  const ENV_PUBLISH := Env(20, Some(0), None, map[])
  const ACQUIRE := Acquire(0, OWNER, 1000, EMPTY_RECORD)
  const FENCE := Fence(NAMESPACE, 0, OWNER, 1)
  const HELD := ClaimRecord(1, Some(Lease(OWNER, 1, 10, 1010)))
  const START := Initial(map[0 := 5], None)
  const CLAIMED := [Clock(10, 10), Claim(ACQUIRE, 10)]
  const CLAIMED_WORLD := World(CLAIMED, map[0 := 5], None)
  const ACQUIRING := Action(ClaimCommand(ENV_ACQUIRE, ACQUIRE), 2)

  lemma ClaimedState()
    ensures Replay(CLAIMED) == ClaimState(Some(10), map[0 := HELD])
  {
    assert CLAIMED[..1] == [Clock(10, 10)];
    assert CLAIMED[..1][..0] == [];
    assert Replay(CLAIMED[..1]) == ClaimState(Some(10), map[]);
  }

  lemma AcquireRuns()
    ensures Lawful(START, [ACQUIRING]) && InProtocolRun(START, [ACQUIRING])
    ensures Run(START, [ACQUIRING]) == CLAIMED_WORLD
  {
    NoPublishPending([], []);
    QuietClaimRuns(START, ENV_ACQUIRE, ACQUIRE);
    assert [] + CLAIMED == CLAIMED;
    NextAction(START, [], ACQUIRING, START);
    assert [] + [ACQUIRING] == [ACQUIRING];
  }

  /** Under the lease a publication of item 0 reaches its write. */
  lemma FirstReaches(request: PublishRequest)
    requires request.ns == NAMESPACE && request.item == 0 && request.fence == FENCE
    ensures Caught(CLAIMED_WORLD, ENV_PUBLISH) == AfterClock(CLAIMED, ENV_PUBLISH)
    ensures AfterClock(CLAIMED, ENV_PUBLISH) == CLAIMED + [Clock(20, 20)] && ObservedAt(CLAIMED, 20) == 20
    ensures ReachesWrite(CLAIMED_WORLD, ENV_PUBLISH, request, true)
  {
    ClaimedState();
    NoPublishPending(CLAIMED, CLAIMED);
    QuietReconciles(CLAIMED_WORLD, ENV_PUBLISH);
  }

  // ----- a stale publication that crashed after its intent -----

  /** The disk holds revision 5; the request was drawn up against revision 6. */
  const STALE := PublishRequest(7, NAMESPACE, 0, 6, 9, FENCE)
  const REFUSED := Attempted(false, FoundConflict)
  const STALE_ACTION := Action(Publish(ENV_PUBLISH, STALE, true, REFUSED), 2)

  /** Acquire, then publish, killed right after the intent reached the journal. */
  const STALE_RUN := [ACQUIRING] + [STALE_ACTION]

  const STALE_INTENT := PublishIntent(STALE, 20, None)
  const STALE_FINAL := PublishFinal(7, STALE, 0, None, Outcome.Unknown)
  const CRASHED := CLAIMED + [Clock(20, 20)] + [STALE_INTENT]
  const CRASHED_WORLD := World(CRASHED, map[0 := 5], None)

  lemma StalePublishRuns()
    ensures Admissible(CLAIMED_WORLD, STALE_ACTION.step) && InProtocol(CLAIMED_WORLD, STALE_ACTION.step)
    ensures Perform(CLAIMED_WORLD, STALE_ACTION) == CRASHED_WORLD
  {
    FirstReaches(STALE);
    ReachedShape(CLAIMED_WORLD, STALE_ACTION.step, Rejected(RevisionConflict));
    FenceCrashes(CLAIMED_WORLD, STALE_ACTION, Clock(20, 20), STALE_INTENT,
                 [], [Append(FinalFor(ENV_PUBLISH, STALE, Rejected(RevisionConflict)))]);
  }

  lemma StaleRunIsLawful()
    ensures Lawful(START, STALE_RUN) && InProtocolRun(START, STALE_RUN)
    ensures Run(START, STALE_RUN) == CRASHED_WORLD
  {
    AcquireRuns();
    StalePublishRuns();
    NextAction(START, [ACQUIRING], STALE_ACTION, CLAIMED_WORLD);
  }

  lemma StaleIntentIsPending()
    ensures PendingPublish(CRASHED, CRASHED) == [STALE_INTENT] && OpenPublish(CRASHED, STALE_INTENT)
  {
    assert CRASHED[3] == STALE_INTENT;
    assert CRASHED[..3] == CLAIMED + [Clock(20, 20)];
    NoPublishPending(CRASHED, CRASHED[..3]);
  }

  lemma StaleFenceIsCurrent(env: Env)
    ensures !HigherEpoch(ReconciledState(CRASHED, env), STALE)
  {
    StaleRunIsLawful();
    StaleIntentIsPending();
    HigherEpochIsUnreachable(START, STALE_RUN, env, STALE_INTENT);
  }

  lemma StaleIsOutcomeUnknown(env: Env)
    ensures RecoveredFinal(AfterClock(CRASHED, env), STALE_INTENT, CRASHED_WORLD.disk, ReconciledState(CRASHED, env)) == STALE_FINAL
  {
    StaleFenceIsCurrent(env);
    QuietPublishedNothing(AfterClock(CRASHED, env), 0, Some(5));
  }

  lemma QuietPublishedNothing(j: seq<Entry>, item: ItemId, actual: Option<Revision>)
    requires Quiet(j)
    ensures !PublishedBefore(j, item, actual)
  {
  }

  lemma OnePublishTail(j: seq<Entry>, intent: Entry, disk: Tree, state: ClaimState)
    requires intent.PublishIntent?
    ensures PublishTail(j, [intent], disk, state) == [RecoveredFinal(j, intent, disk, state)]
  {
    assert [intent][..0] == [] && j + [] == j;
  }

  /** A lone pending publication of a quiet journal gets its one final. */
  lemma QuietRecovers(w: World, env: Env, intent: Entry)
    requires Quiet(w.journal) && w.head.None?
    requires intent.PublishIntent? && PendingPublish(w.journal, w.journal) == [intent]
    ensures var final := RecoveredFinal(AfterClock(w.journal, env), intent, w.disk, ReconciledState(w.journal, env));
            PublishPart(w.journal, w.disk, env) == [final]
            && Caught(w, env) == AfterClock(w.journal, env) + [final]
  {
    var k := AfterClock(w.journal, env);
    NoLegacyPending(k, k);
    assert AfterLegacy(w.journal, w.disk, env) == k by { assert k + [] == k; }
    OnePublishTail(k, intent, w.disk, ReconciledState(w.journal, env));
  }

  lemma StaleIsRecovered(env: Env)
    ensures PublishPart(CRASHED, CRASHED_WORLD.disk, env) == [STALE_FINAL]
    ensures Caught(CRASHED_WORLD, env) == AfterClock(CRASHED, env) + [STALE_FINAL]
  {
    StaleIntentIsPending();
    StaleIsOutcomeUnknown(env);
    QuietRecovers(CRASHED_WORLD, env, STALE_INTENT);
  }

  /** The reconciliation that records a lone unknown outcome blocks; the next
      one does not. */
  lemma BlocksOnce(w: World, env: Env, again: Env, final: Entry)
    requires Quiet(w.journal) && final.PublishFinal? && final.outcome.Unknown?
    requires PublishPart(w.journal, w.disk, env) == [final]
    requires Caught(w, env) == AfterClock(w.journal, env) + [final]
    ensures ReconcileIn(w, env).unsafe
    ensures var second := ReconcileIn(w.(journal := Caught(w, env)), again);
            second.findings == {} && !second.unsafe
  {
    UnknownFinalBlocks(w.journal, w.disk, w.head, env, final);
    StaysQuiet(w.journal, env, final);
    SecondPublishPhase(w.journal, w.disk, w.head, env);
    QuietReconciles(w.(journal := Caught(w, env)), again);
  }

  lemma StaysQuiet(j: seq<Entry>, env: Env, final: Entry)
    requires Quiet(j) && final.PublishFinal? && !final.outcome.Committed?
    ensures Quiet(AfterClock(j, env) + [final])
  {
  }

  /** A reachable crash the next reconciliation does not close as committed,
      aborted or conflicting: the stale intent becomes an unknown outcome, though
      the disk was never in doubt. That reconciliation blocks every target; the
      one after it finds nothing and blocks none. */
  lemma StaleCrashIsRecordedUnknown(env: Env, again: Env)
    ensures Lawful(START, STALE_RUN) && InProtocolRun(START, STALE_RUN)
    ensures Run(START, STALE_RUN) == CRASHED_WORLD && OpenPublish(CRASHED, STALE_INTENT)
    ensures var first := ReconcileIn(CRASHED_WORLD, env);
            var second := ReconcileIn(CRASHED_WORLD.(journal := first.entries), again);
            && first.entries == AfterClock(CRASHED, env) + [STALE_FINAL]
            && first.unsafe
            && second.findings == {} && !second.unsafe
  {
    StaleRunIsLawful();
    StaleIntentIsPending();
    StaleIsRecovered(env);
    CrashedIsQuiet();
    BlocksOnce(CRASHED_WORLD, env, again, STALE_FINAL);
  }

  lemma CrashedIsQuiet()
    ensures Quiet(CRASHED)
  {
  }

  // ----- bytes that landed under an unknown report -----

  const UNTOLD := Attempted(true, CouldNotTell)

  /** When the write engine applies a publication and then cannot tell, the
      recorded final authorizes nothing: the item keeps its ruling on disk
      exactly when it had none or the candidate already was it. No other item
      loses anything. */
  lemma UnknownReportLosesAuthority(w: World, env: Env, request: PublishRequest, other: ItemId)
    requires SoundWorld(w) && Admissible(w, Publish(env, request, true, UNTOLD))
    requires ReachesWrite(w, env, request, true) && other != request.item
    ensures var after := ApplyAll(w, PublishEffects(w, env, request, true, UNTOLD));
            && RevisionIn(after.disk, request.item) == Some(request.candidate)
            && LatestAuthorized(after.journal, request.item) == LatestAuthorized(Caught(w, env), request.item)
            && (SettledOn(after.journal, after.disk, request.item) <==> LandsOnRuling(w, env, request))
            && SettledOn(after.journal, after.disk, other)
  {
    CaughtIsSettled(w, env);
    ReachedApplies(w, env, request, UNTOLD, Outcome.Unknown);
    var intent, final := IntentFor(w, env, request), FinalFor(env, request, Outcome.Unknown);
    UnknownRulesNothing(Caught(w, env), intent, final, request.item);
    UnknownRulesNothing(Caught(w, env), intent, final, other);
    assert SettledOn(w.(journal := Caught(w, env)).journal, w.disk, other);
  }

  lemma UnknownRulesNothing(j: seq<Entry>, intent: Entry, final: Entry, item: ItemId)
    requires intent.PublishIntent? && final.PublishFinal? && final.outcome.Unknown?
    ensures LatestAuthorized(j + [intent] + [final], item) == LatestAuthorized(j, item)
  {
    LatestAppend(j, intent, item);
    LatestAppend(j + [intent], final, item);
  }

  /** Revision 8 is published and authorized; then revision 9 lands, and the
      write engine cannot tell. */
  const FIRST := PublishRequest(1, NAMESPACE, 0, 5, 8, FENCE)
  const SECOND := PublishRequest(2, NAMESPACE, 0, 8, 9, FENCE)
  const ENV_AGAIN := Env(30, Some(0), None, map[])
  const WROTE := Attempted(true, WroteCandidate)
  const PUBLISHING := Action(Publish(ENV_PUBLISH, FIRST, true, WROTE), 4)
  const LOSING := Action(Publish(ENV_AGAIN, SECOND, true, UNTOLD), 4)

  const FIRST_INTENT := PublishIntent(FIRST, 20, None)
  const FIRST_FINAL := PublishFinal(1, FIRST, 0, None, Committed(8, FENCE))
  const PUBLISHED := CLAIMED + [Clock(20, 20)] + [FIRST_INTENT] + [FIRST_FINAL]
  const PUBLISHED_WORLD := World(PUBLISHED, map[0 := 8], None)

  const PUBLISHING_RUN := [ACQUIRING] + [PUBLISHING]

  lemma FirstShape()
    ensures Effects(CLAIMED_WORLD, PUBLISHING.step)
         == [Append(Clock(20, 20))] + ([Append(FIRST_INTENT)] + [Write(0, 8)] + [Append(FIRST_FINAL)])
  {
    FirstReaches(FIRST);
    ReachedShape(CLAIMED_WORLD, PUBLISHING.step, Committed(8, FENCE));
  }

  lemma FirstPublishRuns()
    ensures Perform(CLAIMED_WORLD, PUBLISHING) == PUBLISHED_WORLD
  {
    FirstShape();
    assert map[0 := 5][0 := 8] == map[0 := 8];
    FenceRuns(CLAIMED_WORLD, PUBLISHING, Clock(20, 20), FIRST_INTENT, Write(0, 8), FIRST_FINAL);
  }

  lemma FirstIsAdmissible()
    ensures Admissible(CLAIMED_WORLD, PUBLISHING.step) && InProtocol(CLAIMED_WORLD, PUBLISHING.step)
  {
  }

  lemma FirstPublishes()
    ensures Lawful(START, PUBLISHING_RUN) && InProtocolRun(START, PUBLISHING_RUN)
    ensures Run(START, PUBLISHING_RUN) == PUBLISHED_WORLD
  {
    AcquireRuns();
    FirstPublishRuns();
    FirstIsAdmissible();
    NextAction(START, [ACQUIRING], PUBLISHING, CLAIMED_WORLD);
  }

  lemma PublishedState()
    ensures Replay(PUBLISHED) == ClaimState(Some(20), map[0 := HELD])
  {
    ClaimedState();
    var p := CLAIMED + [Clock(20, 20)];
    ReplayAppend(CLAIMED, Clock(20, 20));
    ReplayAppend(p, FIRST_INTENT);
    ReplayAppend(p + [FIRST_INTENT], FIRST_FINAL);
  }

  lemma FirstIsAnswered()
    ensures HasFinal(PUBLISHED, 1, 0) && HasFinal(AGAIN, 1, 0)
  {
    assert PUBLISHED[4] == FIRST_FINAL && AGAIN[4] == FIRST_FINAL;
  }

  lemma AgainNothingPending()
    ensures PendingPublish(PUBLISHED, PUBLISHED) == [] && PendingLegacy(AGAIN, AGAIN) == []
  {
    FirstIsAnswered();
    NoPublishPending(PUBLISHED, PUBLISHED);
    NoLegacyPending(AGAIN, AGAIN);
  }

  const AGAIN := PUBLISHED + [Clock(30, 30)]

  lemma AgainIsClean()
    ensures Clean(AGAIN, map[0 := 8], None, ClaimState(Some(30), map[0 := HELD]), 30)
    ensures LatestAuthorized(AGAIN, 0) == Some(8)
  {
    assert AGAIN[..5] == PUBLISHED && PUBLISHED[4] == FIRST_FINAL;
    assert Coordinated(AGAIN) == {};
    assert LatestUnderEpoch(AGAIN, 0, 1) == LatestUnderEpoch(PUBLISHED, 0, 1) == Some(8);
    LatestAppend(PUBLISHED, Clock(30, 30), 0);
    LatestAppend(CLAIMED + [Clock(20, 20)] + [FIRST_INTENT], FIRST_FINAL, 0);
  }

  /** With nothing pending and clean surfaces a reconciliation has only its
      clock to append. */
  lemma CleanReconciles(w: World, env: Env, k: seq<Entry>)
    requires k == AfterClock(w.journal, env) && w.head.None?
    requires PendingPublish(w.journal, w.journal) == [] && PendingLegacy(k, k) == []
    requires Clean(k, w.disk, None, ReconciledState(w.journal, env), ObservedAt(w.journal, env.now))
    ensures Caught(w, env) == k && !ReconcileIn(w, env).unsafe
  {
    assert k + [] == k;
    assert AfterLegacy(w.journal, w.disk, env) == k;
    assert AfterPublish(w.journal, w.disk, env) == k;
    CleanSurfacesPass(w.journal, w.disk, None, env);
  }

  lemma AgainReconciles()
    ensures Caught(PUBLISHED_WORLD, ENV_AGAIN) == AGAIN == AfterClock(PUBLISHED, ENV_AGAIN)
    ensures !ReconcileIn(PUBLISHED_WORLD, ENV_AGAIN).unsafe
    ensures ReconciledState(PUBLISHED, ENV_AGAIN) == ClaimState(Some(30), map[0 := HELD]) && ObservedAt(PUBLISHED, 30) == 30
  {
    PublishedState();
    AgainIsClean();
    AgainNothingPending();
    CleanReconciles(PUBLISHED_WORLD, ENV_AGAIN, AGAIN);
  }

  lemma OneFinalOnly()
    ensures !HasFinalOp(PUBLISHED, 2) && !HasFinalOp(AGAIN, 2)
  {
  }

  /** The second publication passes the gate and its fence. */
  lemma SecondReaches()
    ensures ReachesWrite(PUBLISHED_WORLD, ENV_AGAIN, SECOND, true)
  {
    AgainReconciles();
    OneFinalOnly();
  }

  lemma SecondLands()
    ensures Admissible(PUBLISHED_WORLD, LOSING.step)
    ensures var after := Perform(PUBLISHED_WORLD, LOSING);
            LatestAuthorized(after.journal, 0) == Some(8) && RevisionIn(after.disk, 0) == Some(9)
  {
    SecondReaches();
    AgainReconciles();
    AgainIsClean();
    ReachedShape(PUBLISHED_WORLD, LOSING.step, Outcome.Unknown);
    var intent, final := PublishIntent(SECOND, 30, None), FinalFor(ENV_AGAIN, SECOND, Outcome.Unknown);
    FenceRuns(PUBLISHED_WORLD, LOSING, Clock(30, 30), intent, Write(0, 9), final);
    UnknownRulesNothing(AGAIN, intent, final, 0);
  }

  /** A lawful run from an empty journal in which an item that has a ruling and
      holds it loses it: the gate and the fence let the write through. */
  lemma RulingIsLost()
    ensures Lawful(START, PUBLISHING_RUN + [LOSING]) && InProtocolRun(START, PUBLISHING_RUN)
    ensures var before := Run(START, PUBLISHING_RUN);
            LatestAuthorized(before.journal, 0) == Some(8) == RevisionIn(before.disk, 0)
    ensures var after := Run(START, PUBLISHING_RUN + [LOSING]);
            LatestAuthorized(after.journal, 0) == Some(8) && RevisionIn(after.disk, 0) == Some(9)
  {
    FirstPublishes();
    PublishedRuling();
    SecondReaches();
    SecondLands();
    NextAction(START, PUBLISHING_RUN, LOSING, PUBLISHED_WORLD);
  }

  lemma PublishedRuling()
    ensures LatestAuthorized(PUBLISHED, 0) == Some(8)
  {
    LatestAppend(CLAIMED + [Clock(20, 20)] + [FIRST_INTENT], FIRST_FINAL, 0);
  }
}
