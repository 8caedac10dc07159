/** Runs whose hydrated journals replay to something else: a clock that went
    backward moves a lease, and a number repair's own wall clock raises the
    floor. Hydration.dfy says exactly when neither happens. */
module HydrationLimits {
  import opened Options
  import opened Leases
  import opened Journal
  import opened LeaseSafety
  import opened Reconciliation
  import opened Protocol
  import opened Hydration
  import opened NumberRepair
  import opened QuietJournals

  // ----- a run whose clock went backward -----

  /** A verification at 10, then an acquire by a clock that has gone back to 5. */
  const TEN := Env(10, None, None, map[])
  const FIVE := Env(5, Some(0), None, map[])
  const ACQUIRE := Acquire(0, 1, 100, EMPTY_RECORD)
  const VERIFYING := Action(Verify(TEN), 1)
  const ACQUIRING := Action(ClaimCommand(FIVE, ACQUIRE), 2)
  const START := Initial(map[], None)
  const BACKWARD := [Clock(10, 10)] + [Clock(5, 10), Claim(ACQUIRE, 5)]

  lemma TenState()
    ensures Replay([Clock(10, 10)]) == ClaimState(Some(10), map[])
  {
    assert [Clock(10, 10)][..0] == [];
  }

  lemma VerifyRuns()
    ensures Lawful(START, [VERIFYING]) && Run(START, [VERIFYING]) == START.(journal := [Clock(10, 10)])
  {
    NoPublishPending([], []);
    QuietVerifyRuns(START, TEN);
    RunSnoc(START, [], VERIFYING);
    assert [] + [Clock(10, 10)] == [Clock(10, 10)] && [] + [VERIFYING] == [VERIFYING];
  }

  /** One more claim command of a run of verifications and claims. */
  lemma ClaimNext(actions: seq<Action>, j: seq<Entry>, env: Env, request: Request)
    requires Lawful(START, actions) && Run(START, actions) == START.(journal := j)
    requires Quiet(j) && PendingPublish(j, j) == [] && env.target == Some(request.item) && !request.Read?
    ensures var a := Action(ClaimCommand(env, request), 2);
            && Lawful(START, actions + [a])
            && Run(START, actions + [a])
               == START.(journal := j + [Clock(env.now, ObservedAt(j, env.now)), Claim(request, env.now)])
  {
    QuietClaimRuns(START.(journal := j), env, request);
    RunSnoc(START, actions, Action(ClaimCommand(env, request), 2));
  }

  lemma BackwardRuns()
    ensures Lawful(START, [VERIFYING] + [ACQUIRING])
    ensures Run(START, [VERIFYING] + [ACQUIRING]) == START.(journal := BACKWARD)
  {
    VerifyRuns();
    TenState();
    NoPublishPending([Clock(10, 10)], [Clock(10, 10)]);
    ClaimNext([VERIFYING], [Clock(10, 10)], FIVE, ACQUIRE);
  }

  /** What the journal replays to before its claim, and what is rebuilt of it. */
  lemma BackwardFloors()
    ensures Replay(BACKWARD[..2]) == ClaimState(Some(10), map[])
    ensures RebuiltFloor(BACKWARD, [], 2) == Some(5)
  {
    TenState();
    assert BACKWARD[..2] == [Clock(10, 10)] + [Clock(5, 10)];
    ReplayAppend([Clock(10, 10)], Clock(5, 10));
    var i := FoundAt(BACKWARD, 2);
    var q := FallbackAt(LogOf(BACKWARD), i);
    LogEntryIs(BACKWARD, q);
    assert RebuiltFloor(BACKWARD, [], 0) == None;
    assert RebuiltFloor(BACKWARD, [], 1) == Some(5);
  }

  lemma BackwardHydrates()
    ensures !ClaimSettlesAlike(BACKWARD, [], 2)
    ensures var h := Hydrate([], LogOf(BACKWARD));
            h.Hydrated? && Replay(h.entries).claims != Replay(BACKWARD).claims
  {
    BackwardFloors();
    HydrationRebuilds(BACKWARD, []);
    LastClaimDiffers(Hydrate([], LogOf(BACKWARD)).entries, BACKWARD);
  }

  lemma LastClaimDiffers(r: seq<Entry>, j: seq<Entry>)
    requires Rebuilds(r, j, []) && |r| <= 3 == |j| && !IsProjected(j[0]) && !IsProjected(j[1]) && j[2].Claim?
    requires Replay(j[..2]).claims == map[] && !ClaimSettlesAlike(j, [], 2)
    ensures Replay(r).claims != Replay(j).claims
  {
    NoClaimsYet(r);
    PositionAgrees(r, j, [], 2);
    assert r[..3] == r && j[..3] == j;
  }

  /** The journal of a run whose clock went backward: the floor that decided its
      claim is not in the log, and the claim does not settle alike under the one
      rebuilt, so the rebuilt journal replays to another lease. */
  lemma BackwardTimeMovesLease()
    ensures Lawful(START, [VERIFYING] + [ACQUIRING]) && Run(START, [VERIFYING] + [ACQUIRING]).journal == BACKWARD
    ensures !ClaimSettlesAlike(BACKWARD, [], 2)
    ensures var h := Hydrate([], LogOf(BACKWARD));
            h.Hydrated? && Replay(h.entries).claims != Replay(BACKWARD).claims
  {
    BackwardRuns();
    BackwardHydrates();
  }

  lemma NoClaimsYet(r: seq<Entry>)
    requires |r| >= 2 && r[0].Clock? && r[1].Clock?
    ensures Replay(r[..2]).claims == map[]
  {
    assert r[..2][..1] == r[..1] && r[..1][..0] == [];
    assert Replay(r[..1]).claims == map[];
  }

  // ----- records that part and meet again -----

  /** A renewal under an expiry only the rebuilt lease has, then a release. */
  const TWENTY := Env(20, Some(0), None, map[])
  const THIRTY := Env(30, Some(0), None, map[])
  const RENEW := Renew(0, 1, 1, 105, 90)
  const RELEASE := Release(0, 1, 1, 110)
  const RENEWING := Action(ClaimCommand(TWENTY, RENEW), 2)
  const RELEASING := Action(ClaimCommand(THIRTY, RELEASE), 2)
  const RENEWED := BACKWARD + [Clock(20, 20), Claim(RENEW, 20)]
  const RELEASED := RENEWED + [Clock(30, 30), Claim(RELEASE, 30)]

  lemma {:induction false} AfterPair(j: seq<Entry>, c: Entry, claim: Entry)
    ensures Replay(j + [c, claim]) == ReplayEntry(ReplayEntry(Replay(j), c), claim)
  {
    ReplayAppend(j, c);
    PairInTwo(j, c, claim);
    ReplayAppend(j + [c], claim);
  }

  lemma PairInTwo(j: seq<Entry>, c: Entry, claim: Entry)
    ensures j + [c, claim] == (j + [c]) + [claim]
  {
  }

  function Leased(start: Instant, end: Instant): ClaimRecord {
    ClaimRecord(1, Some(Lease(1, 1, start, end)))
  }

  lemma OriginalStates()
    ensures Replay(BACKWARD) == ClaimState(Some(10), map[0 := Leased(10, 110)])
    ensures Replay(RENEWED) == ClaimState(Some(20), map[0 := Leased(10, 110)])
    ensures Replay(RELEASED).claims == map[0 := ClaimRecord(1, None)]
  {
    TenState();
    AfterPair([Clock(10, 10)], Clock(5, 10), Claim(ACQUIRE, 5));
    AfterPair(BACKWARD, Clock(20, 20), Claim(RENEW, 20));
    AfterPair(RENEWED, Clock(30, 30), Claim(RELEASE, 30));
  }

  /** The journal rebuilt from nothing, whose stand-ins all carry 5. */
  lemma RebuiltStates(a: seq<Entry>, b: seq<Entry>, c: seq<Entry>)
    requires a == [Clock(5, 5)] + [Clock(5, 5), Claim(ACQUIRE, 5)]
    requires b == a + [Clock(5, 5), Claim(RENEW, 20)] && c == b + [Clock(5, 5), Claim(RELEASE, 30)]
    ensures Replay(a) == ClaimState(Some(5), map[0 := Leased(5, 105)])
    ensures Replay(b) == ClaimState(Some(20), map[0 := Leased(5, 110)])
    ensures Replay(c).claims == map[0 := ClaimRecord(1, None)]
  {
    assert [Clock(5, 5)][..0] == [];
    assert Replay([Clock(5, 5)]) == ClaimState(Some(5), map[]);
    AfterPair([Clock(5, 5)], Clock(5, 5), Claim(ACQUIRE, 5));
    AfterPair(a, Clock(5, 5), Claim(RENEW, 20));
    AfterPair(b, Clock(5, 5), Claim(RELEASE, 30));
  }

  lemma ReleasedFallback()
    ensures Fallback(LogOf(RELEASED)) == 5
  {
    LogOneMore([], Clock(10, 10));
    assert [] + [Clock(10, 10)] == [Clock(10, 10)];
    LogExtends([Clock(10, 10)], Clock(5, 10), Claim(ACQUIRE, 5));
    LogExtends(BACKWARD, Clock(20, 20), Claim(RENEW, 20));
    LogExtends(RENEWED, Clock(30, 30), Claim(RELEASE, 30));
  }

  lemma {:induction false} LogOneMore(j: seq<Entry>, e: Entry)
    ensures LogOf(j + [e]) == LogOf(j) + (if IsProjected(e) then [Logged(|j| + 1, e)] else [])
  {
    assert (j + [e])[..|j|] == j;
  }

  lemma {:induction false} LogExtends(j: seq<Entry>, c: Entry, claim: Entry)
    requires c.Clock? && claim.Claim?
    ensures LogOf(j + [c, claim]) == LogOf(j) + [Logged(|j| + 2, claim)]
  {
    LogOneMore(j, c);
    LogOneMore(j + [c], claim);
    PairInTwo(j, c, claim);
    assert LogOf(j) + [] == LogOf(j);
  }

  lemma ReleasedHydrates()
    ensures var h := Hydrate([], LogOf(RELEASED));
            h.Hydrated? && Replay(h.entries).claims == Replay(RELEASED).claims
  {
    HydrationRebuilds(RELEASED, []);
    ReleasedFallback();
    var r := Hydrate([], LogOf(RELEASED)).entries;
    var a := [Clock(5, 5)] + [Clock(5, 5), Claim(ACQUIRE, 5)];
    var b := a + [Clock(5, 5), Claim(RENEW, 20)];
    assert r == b + [Clock(5, 5), Claim(RELEASE, 30)];
    RebuiltStates(a, b, r);
    OriginalStates();
  }

  const MEETING_RUN := [VERIFYING] + [ACQUIRING] + [RENEWING] + [RELEASING]

  /** Only clock and claim entries so far, so nothing is pending. */
  lemma ClaimsAreQuiet(j: seq<Entry>)
    requires forall i :: 0 <= i < |j| ==> Replayed(j[i])
    ensures Quiet(j) && PendingPublish(j, j) == []
  {
    NoPublishPending(j, j);
  }

  lemma PairReplayed(j: seq<Entry>, c: Entry, claim: Entry)
    requires (forall i :: 0 <= i < |j| ==> Replayed(j[i])) && Replayed(c) && Replayed(claim)
    ensures var k := j + [c, claim]; forall i :: 0 <= i < |k| ==> Replayed(k[i])
  {
  }

  lemma RenewedIsQuiet()
    ensures Quiet(BACKWARD) && PendingPublish(BACKWARD, BACKWARD) == []
    ensures Quiet(RENEWED) && PendingPublish(RENEWED, RENEWED) == []
  {
    PairReplayed([Clock(10, 10)], Clock(5, 10), Claim(ACQUIRE, 5));
    PairReplayed(BACKWARD, Clock(20, 20), Claim(RENEW, 20));
    ClaimsAreQuiet(BACKWARD);
    ClaimsAreQuiet(RENEWED);
  }

  lemma MeetingClocks()
    ensures ObservedAt(BACKWARD, 20) == 20 && ObservedAt(RENEWED, 30) == 30
  {
    OriginalStates();
  }

  lemma RenewRuns()
    ensures Lawful(START, [VERIFYING] + [ACQUIRING] + [RENEWING])
    ensures Run(START, [VERIFYING] + [ACQUIRING] + [RENEWING]) == START.(journal := RENEWED)
  {
    BackwardRuns();
    MeetingClocks();
    RenewedIsQuiet();
    ClaimNext([VERIFYING] + [ACQUIRING], BACKWARD, TWENTY, RENEW);
  }

  lemma ReleasedRuns()
    ensures Lawful(START, MEETING_RUN) && Run(START, MEETING_RUN).journal == RELEASED
  {
    RenewRuns();
    MeetingClocks();
    RenewedIsQuiet();
    ClaimNext([VERIFYING] + [ACQUIRING] + [RENEWING], RENEWED, THIRTY, RELEASE);
  }

  /** Agreement at the end is less than agreement throughout: in the journal of
      this run the acquire does not settle alike, and a renewal that was refused
      then succeeds in the rebuilt journal, after which one release leaves both
      with the same record. */
  lemma RecordsCanMeetAgain()
    ensures Lawful(START, MEETING_RUN) && Run(START, MEETING_RUN).journal == RELEASED
    ensures !ClaimsSettleAlike(RELEASED, [])
    ensures var h := Hydrate([], LogOf(RELEASED));
            h.Hydrated? && Replay(h.entries).claims == Replay(RELEASED).claims
  {
    ReleasedRuns();
    ReleasedHydrates();
    AcquireDiffers();
  }

  lemma AcquireDiffers()
    ensures !ClaimsSettleAlike(RELEASED, [])
  {
    BackwardFloors();
    ReleasedFallback();
    assert RELEASED[..2] == BACKWARD[..2];
    assert RebuiltFloor(RELEASED, [], 0) == None;
    assert RebuiltFloor(RELEASED, [], 1) == Some(5);
    assert RebuiltFloor(RELEASED, [], 2) == Some(5);
    assert RELEASED[2] == Claim(ACQUIRE, 5) && !ClaimSettlesAlike(RELEASED, [], 2);
  }

  // ----- a run whose repair stamps past its clock -----

  /** A verification at 5, then a number repair by a wall clock at 100. */
  const AT_FIVE := Env(5, None, None, map[])
  const REPAIRED := [RepairItem(0, 1, 2)]
  const REPAIR := RepairCall(0, REPAIRED, true, map[0 := 2], 100)
  const LEDGER := Initial(map[0 := 1], None)
  const LATE_REPAIR := [Clock(5, 5)] + [RepairIntent(0, 0, REPAIRED)] + [RepairFinal(0, 0, REPAIRED, 100)]
  const CHECKED := LEDGER.(journal := [Clock(5, 5)])
  const EARLY_VERIFY := Action(Verify(AT_FIVE), 1)

  function LateRepair(): Action {
    Action(Repair(CallEffects(CHECKED, REPAIR, _ => true)), 3)
  }

  lemma RepairEffectsAre()
    ensures CallEffects(CHECKED, REPAIR, _ => true) == FreshEffects(REPAIR, CHECKED.disk, _ => true)
    ensures |CallEffects(CHECKED, REPAIR, _ => true)| == 3
  {
    assert Published(REPAIRED[..0], CHECKED.disk) == CHECKED.disk;
    assert RereadMatches(REPAIRED, Published(REPAIRED, CHECKED.disk));
  }

  lemma RepairApplies()
    ensures Perform(CHECKED, LateRepair()).journal == LATE_REPAIR
  {
    RepairEffectsAre();
    FreshEffectsApply(CHECKED, REPAIR, _ => true);
    assert Published(REPAIRED[..0], CHECKED.disk) == CHECKED.disk;
    assert RereadMatches(REPAIRED, Published(REPAIRED, CHECKED.disk));
    var es := CallEffects(CHECKED, REPAIR, _ => true);
    assert es[..3] == es;
  }

  lemma LateRepairRuns()
    ensures Lawful(LEDGER, [EARLY_VERIFY] + [LateRepair()])
    ensures Run(LEDGER, [EARLY_VERIFY] + [LateRepair()]).journal == LATE_REPAIR
  {
    NoPublishPending([], []);
    QuietVerifyRuns(LEDGER, AT_FIVE);
    RunSnoc(LEDGER, [], EARLY_VERIFY);
    assert [] + [Clock(5, 5)] == [Clock(5, 5)] && [] + [EARLY_VERIFY] == [EARLY_VERIFY];
    CallIsRepairStep(CHECKED, REPAIR, _ => true);
    RunSnoc(LEDGER, [EARLY_VERIFY], LateRepair());
    RepairApplies();
  }

  lemma LateRepairFloor()
    ensures Replay(LATE_REPAIR).floor == Some(5)
  {
    FloorIsLatestTick(LATE_REPAIR);
    assert Ticks(LATE_REPAIR[0]) && Tick(LATE_REPAIR[0]) == 5;
  }

  lemma LateRepairLog()
    ensures Fallback(LogOf(LATE_REPAIR)) == 100
    ensures InRange(LogOf(LATE_REPAIR)) && StandsIn(LATE_REPAIR, [])
  {
    var j := LATE_REPAIR;
    LogIsWellFormed(j);
    var i := FoundAt(j, 2);
    var q := FallbackAt(LogOf(j), i);
    LogEntryIs(j, q);
    MaxIsMost(LogOf(j), i);
    assert !IsProjected(j[0]);
  }

  lemma LateRepairHydrates()
    ensures var h := Hydrate([], LogOf(LATE_REPAIR));
            h.Hydrated? && !NotBefore(Replay(h.entries).floor, Replay(LATE_REPAIR).floor)
  {
    LateRepairFloor();
    LateRepairLog();
    HydratedFloor(LATE_REPAIR, []);
  }

  lemma LateRepairIsForward()
    ensures Forward(LATE_REPAIR)
  {
  }

  /** A forward journal of a run, whose first stamp is a number repair's own wall
      clock: rebuilding it from nothing raises the clock floor above the run's. */
  lemma RepairStampRaisesFloor()
    ensures Lawful(LEDGER, [EARLY_VERIFY] + [LateRepair()])
    ensures Run(LEDGER, [EARLY_VERIFY] + [LateRepair()]).journal == LATE_REPAIR && Forward(LATE_REPAIR)
    ensures var h := Hydrate([], LogOf(LATE_REPAIR));
            h.Hydrated? && !NotBefore(Replay(h.entries).floor, Replay(LATE_REPAIR).floor)
  {
    LateRepairRuns();
    LateRepairHydrates();
    LateRepairIsForward();
  }
}
