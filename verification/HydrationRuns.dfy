/** Hydration of the journals runs can reach: their stamps are their own clock
    readings, so a rebuilt clock floor can only run ahead through the wall clock
    of a number repair. */
module HydrationRuns {
  import opened Options
  import opened Leases
  import opened Journal
  import opened LeaseSafety
  import opened Reconciliation
  import opened Gate
  import opened Protocol
  import opened Lawfulness
  import opened Fencing
  import opened RunGuarantees
  import opened Hydration
  import opened Seqs

  predicate IsLegacy(e: Entry) {
    e.LegacyIntent? || IsLegacyTerminal(e)
  }

  /** Every legacy stamp is the floor some earlier clock entry recorded. */
  ghost predicate StampedByClock(j: seq<Entry>) {
    forall i :: 0 <= i < |j| && IsLegacy(j[i]) ==> ClockBefore(j, i, j[i].observedAt)
  }

  ghost predicate ClockBefore(j: seq<Entry>, i: nat, at: Instant) {
    exists c :: 0 <= c < i && c < |j| && j[c].Clock? && j[c].floor == at
  }

  // ----- what a step stamps -----

  lemma {:induction false} LegacyTailStamps(pending: seq<Entry>, disk: Tree, at: Instant)
    requires forall i :: 0 <= i < |pending| ==> pending[i].LegacyIntent?
    ensures forall e :: e in LegacyTail(pending, disk, at) ==> IsLegacyTerminal(e) && e.observedAt == at
  {
    if pending == [] {
    } else {
      LegacyTailStamps(pending[..|pending| - 1], disk, at);
    }
  }

  lemma ReconcileStamps(w: World, env: Env, e: Entry)
    requires Append(e) in ReconcileEffects(w, env) && IsLegacy(e)
    ensures e.observedAt == ObservedAt(w.journal, env.now)
  {
    var added := CaughtExtends(w, env);
    DropPrefix(w.journal, added);
    AppendsOnly(added, e);
    var t1, t2, t3 := CaughtPhases(w, env);
    AddedIsPhases(w.journal, Clock(env.now, ObservedAt(w.journal, env.now)), added, t1, t2, t3, e);
    var j := AfterClock(w.journal, env);
    LegacyTailStamps(PendingLegacy(j, j), w.disk, ObservedAt(w.journal, env.now));
  }

  lemma EitherStamps(w: World, env: Env, own: seq<Effect>, e: Entry)
    requires Append(e) in ReconcileEffects(w, env) + own && IsLegacy(e)
    requires Append(e) in own ==> e.observedAt == ObservedAt(w.journal, env.now)
    ensures e.observedAt == ObservedAt(w.journal, env.now)
  {
    InEither(ReconcileEffects(w, env), own, Append(e));
    if Append(e) in ReconcileEffects(w, env) {
      ReconcileStamps(w, env, e);
    }
  }

  lemma MutateStamps(w: World, env: Env, item: ItemId, command: Command,
                     authorized: Option<Authorization>, write: Attempted, e: Entry)
    requires Append(e) in MutateEffects(w, env, item, command, authorized, write) && IsLegacy(e)
    ensures e.observedAt == ObservedAt(w.journal, env.now)
  {
    var r := ReconcileIn(w, env);
    if !MutationAdmitted(r, item, command) || authorized.None? {
      EitherStamps(w, env, [], e);
    } else {
      var a := authorized.value;
      var expected := RevisionIn(w.disk, item);
      var intent := MutationIntent(r, env, item, command, expected, a);
      var terminal := MutationTerminal(r, env, item, command, expected, a, write.report);
      FenceStamps(intent, WriteEffect(write, item, a.candidate), terminal, e);
      TerminalStamps(r, env, item, command, expected, a, write.report, e);
      EitherStamps(w, env, [Append(intent)] + WriteEffect(write, item, a.candidate) + terminal, e);
    }
  }

  lemma FenceStamps(intent: Entry, write: seq<Effect>, terminal: seq<Effect>, e: Entry)
    requires Append(e) !in write
    ensures Append(e) in [Append(intent)] + write + terminal ==> e == intent || Append(e) in terminal
  {
    InEither([Append(intent)] + write, terminal, Append(e));
    InEither([Append(intent)], write, Append(e));
  }

  lemma TerminalStamps(r: Reconciled, env: Env, item: ItemId, command: Command, expected: Option<Revision>,
                       a: Authorization, report: Report, e: Entry)
    ensures Append(e) in MutationTerminal(r, env, item, command, expected, a, report) ==>
              IsLegacy(e) && e.observedAt == r.observedAt
  {
  }

  /** The environment a command reconciles in. */
  function EnvOf(step: Step): Option<Env> {
    match step
    case Verify(env) => Some(env)
    case ClaimCommand(env, _) => Some(env)
    case Adopt(env, _, _, _, _) => Some(env)
    case Mutate(env, _, _, _, _) => Some(env)
    case Publish(env, _, _, _) => Some(env)
    case _ => None
  }

  lemma FencedHasNoLegacy(r: Reconciled, env: Env, request: PublishRequest, write: Attempted, e: Entry)
    requires IsLegacy(e)
    ensures Append(e) !in FencedEffects(r, env, request, write)
  {
    var intent := PublishIntent(request, r.observedAt, env.writer);
    var outcome := ReportedOutcome(request, write.report);
    FenceStamps(intent, WriteEffect(write, request.item, request.candidate),
                if outcome.Some? then [Append(FinalFor(env, request, outcome.value))] else [], e);
  }

  lemma PublishAppendsNoLegacy(w: World, env: Env, request: PublishRequest, valid: bool, write: Attempted, e: Entry)
    requires Append(e) in PublishEffects(w, env, request, valid, write) && IsLegacy(e)
    ensures e.observedAt == ObservedAt(w.journal, env.now)
  {
    var r := ReconcileIn(w, env);
    if r.unsafe || HasFinalOp(r.entries, request.op) || !valid || request.item !in w.disk {
      EitherStamps(w, env, [], e);
    } else {
      FencedHasNoLegacy(r, env, request, write, e);
      EitherStamps(w, env, FencedEffects(r, env, request, write), e);
    }
  }

  lemma StepStamps(w: World, step: Step, e: Entry)
    requires Admissible(w, step) && Append(e) in Effects(w, step) && IsLegacy(e)
    ensures EnvOf(step).Some? && e.observedAt == ObservedAt(w.journal, EnvOf(step).value.now)
  {
    match step
    case Verify(env) => ReconcileStamps(w, env, e);
    case ClaimCommand(env, request) =>
      EitherStamps(w, env, if ReconcileIn(w, env).unsafe && !request.Release? then [] else [Append(Claim(request, env.now))], e);
    case Adopt(env, item, from, to, valid) => AdoptStamps(w, env, item, from, to, valid, e);
    case Mutate(env, item, command, authorized, write) => MutateStamps(w, env, item, command, authorized, write, e);
    case Publish(env, request, valid, write) => PublishAppendsNoLegacy(w, env, request, valid, write, e);
  }

  lemma AdoptStamps(w: World, env: Env, item: ItemId, from: Revision, to: Revision, valid: bool, e: Entry)
    requires Append(e) in AdoptEffects(w, env, item, from, to, valid) && IsLegacy(e)
    ensures e.observedAt == ObservedAt(w.journal, env.now)
  {
    var r := ReconcileIn(w, env);
    EitherStamps(w, env, if from != to && AdoptionAllowed(w, r, item, from, to, valid)
                         then [Append(Adoption(item, from, to, r.observedAt))] else [], e);
  }

  // ----- the clock comes first -----

  lemma ReconcileStartsWithClock(w: World, env: Env)
    ensures ReconcileEffects(w, env) != []
    ensures ReconcileEffects(w, env)[0] == Append(Clock(env.now, ObservedAt(w.journal, env.now)))
  {
    var tail := ReconcileOpensNothing(w.journal, w.disk, w.head, env);
    var c := Clock(env.now, ObservedAt(w.journal, env.now));
    Assoc(w.journal, [c], tail);
    DropPrefix(w.journal, [c] + tail);
    AppendsLength([c] + tail);
  }

  lemma StepStartsWithClock(w: World, step: Step)
    requires EnvOf(step).Some? && Effects(w, step) != []
    ensures Effects(w, step)[0] == Append(Clock(EnvOf(step).value.now, ObservedAt(w.journal, EnvOf(step).value.now)))
  {
    ReconcileStartsWithClock(w, EnvOf(step).value);
  }

  /** A kept effect list that is not empty leaves its first entry in place. */
  lemma FirstEntryStays(w: World, es: seq<Effect>, first: Entry)
    requires es != [] && es[0] == Append(first)
    ensures w.journal + [first] <= ApplyAll(w, es).journal
  {
    SplitAt(es, 1);
    assert es[..1] == [Append(first)];
    ApplyFirst(w, Append(first), es[1..]);
    JournalGrows(w.(journal := w.journal + [first]), es[1..]);
  }

  lemma ActionStamps(w: World, a: Action, i: nat)
    requires Admissible(w, a.step) && |w.journal| <= i < |Perform(w, a).journal|
    requires IsLegacy(Perform(w, a).journal[i])
    ensures ClockBefore(Perform(w, a).journal, i, Perform(w, a).journal[i].observedAt)
  {
    var e := Perform(w, a).journal[i];
    NewEntryIsAppended(w, Kept(w, a), i);
    StepStamps(w, a.step, e);
    StepStartsWithClock(w, a.step);
    var c := Clock(EnvOf(a.step).value.now, ObservedAt(w.journal, EnvOf(a.step).value.now));
    FirstEntryStays(w, Kept(w, a), c);
    assert Perform(w, a).journal[|w.journal|] == c;
  }

  lemma {:induction false} ReachableIsStamped(w: World, actions: seq<Action>)
    requires w.journal == [] && Lawful(w, actions)
    ensures StampedByClock(Run(w, actions).journal)
  {
    if actions == [] {
    } else {
      var k := |actions| - 1;
      LawfulInit(w, actions);
      ReachableIsStamped(w, actions[..k]);
      ActionKeepsStamps(Run(w, actions[..k]), actions[k]);
    }
  }

  lemma ActionKeepsStamps(w: World, a: Action)
    requires Admissible(w, a.step) && StampedByClock(w.journal)
    ensures StampedByClock(Perform(w, a).journal)
  {
    PerformGrows(w, a);
    var j := Perform(w, a).journal;
    forall i | 0 <= i < |j| && IsLegacy(j[i]) ensures ClockBefore(j, i, j[i].observedAt) {
      if i < |w.journal| {
        var c :| 0 <= c < i && w.journal[c].Clock? && w.journal[c].floor == w.journal[i].observedAt;
        assert j[c] == w.journal[c];
      } else {
        ActionStamps(w, a, i);
      }
    }
  }

  // ----- the floor -----

  /** The first entry of the log that carries a stamp. */
  function FirstStamped(log: seq<Logged>): Option<Entry> {
    if log == [] then None
    else if Stamp(log[0].entry).Some? then Some(log[0].entry)
    else FirstStamped(log[1..])
  }

  lemma {:induction false} FallbackIsFirst(log: seq<Logged>)
    ensures FirstStamped(log).Some? ==>
              Stamp(FirstStamped(log).value).Some? && exists i :: 0 <= i < |log| && log[i].entry == FirstStamped(log).value
    ensures Fallback(log) == if FirstStamped(log).Some? then Stamp(FirstStamped(log).value).value else 0
  {
    if log != [] && Stamp(log[0].entry).None? {
      FallbackIsFirst(log[1..]);
      if FirstStamped(log).Some? {
        var i :| 0 <= i < |log[1..]| && log[1..][i].entry == FirstStamped(log[1..]).value;
        assert log[i + 1].entry == FirstStamped(log).value;
      }
    }
  }

  /** A stamp other than a repair's is at most the floor its journal replays to. */
  lemma StampIsUnderFloor(j: seq<Entry>, p: nat)
    requires LawfulJournal(j) && StampedByClock(j) && p < |j|
    requires IsLegacy(j[p]) || j[p].Claim?
    ensures NotBefore(Stamp(j[p]), Replay(j).floor)
  {
    FloorIsLatestTick(j);
    if IsLegacy(j[p]) {
      var c :| 0 <= c < p && j[c].Clock? && j[c].floor == j[p].observedAt;
      assert Ticks(j[c]) && Tick(j[c]) == j[p].observedAt;
    } else {
      assert LawfulEntry(j[..p], j[p]);
      assert Ticks(j[p]);
    }
  }

  /** For every journal a run can reach and every prefix of it, hydrating from
      its log raises no clock floor, unless the log's first stamp is a number
      repair's own wall clock or no entry carries a stamp at all. */
  lemma HydrationRaisesNoFloor(w: World, actions: seq<Action>, local: seq<Entry>)
    requires w.journal == [] && Lawful(w, actions)
    requires |Run(w, actions).journal| <= MAX_JOURNAL_ENTRIES && local <= Run(w, actions).journal
    requires var first := FirstStamped(LogOf(Run(w, actions).journal)); first.Some? && !first.value.RepairFinal?
    ensures var j := Run(w, actions).journal;
            var h := Hydrate(local, LogOf(j));
            h.Hydrated? && NotBefore(Replay(h.entries).floor, Replay(j).floor)
  {
    ReachableIsLawful(w, actions);
    ReachableIsStamped(w, actions);
    FallbackIsUnderFloor(Run(w, actions).journal);
    HydratedFloor(Run(w, actions).journal, local);
  }

  lemma FallbackIsUnderFloor(j: seq<Entry>)
    requires LawfulJournal(j) && StampedByClock(j)
    requires var first := FirstStamped(LogOf(j)); first.Some? && !first.value.RepairFinal?
    ensures NotBefore(Some(Fallback(LogOf(j))), Replay(j).floor)
  {
    var p := FirstStampedAt(j);
    StampedKinds(j[p]);
    StampIsUnderFloor(j, p);
  }

  /** Where the journal holds the first stamped entry of its log. */
  lemma FirstStampedAt(j: seq<Entry>) returns (p: nat)
    requires FirstStamped(LogOf(j)).Some?
    ensures p < |j| && j[p] == FirstStamped(LogOf(j)).value && Stamp(j[p]) == Some(Fallback(LogOf(j)))
  {
    var log := LogOf(j);
    FallbackIsFirst(log);
    var i :| 0 <= i < |log| && log[i].entry == FirstStamped(log).value;
    LogEntryIs(j, i);
    p := log[i].number - 1;
  }

  lemma StampedKinds(e: Entry)
    ensures Stamp(e).Some? && !e.RepairFinal? ==> IsLegacy(e) || e.Claim?
  {
  }
}
