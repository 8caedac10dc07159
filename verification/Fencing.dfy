/** Fencing and idempotency over whole runs: for any sequence of commands, any
    crash points, any out-of-protocol edits of items and any movement of HEAD. */
module Fencing {
  import opened Options
  import opened Leases
  import opened Journal
  import opened LeaseSafety
  import opened Reconciliation
  import opened Gate
  import opened Protocol
  import opened Lawfulness
  import opened Seqs

  // ----- every reachable journal is lawful -----

  /** The journal a reconciliation of this world leaves. */
  function Caught(w: World, env: Env): seq<Entry> {
    AfterReconcile(w.journal, w.disk, w.head, env)
  }

  lemma ReconcileExtends(w: World, env: Env) returns (added: seq<Entry>)
    ensures Caught(w, env) == w.journal + added
    ensures ReconcileEffects(w, env) == Appends(added)
  {
    added := CaughtExtends(w, env);
    DropPrefix(w.journal, added);
  }

  lemma CaughtExtends(w: World, env: Env) returns (added: seq<Entry>)
    ensures Caught(w, env) == w.journal + added
  {
    var tail := ReconcileOpensNothing(w.journal, w.disk, w.head, env);
    var c := Clock(env.now, ObservedAt(w.journal, env.now));
    added := [c] + tail;
    Assoc(w.journal, [c], tail);
  }

  /** The three phases after the clock, and what each may append. */
  lemma CaughtPhases(w: World, env: Env) returns (t1: seq<Entry>, t2: seq<Entry>, t3: seq<Entry>)
    ensures Caught(w, env) == AfterClock(w.journal, env) + t1 + t2 + t3
    ensures var j := AfterClock(w.journal, env);
            t1 == LegacyTail(PendingLegacy(j, j), w.disk, ObservedAt(w.journal, env.now))
    ensures forall e :: e in t1 ==> IsLegacyTerminal(e)
    ensures forall e :: e in t2 ==> e.PublishFinal?
    ensures forall e :: e in t3 ==> e.PublishFinalization? && w.head.Some? && RevisionIn(w.head.value, e.item) == Some(e.committed)
  {
    t1 := LegacyPhase(w.journal, w.disk, env);
    t2 := PublishPhase(w.journal, w.disk, env);
    t3 := FinalizePhase(w.journal, w.disk, w.head, env);
    var j := AfterClock(w.journal, env);
    LegacyTailShape(PendingLegacy(j, j), w.disk, ObservedAt(w.journal, env.now));
    PublishTailHasFinals(AfterLegacy(w.journal, w.disk, env), PendingPublish(w.journal, w.journal), w.disk,
                         ReconciledState(w.journal, env));
    if w.head.Some? {
      FinalizationTailShape(AfterPublish(w.journal, w.disk, env), AfterPublish(w.journal, w.disk, env), w.head.value);
    }
  }

  lemma ReconcileApplies(w: World, env: Env)
    ensures ApplyAll(w, ReconcileEffects(w, env)) == w.(journal := Caught(w, env))
  {
    var added := ReconcileExtends(w, env);
    ApplyAppends(w, added);
  }

  /** Whatever a command does after reconciling starts from the caught-up world. */
  lemma AfterReconciling(w: World, env: Env, rest: seq<Effect>)
    ensures ApplyAll(w, ReconcileEffects(w, env) + rest) == ApplyAll(w.(journal := Caught(w, env)), rest)
  {
    ReconcileApplies(w, env);
    ApplyConcat(w, ReconcileEffects(w, env), rest);
  }

  lemma ApplyFirst(w: World, e: Effect, rest: seq<Effect>)
    ensures ApplyAll(w, [e] + rest) == ApplyAll(Apply(w, e), rest)
  {
    ApplyConcat(w, [e], rest);
    ApplyOne(w, e);
  }

  lemma CaughtIsLawful(w: World, env: Env)
    requires LawfulJournal(w.journal)
    ensures LawfulJournal(Caught(w, env)) && NoOpenPublish(Caught(w, env))
  {
    ReconcileIsLawful(w.journal, w.disk, w.head, env);
    ReconcileClosesAllPublish(w.journal, w.disk, w.head, env);
  }

  lemma LawfulOneMore(w: World, e: Entry)
    requires LawfulJournal(w.journal) && LawfulEntry(w.journal, e)
    ensures LawfulJournal(ApplyAll(w, [Append(e)]).journal)
  {
    ApplyOne(w, Append(e));
    LawfulAppend(w.journal, e);
  }

  lemma ClaimStepIsLawful(w: World, env: Env, request: Request)
    requires LawfulJournal(w.journal) && !request.Read?
    ensures LawfulJournal(ApplyAll(w, ClaimEffects(w, env, request)).journal)
  {
    var r := ReconcileIn(w, env);
    var rest := if r.unsafe && !request.Release? then [] else [Append(Claim(request, env.now))];
    CaughtIsLawful(w, env);
    AfterReconciling(w, env, rest);
    LawfulOneMore(w.(journal := Caught(w, env)), Claim(request, env.now));
  }

  lemma AdoptStepIsLawful(w: World, env: Env, item: ItemId, from: Revision, to: Revision, ledgerValid: bool)
    requires LawfulJournal(w.journal)
    ensures LawfulJournal(ApplyAll(w, AdoptEffects(w, env, item, from, to, ledgerValid)).journal)
  {
    var r := ReconcileIn(w, env);
    var allowed := from != to && AdoptionAllowed(w, r, item, from, to, ledgerValid);
    var a := Adoption(item, from, to, r.observedAt);
    CaughtIsLawful(w, env);
    AfterReconciling(w, env, if allowed then [Append(a)] else []);
    if allowed {
      LawfulOneMore(w.(journal := Caught(w, env)), a);
    }
  }

  /** Intent, optional write and optional terminal, as one world change. */
  lemma ApplyFence(w: World, intent: Entry, write: seq<Effect>, terminal: seq<Effect>)
    ensures ApplyAll(w, [Append(intent)] + write + terminal)
         == ApplyAll(ApplyAll(w.(journal := w.journal + [intent]), write), terminal)
  {
    ApplyConcat(w, [Append(intent)] + write, terminal);
    ApplyConcat(w, [Append(intent)], write);
    ApplyOne(w, Append(intent));
  }

  lemma ApplyWrite(w: World, write: Attempted, item: ItemId, candidate: Revision)
    ensures ApplyAll(w, WriteEffect(write, item, candidate))
         == if write.applied then w.(disk := w.disk[item := candidate]) else w
  {
    if write.applied {
      ApplyOne(w, Write(item, candidate));
    }
  }

  lemma FenceIsLawful(w: World, intent: Entry, write: Attempted, item: ItemId, candidate: Revision, terminal: seq<Effect>)
    requires LawfulJournal(w.journal) && LawfulEntry(w.journal, intent)
    requires terminal == [] || (exists e :: terminal == [Append(e)] && LawfulEntry(w.journal + [intent], e))
    ensures LawfulJournal(ApplyAll(w, [Append(intent)] + WriteEffect(write, item, candidate) + terminal).journal)
  {
    var w1 := w.(journal := w.journal + [intent]);
    var w2 := ApplyAll(w1, WriteEffect(write, item, candidate));
    ApplyFence(w, intent, WriteEffect(write, item, candidate), terminal);
    ApplyWrite(w1, write, item, candidate);
    LawfulAppend(w.journal, intent);
    if terminal != [] {
      LawfulOneMore(w2, terminal[0].entry);
    }
  }

  lemma FreshAfterReconcile(w: World, env: Env, attempt: AttemptId)
    requires LawfulJournal(w.journal) && !HasLegacyIntent(w.journal, attempt)
    ensures !HasLegacyIntent(Caught(w, env), attempt)
    ensures !HasLegacyTerminal(Caught(w, env), attempt)
  {
    var r := Caught(w, env);
    NoNewIntent(w, env, attempt);
    CaughtIsLawful(w, env);
    TerminalHasIntent(r, attempt);
  }

  lemma NoNewIntent(w: World, env: Env, attempt: AttemptId)
    requires !HasLegacyIntent(w.journal, attempt)
    ensures !HasLegacyIntent(Caught(w, env), attempt)
  {
    var r := Caught(w, env);
    var tail := ReconcileOpensNothing(w.journal, w.disk, w.head, env);
    if HasLegacyIntent(r, attempt) {
      var i :| 0 <= i < |r| && r[i].LegacyIntent? && r[i].attempt == attempt;
      OldIntent(w.journal, Clock(env.now, ObservedAt(w.journal, env.now)), tail, r[i]);
    }
  }

  lemma TerminalHasIntent(j: seq<Entry>, attempt: AttemptId)
    requires LawfulJournal(j) && !HasLegacyIntent(j, attempt)
    ensures !HasLegacyTerminal(j, attempt)
  {
    forall t | 0 <= t < |j| && IsLegacyTerminal(j[t]) ensures j[t].attempt != attempt {
      assert LawfulEntry(j[..t], j[t]);
    }
  }

  lemma TerminalOfFreshIntent(p: seq<Entry>, intent: Entry, terminal: Entry)
    requires intent.LegacyIntent? && !HasLegacyTerminal(p, intent.attempt)
    requires IsLegacyTerminal(terminal) && terminal.attempt == intent.attempt
    requires terminal.item == intent.item && terminal.command == intent.command
    requires terminal.LegacyMutation? ==> intent.candidate == terminal.committed
    requires terminal.LegacyAbort? ==> intent.expected == terminal.observed
    ensures LawfulEntry(p + [intent], terminal)
  {
    var q := p + [intent];
    assert q[|p|] == intent;
  }

  lemma AdmittedIsLawful(w: World, r: Reconciled, env: Env, item: ItemId, command: Command,
                         a: Authorization, write: Attempted, expected: Option<Revision>)
    requires LawfulJournal(w.journal) && NoOpenPublish(w.journal) && NoOpenLegacy(w.journal)
    requires !HasLegacyIntent(w.journal, a.attempt) && !HasLegacyTerminal(w.journal, a.attempt)
    requires LegacyFree(w.journal, item, command) && Replay(w.journal).floor == Some(r.observedAt)
    ensures LawfulJournal(ApplyAll(w,
              [Append(MutationIntent(r, env, item, command, expected, a))]
              + WriteEffect(write, item, a.candidate)
              + MutationTerminal(r, env, item, command, expected, a, write.report)).journal)
  {
    var intent := MutationIntent(r, env, item, command, expected, a);
    var terminal := MutationTerminal(r, env, item, command, expected, a, write.report);
    if terminal != [] {
      TerminalOfFreshIntent(w.journal, intent, terminal[0].entry);
      assert terminal == [Append(terminal[0].entry)];
    }
    FenceIsLawful(w, intent, write, item, a.candidate, terminal);
  }

  /** What the legacy fence admits is free in the reconciled journal. */
  lemma AdmittedIsFree(w: World, env: Env, item: ItemId, command: Command)
    requires MutationAdmitted(ReconcileIn(w, env), item, command)
    ensures LegacyFree(Caught(w, env), item, command)
    ensures Replay(Caught(w, env)).floor == Some(ObservedAt(w.journal, env.now))
  {
    ReconciledStateIsReplay(w.journal, w.disk, w.head, env);
  }

  lemma MutateStepIsLawful(w: World, env: Env, item: ItemId, command: Command, authorized: Option<Authorization>, write: Attempted)
    requires LawfulJournal(w.journal)
    requires authorized.Some? ==> !HasLegacyIntent(w.journal, authorized.value.attempt)
    ensures LawfulJournal(ApplyAll(w, MutateEffects(w, env, item, command, authorized, write)).journal)
  {
    CaughtIsLawful(w, env);
    var r := ReconcileIn(w, env);
    if !MutationAdmitted(r, item, command) || authorized.None? {
      AfterReconciling(w, env, []);
    } else {
      var a := authorized.value;
      var expected := RevisionIn(w.disk, item);
      SafeReconcileClosesAllLegacy(w.journal, w.disk, w.head, env);
      FreshAfterReconcile(w, env, a.attempt);
      AdmittedIsFree(w, env, item, command);
      AdmittedIsLawful(w.(journal := Caught(w, env)), r, env, item, command, a, write, expected);
      AfterReconciling(w, env,
        [Append(MutationIntent(r, env, item, command, expected, a))]
        + WriteEffect(write, item, a.candidate)
        + MutationTerminal(r, env, item, command, expected, a, write.report));
    }
  }

  /** A fence that is not rejected is the live claim of the reconciled journal. */
  lemma AcceptedFenceHolds(w: World, env: Env, request: PublishRequest)
    requires request.ns == NAMESPACE
    requires FenceRejection(request, RecordOf(ReconciledState(w.journal, env), request.item).active,
                            ObservedAt(w.journal, env.now)).None?
    ensures FenceHolds(Caught(w, env), request)
    ensures Replay(Caught(w, env)).floor == Some(ObservedAt(w.journal, env.now))
  {
    ReconciledStateIsReplay(w.journal, w.disk, w.head, env);
  }

  lemma FinalOfFreshIntent(p: seq<Entry>, intent: Entry, final: Entry)
    requires intent.PublishIntent? && !HasFinalOp(p, intent.digest.op)
    requires final.PublishFinal? && final.digest == intent.digest
    requires final.op == intent.digest.op && final.item == intent.digest.item
    requires final.outcome.Committed? ==> final.outcome == Committed(intent.digest.candidate, intent.digest.fence)
    ensures LawfulEntry(p + [intent], final)
  {
    var q := p + [intent];
    assert q[|p|] == intent;
    assert Answers(q, final);
  }

  lemma NoIntentWithoutFinal(p: seq<Entry>, op: OperationId)
    requires NoOpenPublish(p) && !HasFinalOp(p, op)
    ensures !HasIntentOp(p, op)
  {
  }

  /** A publication refused by its fence binds its operation without an intent. */
  lemma RefusalIsLawful(w: World, env: Env, request: PublishRequest, reason: RejectReason)
    requires LawfulJournal(w.journal) && NoOpenPublish(w.journal) && !HasFinalOp(w.journal, request.op)
    ensures LawfulJournal(ApplyAll(w, [Append(FinalFor(env, request, Rejected(reason)))]).journal)
  {
    NoIntentWithoutFinal(w.journal, request.op);
    LawfulOneMore(w, FinalFor(env, request, Rejected(reason)));
  }

  lemma AcceptedIsLawful(w: World, env: Env, request: PublishRequest, write: Attempted, at: Instant)
    requires LawfulJournal(w.journal) && NoOpenPublish(w.journal) && NoOpenLegacy(w.journal)
    requires !HasFinalOp(w.journal, request.op)
    requires FenceHolds(w.journal, request) && Replay(w.journal).floor == Some(at)
    ensures var outcome := ReportedOutcome(request, write.report);
            LawfulJournal(ApplyAll(w,
              [Append(PublishIntent(request, at, env.writer))]
              + WriteEffect(write, request.item, request.candidate)
              + (if outcome.Some? then [Append(FinalFor(env, request, outcome.value))] else [])).journal)
  {
    NoIntentWithoutFinal(w.journal, request.op);
    var intent := PublishIntent(request, at, env.writer);
    var outcome := ReportedOutcome(request, write.report);
    var terminal := if outcome.Some? then [Append(FinalFor(env, request, outcome.value))] else [];
    if outcome.Some? {
      FinalOfFreshIntent(w.journal, intent, FinalFor(env, request, outcome.value));
    }
    FenceIsLawful(w, intent, write, request.item, request.candidate, terminal);
  }

  lemma FencedIsLawful(w: World, env: Env, request: PublishRequest, write: Attempted)
    requires LawfulJournal(w.journal) && request.ns == NAMESPACE
    requires !ReconcileIn(w, env).unsafe && !HasFinalOp(Caught(w, env), request.op)
    ensures LawfulJournal(ApplyAll(w.(journal := Caught(w, env)), FencedEffects(ReconcileIn(w, env), env, request, write)).journal)
  {
    var w1 := w.(journal := Caught(w, env));
    var at := ObservedAt(w.journal, env.now);
    CaughtIsLawful(w, env);
    var rejection := FenceRejection(request, RecordOf(ReconciledState(w.journal, env), request.item).active, at);
    if rejection.Some? {
      RefusalIsLawful(w1, env, request, rejection.value);
    } else {
      SafeReconcileClosesAllLegacy(w.journal, w.disk, w.head, env);
      AcceptedFenceHolds(w, env, request);
      AcceptedIsLawful(w1, env, request, write, at);
    }
  }

  lemma PublishStepIsLawful(w: World, env: Env, request: PublishRequest, candidateValid: bool, write: Attempted)
    requires LawfulJournal(w.journal)
    ensures LawfulJournal(ApplyAll(w, PublishEffects(w, env, request, candidateValid, write)).journal)
  {
    if request.ns == NAMESPACE && !HasFinalOp(w.journal, request.op) {
      var r := ReconcileIn(w, env);
      CaughtIsLawful(w, env);
      if r.unsafe || HasFinalOp(Caught(w, env), request.op) || !candidateValid || request.item !in w.disk {
        AfterReconciling(w, env, []);
      } else {
        FencedIsLawful(w, env, request, write);
        AfterReconciling(w, env, FencedEffects(r, env, request, write));
      }
    }
  }

  lemma {:induction false} RepairIsLawful(w: World, es: seq<Effect>)
    requires LawfulJournal(w.journal)
    requires forall i :: 0 <= i < |es| ==> IsRepairEffect(es[i])
    ensures LawfulJournal(ApplyAll(w, es).journal)
  {
    if es == [] {
    } else {
      var k := |es| - 1;
      RepairIsLawful(w, es[..k]);
      if es[k].Append? {
        LawfulAppend(ApplyAll(w, es[..k]).journal, es[k].entry);
      }
    }
  }

  lemma StepIsLawful(w: World, step: Step)
    requires LawfulJournal(w.journal) && Admissible(w, step)
    ensures LawfulJournal(ApplyAll(w, Effects(w, step)).journal)
  {
    match step
    case Verify(env) =>
      ReconcileApplies(w, env);
      CaughtIsLawful(w, env);
    case ClaimCommand(env, request) => ClaimStepIsLawful(w, env, request);
    case Adopt(env, item, from, to, valid) => AdoptStepIsLawful(w, env, item, from, to, valid);
    case Mutate(env, item, command, authorized, write) => MutateStepIsLawful(w, env, item, command, authorized, write);
    case Publish(env, request, valid, write) => PublishStepIsLawful(w, env, request, valid, write);
    case Repair(effects) => RepairIsLawful(w, effects);
    case Edit(_, _) => ApplyOne(w, Effects(w, step)[0]);
    case MoveHead(_) => ApplyOne(w, Effects(w, step)[0]);
  }

  /** Every reachable journal is lawful, wherever each invocation crashed. */
  lemma {:induction false} ReachableIsLawful(w: World, actions: seq<Action>)
    requires w.journal == [] && Lawful(w, actions)
    ensures LawfulJournal(Run(w, actions).journal)
  {
    if actions == [] {
    } else {
      var k := |actions| - 1;
      LawfulInit(w, actions);
      ReachableIsLawful(w, actions[..k]);
      var before := Run(w, actions[..k]);
      StepIsLawful(before, actions[k].step);
      CrashKeepsPrefix(before, actions[k]);
      LawfulPrefix(ApplyAll(before, Effects(before, actions[k].step)).journal, Perform(before, actions[k]).journal);
    }
  }

  lemma LawfulInit(w: World, actions: seq<Action>)
    requires actions != [] && Lawful(w, actions)
    ensures Lawful(w, actions[..|actions| - 1])
    ensures Admissible(Run(w, actions[..|actions| - 1]), actions[|actions| - 1].step)
  {
    var init := actions[..|actions| - 1];
    forall i | 0 <= i < |init| ensures Admissible(Run(w, init[..i]), init[i].step) {
      assert init[..i] == actions[..i];
    }
  }

  // ----- fencing -----

  /** Replaying the journal before any publish intent gives an unexpired active
      claim with exactly the intent's owner and epoch. */
  lemma IntentsAreFenced(w: World, actions: seq<Action>, i: nat)
    requires w.journal == [] && Lawful(w, actions)
    requires i < |Run(w, actions).journal| && Run(w, actions).journal[i].PublishIntent?
    ensures var j := Run(w, actions).journal; FenceHolds(j[..i], j[i].digest)
  {
    ReachableIsLawful(w, actions);
    IntentIsFenced(Run(w, actions).journal, i);
  }

  lemma IntentIsFenced(j: seq<Entry>, i: nat)
    requires LawfulJournal(j) && i < |j| && j[i].PublishIntent?
    ensures FenceHolds(j[..i], j[i].digest)
  {
    assert LawfulEntry(j[..i], j[i]);
  }

  /** No claim command, so no acquire, is journaled while a publish intent is
      open: between an intent and its final, or after one that has none. */
  lemma NoClaimWhileOpen(j: seq<Entry>, a: nat, c: nat)
    requires LawfulJournal(j) && a < c < |j|
    requires j[a].PublishIntent? && j[c].Claim?
    ensures exists f :: a < f < c && j[f].PublishFinal? && j[f].op == j[a].digest.op
  {
    var p := j[..c];
    assert LawfulEntry(p, j[c]);
    assert p[a] == j[a];
    var f :| 0 <= f < |p| && p[f].PublishFinal? && p[f].op == j[a].digest.op && p[f].item == j[a].digest.item;
    FinalMatchesIntent(j, a, f);
    assert j[f] == p[f];
  }

  /** In every run, nothing is acquired, renewed or released between a publish
      intent and its final. */
  lemma NoClaimDuringPublication(w: World, actions: seq<Action>, a: nat, c: nat, f: nat)
    requires w.journal == [] && Lawful(w, actions)
    requires a < c < f < |Run(w, actions).journal|
    requires var j := Run(w, actions).journal;
             j[a].PublishIntent? && j[f].PublishFinal? && j[f].op == j[a].digest.op
    ensures !Run(w, actions).journal[c].Claim?
  {
    ReachableIsLawful(w, actions);
    var j := Run(w, actions).journal;
    if j[c].Claim? {
      NoClaimWhileOpen(j, a, c);
      var g :| a < g < c && j[g].PublishFinal? && j[g].op == j[a].digest.op;
      OneIntentOneFinal(j, g, f);
    }
  }

  lemma {:induction false} ReplayUntouched(j: seq<Entry>, a: nat, item: ItemId)
    requires a <= |j| && forall i :: a <= i < |j| ==> !j[i].Claim?
    ensures RecordOf(Replay(j), item) == RecordOf(Replay(j[..a]), item)
  {
    if a == |j| {
      assert j[..a] == j;
    } else {
      var k := |j| - 1;
      assert j[..k][..a] == j[..a];
      ReplayUntouched(j[..k], a, item);
    }
  }

  /** Recovery never meets a higher epoch: whenever a publish intent is open,
      the replayed high-water mark of its item is exactly its fence's epoch. */
  lemma HigherEpochIsUnreachable(w: World, actions: seq<Action>, env: Env, intent: Entry)
    requires w.journal == [] && Lawful(w, actions)
    requires OpenPublish(Run(w, actions).journal, intent)
    ensures var j := Run(w, actions).journal;
            && RecordOf(Replay(j), intent.digest.item).lastEpoch == intent.digest.fence.epoch
            && !HigherEpoch(ReconciledState(j, env), intent.digest)
  {
    ReachableIsLawful(w, actions);
    var j := Run(w, actions).journal;
    OpenFenceIsCurrent(j, intent);
  }

  lemma OpenFenceIsCurrent(j: seq<Entry>, intent: Entry)
    requires LawfulJournal(j) && OpenPublish(j, intent)
    ensures RecordOf(Replay(j), intent.digest.item).lastEpoch == intent.digest.fence.epoch
  {
    var a :| 0 <= a < |j| && j[a] == intent;
    OpenByOperation(j, intent);
    forall c | a <= c < |j| ensures !j[c].Claim? {
      if j[c].Claim? {
        NoClaimWhileOpen(j, a, c);
      }
    }
    ReplayUntouched(j, a, intent.digest.item);
    assert LawfulEntry(j[..a], j[a]);
    RunAgrees(j[..a], intent.digest.item);
  }

  /** The intent a committed final answers, and what its fence was worth. */
  lemma CommittedAnswers(j: seq<Entry>, f: nat) returns (a: nat)
    requires LawfulJournal(j) && f < |j| && IsCommittedFinal(j[f])
    ensures a < f && j[a].PublishIntent? && j[a].digest == j[f].digest
    ensures j[f].item == j[a].digest.item && j[f].op == j[a].digest.op
    ensures j[f].outcome.fence.epoch == RecordOf(Replay(j[..a]), j[f].item).lastEpoch
  {
    assert LawfulEntry(j[..f], j[f]);
    var i :| 0 <= i < f && j[..f][i].PublishIntent? && j[..f][i].digest == j[f].digest;
    a := i;
    assert j[a] == j[..f][i];
    IntentIsFenced(j, a);
    RunAgrees(j[..a], j[f].item);
  }

  /** Publications do not overlap: finals come in the order of their intents. */
  lemma IntentsInFinalOrder(j: seq<Entry>, a: nat, f: nat, b: nat, g: nat)
    requires LawfulJournal(j) && a < f < g < |j| && b < g
    requires j[a].PublishIntent? && j[b].PublishIntent? && j[f].PublishFinal? && j[g].PublishFinal?
    requires j[f].op == j[a].digest.op && j[g].op == j[b].digest.op
    ensures a <= b
  {
    if b < a {
      assert LawfulEntry(j[..a], j[a]);
      assert j[..a][b] == j[b];
      var h :| 0 <= h < a && j[..a][h].PublishFinal? && j[..a][h].op == j[b].digest.op && j[..a][h].item == j[b].digest.item;
      OneIntentOneFinal(j, h, g);
    }
  }

  /** Committed publications of an item carry nondecreasing epochs. */
  lemma EpochsNeverDecrease(w: World, actions: seq<Action>, f: nat, g: nat)
    requires w.journal == [] && Lawful(w, actions)
    requires f < g < |Run(w, actions).journal|
    requires IsCommittedFinal(Run(w, actions).journal[f]) && IsCommittedFinal(Run(w, actions).journal[g])
    requires Run(w, actions).journal[f].item == Run(w, actions).journal[g].item
    ensures Run(w, actions).journal[f].outcome.fence.epoch <= Run(w, actions).journal[g].outcome.fence.epoch
  {
    ReachableIsLawful(w, actions);
    CommittedEpochsOrdered(Run(w, actions).journal, f, g);
  }

  lemma CommittedEpochsOrdered(j: seq<Entry>, f: nat, g: nat)
    requires LawfulJournal(j) && f < g < |j|
    requires IsCommittedFinal(j[f]) && IsCommittedFinal(j[g]) && j[f].item == j[g].item
    ensures j[f].outcome.fence.epoch <= j[g].outcome.fence.epoch
  {
    var a := CommittedAnswers(j, f);
    var b := CommittedAnswers(j, g);
    IntentsInFinalOrder(j, a, f, b, g);
    assert j[..b][..a] == j[..a];
    NothingFalls(j[..b], a, j[f].item);
  }

  // ----- idempotent publication -----

  /** What publish-claimed answers from the journal before it does anything. */
  datatype Reply = NoPrior | Stored(outcome: Outcome) | IdempotencyConflict

  function FirstFinal(j: seq<Entry>, op: OperationId): Option<Entry> {
    if j == [] then None
    else if j[0].PublishFinal? && j[0].op == op then Some(j[0])
    else FirstFinal(j[1..], op)
  }

  function PriorReply(j: seq<Entry>, request: PublishRequest): Reply {
    match FirstFinal(j, request.op)
    case None => NoPrior
    case Some(prior) =>
      if prior.PublishFinal? && prior.digest == request then Stored(prior.outcome) else IdempotencyConflict
  }

  lemma {:induction false} FirstFinalAt(j: seq<Entry>, op: OperationId, f: nat)
    requires f < |j| && j[f].PublishFinal? && j[f].op == op
    requires forall i :: 0 <= i < |j| && j[i].PublishFinal? && j[i].op == op ==> i == f
    ensures FirstFinal(j, op) == Some(j[f])
  {
    if f == 0 {
    } else {
      assert j[1..][f - 1] == j[f];
      forall i | 0 <= i < |j[1..]| && j[1..][i].PublishFinal? && j[1..][i].op == op ensures i == f - 1 {
        assert j[1..][i] == j[i + 1];
      }
      FirstFinalAt(j[1..], op, f - 1);
    }
  }

  /** A lawful journal answers a retry from the one final of its operation. */
  lemma FinalAnswers(j: seq<Entry>, f: nat, retry: PublishRequest)
    requires LawfulJournal(j) && f < |j| && j[f].PublishFinal? && j[f].op == retry.op
    ensures PriorReply(j, retry) == (if j[f].digest == retry then Stored(j[f].outcome) else IdempotencyConflict)
  {
    forall i | 0 <= i < |j| && j[i].PublishFinal? && j[i].op == retry.op ensures i == f {
      if i < f { OneIntentOneFinal(j, i, f); } else if f < i { OneIntentOneFinal(j, f, i); }
    }
    FirstFinalAt(j, retry.op, f);
  }

  /** Once a final exists it is the answer forever: in every later world of the
      run each retry of the operation returns the stored outcome or a digest
      conflict, and performs no effect at all. */
  lemma FinalAnswersForever(w: World, actions: seq<Action>, n: nat, f: nat, retry: PublishRequest,
                            env: Env, candidateValid: bool, write: Attempted)
    requires w.journal == [] && Lawful(w, actions) && n <= |actions|
    requires f < |Run(w, actions[..n]).journal|
    requires Run(w, actions[..n]).journal[f].PublishFinal? && Run(w, actions[..n]).journal[f].op == retry.op
    ensures var final := Run(w, actions[..n]).journal[f];
            PriorReply(Run(w, actions).journal, retry)
            == (if final.digest == retry then Stored(final.outcome) else IdempotencyConflict)
    ensures PublishEffects(Run(w, actions), env, retry, candidateValid, write) == []
  {
    ReachableIsLawful(w, actions);
    RunGrows(w, actions, n);
    var j := Run(w, actions).journal;
    assert j[f] == Run(w, actions[..n]).journal[f];
    FinalAnswers(j, f, retry);
    assert HasFinalOp(j, retry.op);
  }

  lemma LastActionGrows(w: World, actions: seq<Action>)
    requires actions != []
    ensures Run(w, actions[..|actions| - 1]).journal <= Run(w, actions).journal
  {
    PerformGrows(Run(w, actions[..|actions| - 1]), actions[|actions| - 1]);
  }

  lemma {:induction false} RunGrows(w: World, actions: seq<Action>, n: nat)
    requires n <= |actions|
    ensures Run(w, actions[..n]).journal <= Run(w, actions).journal
  {
    if n == |actions| {
      AddNothing(actions);
    } else {
      var k := |actions| - 1;
      TakeTake(actions, k, n);
      RunGrows(w, actions[..k], n);
      LastActionGrows(w, actions);
      PrefixOfPrefix(Run(w, actions[..n]).journal, Run(w, actions[..k]).journal, Run(w, actions).journal);
    }
  }

  ghost predicate HoldsIntent(es: seq<Effect>, op: OperationId) {
    exists i :: 0 <= i < |es| && es[i].Append? && es[i].entry.PublishIntent? && es[i].entry.digest.op == op
  }

  /** Whether this action got as far as handing `op`'s bytes to the write engine:
      the call that follows a durable intent, whatever the engine then does. */
  ghost predicate AttemptsWrite(w: World, a: Action, op: OperationId) {
    a.step.Publish? && a.step.publication.op == op && HoldsIntent(Kept(w, a), op)
  }

  /** Whether it got as far as changing the item. */
  ghost predicate PublishesBytes(w: World, a: Action, op: OperationId) {
    a.step.Publish? && a.step.publication.op == op && exists e :: e in Kept(w, a) && e.Write?
  }

  /** How many actions of a run attempted the item write of `op`. */
  ghost function AttemptsFor(w: World, actions: seq<Action>, op: OperationId): nat {
    if actions == [] then 0
    else
      var k := |actions| - 1;
      AttemptsFor(w, actions[..k], op) + (if AttemptsWrite(Run(w, actions[..k]), actions[k], op) then 1 else 0)
  }

  ghost function IntentsFor(j: seq<Entry>, op: OperationId): nat {
    if j == [] then 0
    else
      var k := |j| - 1;
      IntentsFor(j[..k], op) + (if j[k].PublishIntent? && j[k].digest.op == op then 1 else 0)
  }

  /** The item write of an operation is attempted at most once in any run, the
      journal holds at most one intent for it, and no action changes the item on
      its behalf without attempting it. */
  lemma WrittenAtMostOnce(w: World, actions: seq<Action>, op: OperationId)
    requires w.journal == [] && Lawful(w, actions)
    ensures AttemptsFor(w, actions, op) <= IntentsFor(Run(w, actions).journal, op) <= 1
    ensures forall k :: 0 <= k < |actions| && PublishesBytes(Run(w, actions[..k]), actions[k], op) ==>
              AttemptsWrite(Run(w, actions[..k]), actions[k], op)
  {
    ReachableIsLawful(w, actions);
    AtMostOneIntent(Run(w, actions).journal, op);
    AttemptsLeaveIntents(w, actions, op);
    forall k | 0 <= k < |actions| && PublishesBytes(Run(w, actions[..k]), actions[k], op)
      ensures AttemptsWrite(Run(w, actions[..k]), actions[k], op)
    {
      WriteIsAttempted(Run(w, actions[..k]), actions[k], op);
    }
  }

  lemma {:induction false} AtMostOneIntent(j: seq<Entry>, op: OperationId)
    requires LawfulJournal(j)
    ensures IntentsFor(j, op) <= 1
  {
    if j == [] {
    } else {
      var k := |j| - 1;
      LawfulPrefix(j, j[..k]);
      AtMostOneIntent(j[..k], op);
      if j[k].PublishIntent? && j[k].digest.op == op {
        assert LawfulEntry(j[..k], j[k]);
        NoIntentCountsNone(j[..k], op);
      }
    }
  }

  lemma {:induction false} NoIntentCountsNone(j: seq<Entry>, op: OperationId)
    requires !HasIntentOp(j, op)
    ensures IntentsFor(j, op) == 0
  {
    if j == [] {
    } else {
      var k := |j| - 1;
      NoIntentCountsNone(j[..k], op);
    }
  }

  lemma {:induction false} IntentsSplit(a: seq<Entry>, b: seq<Entry>, op: OperationId)
    ensures IntentsFor(a + b, op) == IntentsFor(a, op) + IntentsFor(b, op)
  {
    if b == [] {
      assert a + b == a;
    } else {
      var k := |b| - 1;
      assert (a + b)[..|a + b| - 1] == a + b[..k];
      IntentsSplit(a, b[..k], op);
    }
  }

  lemma {:induction false} AttemptsLeaveIntents(w: World, actions: seq<Action>, op: OperationId)
    ensures AttemptsFor(w, actions, op) <= IntentsFor(Run(w, actions).journal, op) - IntentsFor(w.journal, op)
  {
    if actions == [] {
    } else {
      var k := |actions| - 1;
      AttemptsLeaveIntents(w, actions[..k], op);
      AttemptLeavesIntent(Run(w, actions[..k]), actions[k], op);
    }
  }

  lemma AttemptLeavesIntent(w: World, a: Action, op: OperationId)
    ensures (if AttemptsWrite(w, a, op) then 1 else 0) <= IntentsFor(Perform(w, a).journal, op) - IntentsFor(w.journal, op)
  {
    if AttemptsWrite(w, a, op) {
      var i :| 0 <= i < |Kept(w, a)| && Kept(w, a)[i].Append?
               && Kept(w, a)[i].entry.PublishIntent? && Kept(w, a)[i].entry.digest.op == op;
      AppendedIntentCounts(w, Kept(w, a), i, op);
    } else {
      PerformGrows(w, a);
      IntentsGrow(w.journal, Perform(w, a).journal, op);
    }
  }

  /** An intent among the effects applied is one more intent in the journal. */
  lemma AppendedIntentCounts(w: World, es: seq<Effect>, i: nat, op: OperationId)
    requires i < |es| && es[i].Append? && es[i].entry.PublishIntent? && es[i].entry.digest.op == op
    ensures IntentsFor(ApplyAll(w, es).journal, op) > IntentsFor(w.journal, op)
  {
    var p := ApplyAll(w, es[..i]).journal;
    PrefixJournal(w, es[..i + 1], es);
    TakeTake(es, i + 1, i);
    JournalGrows(w, es[..i]);
    SplitPrefix(w.journal, p);
    IntentCounted(w.journal, p[|w.journal|..], es[i].entry, ApplyAll(w, es).journal, op);
  }

  lemma IntentsGrow(a: seq<Entry>, b: seq<Entry>, op: OperationId)
    requires a <= b
    ensures IntentsFor(a, op) <= IntentsFor(b, op)
  {
    IntentsSplit(a, b[|a|..], op);
    SplitAt(b, |a|);
  }

  lemma ReconcileOnlyAppends(w: World, env: Env, x: nat)
    requires x < |ReconcileEffects(w, env)|
    ensures ReconcileEffects(w, env)[x].Append?
  {
    var added := ReconcileExtends(w, env);
    AppendsLength(added);
  }

  /** The write of a publication comes after its intent. */
  lemma WriteComesLater(w: World, env: Env, request: PublishRequest, valid: bool, write: Attempted, x: nat)
    requires x < |PublishEffects(w, env, request, valid, write)|
    requires PublishEffects(w, env, request, valid, write)[x].Write?
    ensures |ReconcileEffects(w, env)| < x
    ensures PublishEffects(w, env, request, valid, write)[|ReconcileEffects(w, env)|]
         == Append(PublishIntent(request, ObservedAt(w.journal, env.now), env.writer))
  {
    var head := ReconcileEffects(w, env);
    var es := PublishEffects(w, env, request, valid, write);
    if x < |head| {
      ReconcileOnlyAppends(w, env, x);
    }
  }

  lemma PrefixJournal(w: World, start: seq<Effect>, kept: seq<Effect>)
    requires start <= kept
    ensures ApplyAll(w, start).journal <= ApplyAll(w, kept).journal
  {
    SplitPrefix(start, kept);
    ApplyConcat(w, start, kept[|start|..]);
    JournalGrows(ApplyAll(w, start), kept[|start|..]);
  }

  lemma OneIntent(e: Entry, op: OperationId)
    requires e.PublishIntent? && e.digest.op == op
    ensures IntentsFor([e], op) == 1
  {
    assert IntentsFor([e][..0], op) == 0;
  }

  lemma IntentCounted(journal: seq<Entry>, added: seq<Entry>, intent: Entry, after: seq<Entry>, op: OperationId)
    requires intent.PublishIntent? && intent.digest.op == op
    requires journal + added + [intent] <= after
    ensures IntentsFor(after, op) > IntentsFor(journal, op)
  {
    IntentsGrow(journal + added + [intent], after, op);
    IntentsSplit(journal + added, [intent], op);
    IntentsSplit(journal, added, op);
    OneIntent(intent, op);
  }

  lemma KeptIsPrefix(w: World, a: Action)
    ensures Kept(w, a) <= Effects(w, a.step)
  {
  }

  /** A kept write is preceded by its own intent. */
  lemma WriteIsAttempted(w: World, a: Action, op: OperationId)
    requires PublishesBytes(w, a, op)
    ensures AttemptsWrite(w, a, op)
  {
    var kept := Kept(w, a);
    KeptIsPrefix(w, a);
    var x :| 0 <= x < |kept| && kept[x].Write?;
    KeptHoldsIntent(w, a.step, kept, x);
  }

  lemma KeptHoldsIntent(w: World, step: Step, kept: seq<Effect>, x: nat)
    requires step.Publish? && kept <= Effects(w, step)
    requires x < |kept| && kept[x].Write?
    ensures HoldsIntent(kept, step.publication.op)
  {
    WriteComesLater(w, step.env, step.publication, step.candidateValid, step.write, x);
    var at := |ReconcileEffects(w, step.env)|;
    assert kept[at] == Effects(w, step)[at];
  }
}
