/** The claim coordinator as it runs: a store whose journal, items and HEAD are
    updated in place, and the commands that hold the namespace lock over it.

    Each method is proved to perform, in order, exactly the effects Protocol.dfy
    gives its command. `trace` is the ghost record of the durable effects, so
    the theorems about runs and crashes are theorems about these methods. */
module Coordinator {
  import opened Options
  import opened Leases
  import opened Journal
  import opened Reconciliation
  import opened Gate
  import opened Protocol
  import opened Lawfulness
  import opened Fencing
  import opened ClaimLaws
  import opened FenceLaws
  import opened Seqs

  /** What publish-claimed returns to its caller. */
  datatype PublishReply =
    | NamespaceUnbound
    | Answered(outcome: Outcome)
    | DigestConflict
    | BarrierRefused(findings: set<Finding>)
    | CandidateRefused
    | OutcomeLost

  datatype ClaimReply = Refused(findings: set<Finding>) | Decided(verdict: Verdict)

  datatype MutationReply = FenceRefused | NotAuthorized | MutationCommitted | MutationAborted | MutationUnknown

  class Store {
    var journal: seq<Entry>
    var disk: Tree
    var head: Option<Tree>
    ghost var trace: seq<Effect>

    constructor (disk: Tree, head: Option<Tree>)
      ensures Abs() == Initial(disk, head) && trace == []
    {
      this.journal := [];
      this.disk := disk;
      this.head := head;
      this.trace := [];
    }

    ghost function Abs(): World
      reads this
    {
      World(journal, disk, head)
    }

    /** One durable append: the only way the journal ever changes. */
    method AppendClaimEntry(e: Entry)
      modifies this`journal, this`trace
      ensures journal == old(journal) + [e]
      ensures trace == old(trace) + [Append(e)]
    {
      journal := journal + [e];
      trace := trace + [Append(e)];
    }

    /** The atomic compare-and-swap of one item, when the engine applied it. */
    method WriteItem(write: Attempted, item: ItemId, candidate: Revision)
      modifies this`disk, this`trace
      ensures disk == if write.applied then old(disk)[item := candidate] else old(disk)
      ensures trace == old(trace) + WriteEffect(write, item, candidate)
    {
      if write.applied {
        disk := disk[item := candidate];
        trace := trace + [Write(item, candidate)];
      }
    }

    /** Close every pending legacy attempt the disk resolves. */
    method ResolvePendingLegacy(at: Instant) returns (findings: set<Finding>)
      modifies this`journal, this`trace
      ensures var pending := PendingLegacy(old(journal), old(journal));
              var tail := LegacyTail(pending, disk, at);
              && journal == old(journal) + tail
              && trace == old(trace) + Appends(tail)
              && findings == LegacyFindings(pending, disk)
    {
      var pending := PendingLegacy(journal, journal);
      findings := {};
      ghost var was, before := journal, trace;
      AddNothing(was);
      AddNothing(before);
      for i := 0 to |pending|
        invariant ResolvedSoFar(was, before, pending, i, disk, at, journal, trace, findings)
      {
        var resolution := ResolveLegacy(pending[i], disk, at);
        ResolvedOneMore(was, before, pending, i, disk, at, journal, trace, findings);
        if resolution.Some? {
          AppendClaimEntry(resolution.value);
        } else {
          findings := findings + {LegacyOutcomeUnknown(pending[i].item, pending[i].attempt)};
        }
      }
      AddNothing(pending);
    }

    /** Close every pending publication, each against the journal so far. */
    method ResolvePendingPublish(pending: seq<Entry>, state: ClaimState) returns (findings: set<Finding>)
      requires forall i :: 0 <= i < |pending| ==> pending[i].PublishIntent?
      modifies this`journal, this`trace
      ensures var tail := PublishTail(old(journal), pending, disk, state);
              && journal == old(journal) + tail
              && trace == old(trace) + Appends(tail)
              && findings == PublishFindings(tail)
    {
      findings := {};
      ghost var was, before := journal, trace;
      assert was + [] == was && before + [] == before;
      for i := 0 to |pending|
        invariant journal == was + PublishTail(was, pending[..i], disk, state)
        invariant trace == before + Appends(PublishTail(was, pending[..i], disk, state))
        invariant findings == PublishFindings(PublishTail(was, pending[..i], disk, state))
      {
        TakeTake(pending, i + 1, i);
        ghost var tail := PublishTail(was, pending[..i], disk, state);
        var final := RecoveredFinal(journal, pending[i], disk, state);
        AppendClaimEntry(final);
        findings := findings + {PublishFinding(final)};
        AppendedOneMore(was, before, tail, final);
        FindingsOneMore(tail, final);
      }
      AddNothing(pending);
    }

    /** Record every committed final HEAD now carries. The scan walks the journal
        while it grows; what it appends it passes over. */
    method RecordFinalizations(tree: Tree)
      modifies this`journal, this`trace
      ensures var tail := FinalizationTail(old(journal), old(journal), tree);
              && journal == old(journal) + tail
              && trace == old(trace) + Appends(tail)
    {
      var finalized := FinalizedIn(journal);
      ghost var was, before := journal, trace;
      var i := 0;
      assert was + [] == was && before + [] == before;
      while i < |journal|
        invariant 0 <= i <= |journal| && |was| <= |journal|
        invariant journal == was + Scanned(was, tree, i)
        invariant trace == before + Appends(Scanned(was, tree, i))
        invariant finalized == FinalizedIn(journal)
        decreases if i < |was| then |was| - i else 0, |journal| - i
      {
        var terminal := journal[i];
        ghost var j := journal;
        ghost var tail := Scanned(was, tree, i);
        if i < |was| { ScanOneMore(was, tree, i); } else { TailIsPassedOver(was, tree, i); }
        FinalizedMeans(journal, terminal);
        if IsCommittedFinal(terminal) && (terminal.op, terminal.item) !in finalized
           && RevisionIn(tree, terminal.item) == Some(terminal.outcome.revision) {
          var e := FinalizationOf(terminal);
          AppendClaimEntry(e);
          finalized := finalized + {(e.op, e.item)};
          AppendedOneMore(was, before, tail, e);
          FinalizedOneMore(j, e, finalized);
        }
        i := i + 1;
      }
      AddNothing(was);
    }

    /** Judge every coordinated item. */
    method JudgeCoordinated(state: ClaimState, at: Instant, env: Env) returns (findings: set<Finding>)
      ensures findings == CoordinatedFound(journal, Coordinated(journal), disk, head, state, at, env)
    {
      var coordinated := Coordinated(journal);
      var todo := coordinated;
      findings := {};
      while todo != {}
        invariant todo <= coordinated
        invariant findings == CoordinatedFound(journal, coordinated - todo, disk, head, state, at, env)
        decreases |todo|
      {
        var item :| item in todo;
        CoordinatedOneMore(journal, coordinated - todo, item, disk, head, state, at, env);
        assert coordinated - (todo - {item}) == coordinated - todo + {item};
        findings := findings + CoordinatedFindings(journal, item, disk, head, state, at, env);
        todo := todo - {item};
      }
    }

    /** Judge every claimed item the journal does not coordinate. */
    method JudgeClaims(state: ClaimState, at: Instant) returns (findings: set<Finding>)
      ensures findings == ClaimsFound(journal, state.claims.Keys - Coordinated(journal), disk, state, at)
    {
      var claimed := state.claims.Keys - Coordinated(journal);
      var todo := claimed;
      findings := {};
      while todo != {}
        invariant todo <= claimed
        invariant findings == ClaimsFound(journal, claimed - todo, disk, state, at)
        decreases |todo|
      {
        var item :| item in todo;
        assert claimed - (todo - {item}) == claimed - todo + {item};
        findings := findings + ClaimFindings(journal, item, disk, state, at);
        todo := todo - {item};
      }
    }

    /** Whether any finding refuses a write against the target. */
    method RuleOnFindings(findings: set<Finding>, target: Option<ItemId>) returns (unsafe: bool)
      ensures unsafe == Unsafe(findings, target)
    {
      unsafe := false;
      var todo := findings;
      while todo != {}
        invariant todo <= findings
        invariant unsafe == exists f :: f in findings - todo && BlocksTarget(ScopeOf(f), f.item, target)
        decreases |todo|
      {
        var f :| f in todo;
        unsafe := unsafe || BlocksTarget(ScopeOf(f), f.item, target);
        todo := todo - {f};
      }
    }

    /** The four appending phases, one after another, over the live journal. */
    method AppendPhases(env: Env, at: Instant, state: ClaimState) returns (findings: set<Finding>)
      requires at == ObservedAt(journal, env.now) && state == ReconciledState(journal, env)
      modifies this`journal, this`trace
      ensures journal == AfterReconcile(old(journal), disk, head, env)
      ensures trace == old(trace) + ReconcileEffects(old(Abs()), env)
      ensures var j := AfterClock(old(journal), env);
              findings == LegacyFindings(PendingLegacy(j, j), disk) + PublishFindings(PublishPart(old(journal), disk, env))
    {
      ghost var w, before := Abs(), trace;
      var pending := PendingPublish(journal, journal);
      AppendClaimEntry(Clock(env.now, at));
      findings := ResolvePendingLegacy(at);
      var more := ResolvePendingPublish(pending, state);
      findings := findings + more;
      ghost var j2 := journal;
      if head.Some? {
        RecordFinalizations(head.value);
      } else {
        assert j2 + [] == j2 && trace + [] == trace;
      }
      ghost var j := AfterClock(w.journal, env);
      PhaseEffects(w, env, before, LegacyTail(PendingLegacy(j, j), disk, at), PublishPart(w.journal, disk, env),
                   if head.Some? then FinalizationTail(j2, j2, head.value) else []);
    }

    /** Reconciliation in place equals reconciliation as a function. */
    method ReconcileClaimJournal(env: Env) returns (r: Reconciled)
      modifies this`journal, this`trace
      ensures r == Reconcile(old(journal), disk, head, env)
      ensures journal == r.entries
      ensures trace == old(trace) + ReconcileEffects(old(Abs()), env)
    {
      var replayed := ReplayClaimEntries(journal);
      var at := Effective(replayed.floor, env.now);
      var state := AdvanceClockFloor(replayed, env.now);
      var findings := AppendPhases(env, at, state);
      var coordinated := JudgeCoordinated(state, at, env);
      var claims := JudgeClaims(state, at);
      findings := findings + (coordinated + claims);
      var unsafe := RuleOnFindings(findings, env.target);
      r := Reconciled(journal, findings, unsafe, state, at, Coordinated(journal) - disk.Keys);
    }

    // ----- the commands -----

    /** publish-claimed. Whatever it answers is what every later retry is told:
        the answer is the operation's one stored outcome, or a digest conflict. */
    method PublishClaimed(env: Env, request: PublishRequest, candidateValid: bool, write: Attempted) returns (reply: PublishReply)
      modifies this`journal, this`disk, this`trace
      ensures trace == old(trace) + PublishEffects(old(Abs()), env, request, candidateValid, write)
      ensures Abs() == ApplyAll(old(Abs()), PublishEffects(old(Abs()), env, request, candidateValid, write))
      ensures reply.NamespaceUnbound? <==> request.ns != NAMESPACE
      ensures reply.Answered? ==> PriorReply(journal, request) == Stored(reply.outcome)
      ensures reply.DigestConflict? ==> PriorReply(journal, request) == IdempotencyConflict
      ensures reply.OutcomeLost? ==> !HasFinalOp(journal, request.op) && HasIntentOp(journal, request.op)
      ensures reply.BarrierRefused?
              <==> request.ns == NAMESPACE && !HasFinalOp(old(journal), request.op) && ReconcileIn(old(Abs()), env).unsafe
      ensures reply.BarrierRefused? ==> reply.findings == ReconcileIn(old(Abs()), env).findings && disk == old(disk)
      ensures reply.CandidateRefused?
              <==> && request.ns == NAMESPACE && !HasFinalOp(old(journal), request.op) && !ReconcileIn(old(Abs()), env).unsafe
                   && !HasFinalOp(Caught(old(Abs()), env), request.op) && (!candidateValid || request.item !in old(disk))
      ensures ReachesFence(old(Abs()), env, request, candidateValid) ==>
                if FenceHolds(Caught(old(Abs()), env), request) then HasIntentOp(journal, request.op)
                else reply.Answered? && reply.outcome.Rejected?
                     && FirstDifference(Caught(old(Abs()), env), request, reply.outcome.reason)
    {
      ghost var w, before := Abs(), trace;
      assert before + [] == before;
      if request.ns != NAMESPACE {
        return NamespaceUnbound;
      }
      PriorExists(journal, request);
      if PriorReply(journal, request) != NoPrior {
        return AnswerOf(PriorReply(journal, request));
      }
      var r := ReconcileClaimJournal(env);
      AfterReconciling(w, env, []);
      AddNothing(ReconcileEffects(w, env));
      if r.unsafe {
        return BarrierRefused(r.findings);
      }
      PriorExists(journal, request);
      if PriorReply(journal, request) != NoPrior {
        return AnswerOf(PriorReply(journal, request));
      }
      if !candidateValid || request.item !in disk {
        return CandidateRefused;
      }
      reply := PublishFenced(r, env, request, write);
      FenceDecides(w, env, request);
      AfterReconciling(w, env, FencedEffects(r, env, request, write));
      Assoc(before, ReconcileEffects(w, env), FencedEffects(r, env, request, write));
    }

    /** The fence check, the intent, the compare-and-swap and the terminal. */
    method PublishFenced(r: Reconciled, env: Env, request: PublishRequest, write: Attempted) returns (reply: PublishReply)
      requires !HasFinalOp(journal, request.op)
      modifies this`journal, this`disk, this`trace
      ensures trace == old(trace) + FencedEffects(r, env, request, write)
      ensures Abs() == ApplyAll(old(Abs()), FencedEffects(r, env, request, write))
      ensures reply.Answered? || reply.OutcomeLost?
      ensures reply.Answered? ==> PriorReply(journal, request) == Stored(reply.outcome)
      ensures reply.OutcomeLost? ==> !HasFinalOp(journal, request.op) && HasIntentOp(journal, request.op)
      ensures var rejection := FenceRejection(request, RecordOf(r.state, request.item).active, r.observedAt);
              if rejection.Some? then reply == Answered(Rejected(rejection.value)) else HasIntentOp(journal, request.op)
    {
      ghost var w, before := Abs(), trace;
      var rejection := FenceRejection(request, RecordOf(r.state, request.item).active, r.observedAt);
      if rejection.Some? {
        reply := PersistTerminal(env, request, Rejected(rejection.value));
        return;
      }
      var intent := PublishIntent(request, r.observedAt, env.writer);
      AppendClaimEntry(intent);
      IntentBinds(w.journal, intent);
      WriteItem(write, request.item, request.candidate);
      var outcome := ReportedOutcome(request, write.report);
      ghost var change := WriteEffect(write, request.item, request.candidate);
      ApplyWrite(w.(journal := journal), write, request.item, request.candidate);
      ApplyFence(w, intent, change, if outcome.Some? then [Append(FinalFor(env, request, outcome.value))] else []);
      Assoc4(before, [Append(intent)], change, if outcome.Some? then [Append(FinalFor(env, request, outcome.value))] else []);
      if outcome.Some? {
        IntentStays(journal, FinalFor(env, request, outcome.value), request.op);
        reply := PersistTerminal(env, request, outcome.value);
      } else {
        assert trace + [] == trace;
        reply := OutcomeLost;
      }
    }

    /** The terminal of an operation that has none. */
    method PersistTerminal(env: Env, request: PublishRequest, outcome: Outcome) returns (reply: PublishReply)
      requires !HasFinalOp(journal, request.op)
      modifies this`journal, this`trace
      ensures trace == old(trace) + [Append(FinalFor(env, request, outcome))]
      ensures journal == old(journal) + [FinalFor(env, request, outcome)]
      ensures Abs() == ApplyAll(old(Abs()), [Append(FinalFor(env, request, outcome))])
      ensures reply == Answered(outcome) && PriorReply(journal, request) == Stored(outcome)
    {
      ghost var w := Abs();
      var final := FinalFor(env, request, outcome);
      AppendClaimEntry(final);
      ApplyOne(w, Append(final));
      FirstFinalIsNew(w.journal, final);
      reply := Answered(outcome);
    }

    /** The legacy mutation fence around one item write. A reported commit is on
        disk and is the item's latest authorized revision; a reported abort
        left the item and its ruling as they were. */
    method WithLegacyMutationFence(env: Env, item: ItemId, command: Command, authorized: Option<Authorization>,
                                   write: Attempted) returns (reply: MutationReply)
      requires Possible(write, RevisionIn(disk, item), RevisionIn(disk, item))
      modifies this`journal, this`disk, this`trace
      ensures trace == old(trace) + MutateEffects(old(Abs()), env, item, command, authorized, write)
      ensures Abs() == ApplyAll(old(Abs()), MutateEffects(old(Abs()), env, item, command, authorized, write))
      ensures var caught := Caught(old(Abs()), env);
              reply.FenceRefused?
              <==> || Reconcile(old(journal), old(disk), head, env).unsafe
                   || !LegacyFree(caught, item, command)
                   || (command.CreateV1? && !NoneMissing(caught, old(disk)))
      ensures !reply.FenceRefused? ==>
                && (reply.NotAuthorized? <==> authorized.None?)
                && (reply.MutationCommitted? <==> authorized.Some? && write.report == WroteCandidate)
                && (reply.MutationAborted? <==> authorized.Some? && write.report in {FoundConflict, FoundInvalid})
      ensures reply.MutationCommitted? ==>
                authorized.Some? && disk == old(disk)[item := authorized.value.candidate]
                && LatestAuthorized(journal, item) == Some(authorized.value.candidate)
      ensures !reply.MutationCommitted? && !reply.MutationUnknown? ==>
                disk == old(disk)
                && LatestAuthorized(journal, item) == LatestAuthorized(Caught(old(Abs()), env), item)
    {
      ghost var w, before := Abs(), trace;
      var expected := RevisionIn(disk, item);
      var r := ReconcileClaimJournal(env);
      AfterReconciling(w, env, []);
      AddNothing(ReconcileEffects(w, env));
      LegacyAdmitsExactly(w, env, item, command);
      if !MutationAdmitted(r, item, command) {
        return FenceRefused;
      }
      if authorized.None? {
        return NotAuthorized;
      }
      reply := MutateAdmitted(r, env, item, command, expected, authorized.value, write);
      ghost var rest := AdmittedEffects(r, env, item, command, expected, authorized.value, write);
      AfterReconciling(w, env, rest);
      Assoc(before, ReconcileEffects(w, env), rest);
    }

    /** Intent, write engine, terminal. */
    method MutateAdmitted(r: Reconciled, env: Env, item: ItemId, command: Command, expected: Option<Revision>,
                          a: Authorization, write: Attempted) returns (reply: MutationReply)
      requires expected == RevisionIn(disk, item) && Possible(write, expected, expected)
      modifies this`journal, this`disk, this`trace
      ensures trace == old(trace) + AdmittedEffects(r, env, item, command, expected, a, write)
      ensures Abs() == ApplyAll(old(Abs()), AdmittedEffects(r, env, item, command, expected, a, write))
      ensures reply == if write.report.WroteCandidate? then MutationCommitted
                       else if write.report.CouldNotTell? || write.report.Threw? then MutationUnknown else MutationAborted
      ensures reply.MutationCommitted? ==>
                disk == old(disk)[item := a.candidate] && LatestAuthorized(journal, item) == Some(a.candidate)
      ensures !reply.MutationCommitted? && !reply.MutationUnknown? ==>
                disk == old(disk) && LatestAuthorized(journal, item) == LatestAuthorized(old(journal), item)
    {
      ghost var w, before := Abs(), trace;
      var intent := MutationIntent(r, env, item, command, expected, a);
      AppendClaimEntry(intent);
      LatestAppend(w.journal, intent, item);
      WriteItem(write, item, a.candidate);
      ghost var change := WriteEffect(write, item, a.candidate);
      ghost var terminal := MutationTerminal(r, env, item, command, expected, a, write.report);
      ApplyWrite(w.(journal := journal), write, item, a.candidate);
      ApplyFence(w, intent, change, terminal);
      Assoc4(before, [Append(intent)], change, terminal);
      reply := AppendMutationTerminal(r, env, item, command, expected, a, write.report);
    }

    /** The terminal a report calls for, if it calls for one. */
    method AppendMutationTerminal(r: Reconciled, env: Env, item: ItemId, command: Command, expected: Option<Revision>,
                                  a: Authorization, report: Report) returns (reply: MutationReply)
      modifies this`journal, this`trace
      ensures trace == old(trace) + MutationTerminal(r, env, item, command, expected, a, report)
      ensures Abs() == ApplyAll(old(Abs()), MutationTerminal(r, env, item, command, expected, a, report))
      ensures reply == if report.WroteCandidate? then MutationCommitted
                       else if report.CouldNotTell? || report.Threw? then MutationUnknown else MutationAborted
      ensures LatestAuthorized(journal, item)
           == if reply.MutationCommitted? then Some(a.candidate) else LatestAuthorized(old(journal), item)
    {
      ghost var w := Abs();
      ghost var terminal := MutationTerminal(r, env, item, command, expected, a, report);
      if terminal != [] {
        LatestAppend(w.journal, terminal[0].entry, item);
        ApplyOne(w, terminal[0]);
      }
      if report.WroteCandidate? {
        AppendClaimEntry(LegacyMutation(a.attempt, item, command, a.candidate, env.writer, r.observedAt));
        reply := MutationCommitted;
      } else if report.FoundConflict? || report.FoundInvalid? {
        AppendClaimEntry(LegacyAbort(a.attempt, item, command, expected, r.observedAt));
        reply := MutationAborted;
      } else {
        assert trace + [] == trace;
        reply := MutationUnknown;
      }
    }

    /** A claim command. Its verdict is the one replay will give its entry. */
    method RunClaimCommand(env: Env, request: Request) returns (reply: ClaimReply)
      requires !request.Read?
      modifies this`journal, this`trace
      ensures trace == old(trace) + ClaimEffects(old(Abs()), env, request)
      ensures Abs() == ApplyAll(old(Abs()), ClaimEffects(old(Abs()), env, request))
      ensures var r := Reconcile(old(journal), disk, head, env);
              reply == if r.unsafe && !request.Release? then Refused(r.findings)
                       else Decided(Operate(Replay(r.entries), request, env.now).verdict)
      ensures var at := Replay(Caught(old(Abs()), env));
              Replay(journal) == if reply.Refused? then at else Operate(at, request, env.now).state
      ensures reply.Decided? ==>
                && |journal| > 0 && journal[|journal| - 1] == Claim(request, env.now)
                && reply.verdict == VerdictAt(journal, |journal| - 1)
    {
      ghost var w, before := Abs(), trace;
      var r := ReconcileClaimJournal(env);
      ReconciledStateIsReplay(w.journal, disk, head, env);
      if r.unsafe && !request.Release? {
        AfterReconciling(w, env, []);
        AddNothing(ReconcileEffects(w, env));
        return Refused(r.findings);
      }
      var verdict := JournalClaim(w, before, env, request, r.state);
      reply := Decided(verdict);
    }

    /** Operate on the reconciled state, and journal the request whatever the
        verdict. */
    method JournalClaim(ghost w: World, ghost before: seq<Effect>, env: Env, request: Request, state: ClaimState)
      returns (verdict: Verdict)
      requires Abs() == w.(journal := Caught(w, env)) && trace == before + ReconcileEffects(w, env)
      requires state == Replay(journal) && !request.Read?
      modifies this`journal, this`trace
      ensures Abs() == ApplyAll(w, ReconcileEffects(w, env) + [Append(Claim(request, env.now))])
      ensures trace == before + (ReconcileEffects(w, env) + [Append(Claim(request, env.now))])
      ensures journal == old(journal) + [Claim(request, env.now)]
      ensures verdict == Operate(state, request, env.now).verdict == VerdictAt(journal, |journal| - 1)
      ensures Replay(journal) == Operate(state, request, env.now).state
    {
      ghost var entries := journal;
      var applied := Operate(state, request, env.now);
      AppendOwn(w, before, env, Claim(request, env.now));
      ReplayAppend(entries, Claim(request, env.now));
      assert journal[..|entries|] == entries;
      verdict := applied.verdict;
    }

    /** The one entry a command appends after reconciling. */
    method AppendOwn(ghost w: World, ghost before: seq<Effect>, env: Env, entry: Entry)
      requires Abs() == w.(journal := Caught(w, env)) && trace == before + ReconcileEffects(w, env)
      modifies this`journal, this`trace
      ensures journal == Caught(w, env) + [entry]
      ensures Abs() == ApplyAll(w, ReconcileEffects(w, env) + [Append(entry)])
      ensures trace == before + (ReconcileEffects(w, env) + [Append(entry)])
    {
      ghost var caught := Abs();
      AppendClaimEntry(entry);
      AfterReconciling(w, env, [Append(entry)]);
      ApplyOne(caught, Append(entry));
      Assoc(before, ReconcileEffects(w, env), [Append(entry)]);
    }

    /** claim-adopt: an operator rules the committed bytes legitimate. */
    method AdoptItemRevision(env: Env, item: ItemId, from: Revision, to: Revision, ledgerValid: bool) returns (adopted: bool)
      requires from != to
      modifies this`journal, this`trace
      ensures trace == old(trace) + AdoptEffects(old(Abs()), env, item, from, to, ledgerValid)
      ensures Abs() == ApplyAll(old(Abs()), AdoptEffects(old(Abs()), env, item, from, to, ledgerValid))
      ensures adopted <==> Adoptable(old(Abs()), env, item, from, to, ledgerValid)
      ensures adopted ==> LatestAuthorized(journal, item) == Some(to)
      ensures !adopted ==> journal == Caught(old(Abs()), env)
    {
      ghost var w, before := Abs(), trace;
      var r := ReconcileClaimJournal(env);
      AfterReconciling(w, env, []);
      AddNothing(ReconcileEffects(w, env));
      adopted := AdoptionAllowed(World(journal, disk, head), r, item, from, to, ledgerValid);
      AdoptionDecides(w, journal, env, item, from, to, ledgerValid);
      if adopted {
        AppendOwn(w, before, env, Adoption(item, from, to, r.observedAt));
        LatestAppend(r.entries, Adoption(item, from, to, r.observedAt), item);
      }
    }
  }

  /** What the adoption check decides, whatever the journal has grown to, and the
      effects it leads to. */
  lemma AdoptionDecides(w: World, journal: seq<Entry>, env: Env, item: ItemId, from: Revision, to: Revision, ledgerValid: bool)
    requires from != to
    ensures var r := ReconcileIn(w, env);
            var adopted := AdoptionAllowed(w.(journal := journal), r, item, from, to, ledgerValid);
            && (adopted <==> Adoptable(w, env, item, from, to, ledgerValid))
            && AdoptEffects(w, env, item, from, to, ledgerValid)
               == ReconcileEffects(w, env) + (if adopted then [Append(Adoption(item, from, to, r.observedAt))] else [])
  {
    AllowsExactly(w, env, item, from, to, ledgerValid);
  }

  /** What the fence check decides, of the journal the reconciliation left. */
  lemma FenceDecides(w: World, env: Env, request: PublishRequest)
    requires request.ns == NAMESPACE
    ensures var r := ReconcileIn(w, env);
            var rejection := FenceRejection(request, RecordOf(r.state, request.item).active, r.observedAt);
            && (rejection.None? <==> FenceHolds(Caught(w, env), request))
            && (rejection.Some? ==> FirstDifference(Caught(w, env), request, rejection.value))
  {
    var r := ReconcileIn(w, env);
    var rejection := FenceRejection(request, RecordOf(r.state, request.item).active, r.observedAt);
    FenceAcceptsExactly(w, env, request, if rejection.Some? then rejection.value else NoActiveClaim);
  }

  function AnswerOf(prior: Reply): PublishReply
    requires prior != NoPrior
  {
    if prior.Stored? then Answered(prior.outcome) else DigestConflict
  }

  lemma {:induction false} FirstFinalExists(j: seq<Entry>, op: OperationId)
    ensures FirstFinal(j, op).Some? <==> HasFinalOp(j, op)
  {
    if j == [] {
    } else {
      var rest := j[1..];
      FirstFinalExists(rest, op);
      assert forall i :: 0 <= i < |rest| ==> rest[i] == j[i + 1];
      assert forall i :: 0 < i < |j| ==> j[i] == rest[i - 1];
    }
  }

  /** The journal answers a retry exactly when it holds a final for the operation. */
  lemma PriorExists(j: seq<Entry>, request: PublishRequest)
    ensures PriorReply(j, request) == NoPrior <==> !HasFinalOp(j, request.op)
  {
    FirstFinalExists(j, request.op);
  }

  lemma FirstFinalIsNew(j: seq<Entry>, final: Entry)
    requires final.PublishFinal? && !HasFinalOp(j, final.op)
    ensures FirstFinal(j + [final], final.op) == Some(final)
  {
    FirstFinalAt(j + [final], final.op, |j|);
  }

  lemma IntentBinds(j: seq<Entry>, intent: Entry)
    requires intent.PublishIntent? && !HasFinalOp(j, intent.digest.op)
    ensures HasIntentOp(j + [intent], intent.digest.op) && !HasFinalOp(j + [intent], intent.digest.op)
  {
    assert (j + [intent])[|j|] == intent;
  }

  lemma IntentStays(j: seq<Entry>, e: Entry, op: OperationId)
    requires HasIntentOp(j, op)
    ensures HasIntentOp(j + [e], op)
  {
    var i :| 0 <= i < |j| && j[i].PublishIntent? && j[i].digest.op == op;
    assert (j + [e])[i] == j[i];
  }

  /** What follows an admitted, authorized legacy mutation. */
  function AdmittedEffects(r: Reconciled, env: Env, item: ItemId, command: Command, expected: Option<Revision>,
                           a: Authorization, write: Attempted): seq<Effect> {
    [Append(MutationIntent(r, env, item, command, expected, a))]
    + WriteEffect(write, item, a.candidate)
    + MutationTerminal(r, env, item, command, expected, a, write.report)
  }

  ghost function CoordinatedFound(entries: seq<Entry>, items: set<ItemId>, disk: Tree, head: Option<Tree>,
                                  state: ClaimState, at: Instant, env: Env): set<Finding> {
    set item, f | item in items && f in CoordinatedFindings(entries, item, disk, head, state, at, env) :: f
  }

  ghost function ClaimsFound(entries: seq<Entry>, items: set<ItemId>, disk: Tree, state: ClaimState, at: Instant): set<Finding> {
    set item, f | item in items && f in ClaimFindings(entries, item, disk, state, at) :: f
  }

  lemma CoordinatedOneMore(entries: seq<Entry>, items: set<ItemId>, item: ItemId, disk: Tree, head: Option<Tree>,
                           state: ClaimState, at: Instant, env: Env)
    ensures CoordinatedFound(entries, items + {item}, disk, head, state, at, env)
         == CoordinatedFound(entries, items, disk, head, state, at, env)
            + CoordinatedFindings(entries, item, disk, head, state, at, env)
  {
  }

  lemma AppendsOneMore(entries: seq<Entry>, e: Entry)
    ensures Appends(entries + [e]) == Appends(entries) + [Append(e)]
  {
    assert (entries + [e])[..|entries + [e]| - 1] == entries;
  }

  lemma {:induction false} AppendsConcat(a: seq<Entry>, b: seq<Entry>)
    ensures Appends(a + b) == Appends(a) + Appends(b)
  {
    AppendsLength(a);
    AppendsLength(b);
    AppendsLength(a + b);
  }

  lemma FindingsOneMore(tail: seq<Entry>, final: Entry)
    requires final.PublishFinal?
    ensures PublishFindings(tail + [final]) == PublishFindings(tail) + {PublishFinding(final)}
  {
  }

  /** The operations and items already finalized. */
  function FinalizedIn(j: seq<Entry>): set<(OperationId, ItemId)> {
    set e | e in j && e.PublishFinalization? :: (e.op, e.item)
  }

  lemma FinalizedMeans(j: seq<Entry>, terminal: Entry)
    ensures IsCommittedFinal(terminal) ==>
              ((terminal.op, terminal.item) in FinalizedIn(j) <==> HasFinalization(j, terminal.op, terminal.item))
  {
    if IsCommittedFinal(terminal) && HasFinalization(j, terminal.op, terminal.item) {
      var i :| 0 <= i < |j| && j[i].PublishFinalization? && j[i].op == terminal.op && j[i].item == terminal.item;
      assert j[i] in j;
    }
  }

  lemma FinalizedOneMore(j: seq<Entry>, e: Entry, finalized: set<(OperationId, ItemId)>)
    requires e.PublishFinalization? && finalized == FinalizedIn(j) + {(e.op, e.item)}
    ensures finalized == FinalizedIn(j + [e])
  {
    assert e in j + [e];
  }

  /** One more entry at the end of what a loop has appended. */
  lemma AppendedOneMore(was: seq<Entry>, before: seq<Effect>, tail: seq<Entry>, e: Entry)
    ensures was + tail + [e] == was + (tail + [e])
    ensures before + Appends(tail) + [Append(e)] == before + Appends(tail + [e])
  {
    AppendsOneMore(tail, e);
    Assoc(was, tail, [e]);
    Assoc(before, Appends(tail), [Append(e)]);
  }

  /** The journal, trace and findings after the first `i` pending attempts. */
  ghost predicate ResolvedSoFar(was: seq<Entry>, before: seq<Effect>, pending: seq<Entry>, i: nat, disk: Tree, at: Instant,
                                journal: seq<Entry>, trace: seq<Effect>, findings: set<Finding>)
    requires i <= |pending| && forall k :: 0 <= k < |pending| ==> pending[k].LegacyIntent?
  {
    var tail := LegacyTail(pending[..i], disk, at);
    journal == was + tail && trace == before + Appends(tail) && findings == LegacyFindings(pending[..i], disk)
  }

  lemma ResolvedOneMore(was: seq<Entry>, before: seq<Effect>, pending: seq<Entry>, i: nat, disk: Tree, at: Instant,
                        journal: seq<Entry>, trace: seq<Effect>, findings: set<Finding>)
    requires i < |pending| && forall k :: 0 <= k < |pending| ==> pending[k].LegacyIntent?
    requires ResolvedSoFar(was, before, pending, i, disk, at, journal, trace, findings)
    ensures var r := ResolveLegacy(pending[i], disk, at);
            if r.Some? then
              ResolvedSoFar(was, before, pending, i + 1, disk, at, journal + [r.value], trace + [Append(r.value)], findings)
            else
              ResolvedSoFar(was, before, pending, i + 1, disk, at, journal, trace,
                            findings + {LegacyOutcomeUnknown(pending[i].item, pending[i].attempt)})
  {
    var tail := LegacyTail(pending[..i], disk, at);
    var r := ResolveLegacy(pending[i], disk, at);
    LegacyTailNext(pending, disk, at, i);
    LegacyFindingsNext(pending, disk, at, i);
    if r.Some? {
      AppendedOneMore(was, before, tail, r.value);
    }
  }

  lemma LegacyFindingsNext(pending: seq<Entry>, disk: Tree, at: Instant, i: nat)
    requires i < |pending| && forall k :: 0 <= k < |pending| ==> pending[k].LegacyIntent?
    ensures LegacyFindings(pending[..i + 1], disk)
         == LegacyFindings(pending[..i], disk)
            + (if ResolveLegacy(pending[i], disk, at).None?
               then {LegacyOutcomeUnknown(pending[i].item, pending[i].attempt)} else {})
  {
    TakeTake(pending, i + 1, i);
  }

  /** What a scan that has reached position `i` has appended. */
  ghost function Scanned(was: seq<Entry>, tree: Tree, i: nat): seq<Entry> {
    FinalizationTail(was, was[..if i <= |was| then i else |was|], tree)
  }

  /** Past the journal the scan started from lie only its own finalizations. */
  lemma TailIsPassedOver(was: seq<Entry>, tree: Tree, i: nat)
    requires |was| <= i < |was + Scanned(was, tree, i)|
    ensures (was + Scanned(was, tree, i))[i].PublishFinalization?
    ensures Scanned(was, tree, i + 1) == Scanned(was, tree, i)
  {
    FinalizationTailShape(was, was[..|was|], tree);
    var tail := Scanned(was, tree, i);
    assert tail[i - |was|] in tail;
  }

  lemma ScanOneMore(was: seq<Entry>, tree: Tree, i: nat)
    requires i < |was|
    ensures var tail := Scanned(was, tree, i);
            Scanned(was, tree, i + 1)
            == if Finalizable(was + tail, was[i], tree) then tail + [FinalizationOf(was[i])] else tail
  {
    assert was[..i + 1][..i] == was[..i];
    var tail := Scanned(was, tree, i);
    assert tail + [] == tail;
  }

  /** The phases' traces add up to the reconciliation's effects. */
  lemma PhaseEffects(w: World, env: Env, before: seq<Effect>, t1: seq<Entry>, t2: seq<Entry>, t3: seq<Entry>)
    requires Caught(w, env) == AfterClock(w.journal, env) + t1 + t2 + t3
    ensures before + [Append(Clock(env.now, ObservedAt(w.journal, env.now)))] + Appends(t1) + Appends(t2) + Appends(t3)
         == before + ReconcileEffects(w, env)
  {
    var c := Clock(env.now, ObservedAt(w.journal, env.now));
    Assoc4(w.journal + [c], t1, t2, t3);
    Assoc(w.journal, [c], t1 + t2 + t3);
    DropPrefix(w.journal, [c] + (t1 + t2 + t3));
    AppendsConcat([c], t1 + t2 + t3);
    AppendsConcat(t1 + t2, t3);
    AppendsConcat(t1, t2);
    AppendsOneMore([], c);
    assert [] + [c] == [c] && [] + [Append(c)] == [Append(c)];
    Assoc4(before + [Append(c)], Appends(t1), Appends(t2), Appends(t3));
    Assoc(before, [Append(c)], Appends(t1) + Appends(t2) + Appends(t3));
  }
}
