/** When the two write fences and the adoption let a command through, and what
    they journal, said of the reconciled journal and the trees alone. */
module FenceLaws {
  import opened Options
  import opened Leases
  import opened Journal
  import opened Reconciliation
  import opened Gate
  import opened Protocol
  import opened Lawfulness
  import opened Fencing
  import opened SurfaceLaws
  import opened RunGuarantees
  import opened Seqs

  // ----- the legacy fence -----

  /** Every item the journal coordinates is in the tree. */
  ghost predicate NoneMissing(entries: seq<Entry>, disk: Tree) {
    forall item :: IsCoordinated(entries, item) ==> item in disk
  }

  lemma MissingExactly(entries: seq<Entry>, disk: Tree)
    ensures Coordinated(entries) - disk.Keys == {} <==> NoneMissing(entries, disk)
  {
    if item :| IsCoordinated(entries, item) && item !in disk {
      CoordinatedExactly(entries, item);
      assert item in Coordinated(entries) - disk.Keys;
    }
    if item :| item in Coordinated(entries) - disk.Keys {
      CoordinatedExactly(entries, item);
    }
  }

  /** The legacy fence runs the write engine exactly when the reconciliation does
      not block, no lease on the item is live, and for a create instead the item
      was never claimed and no coordinated item is missing from this tree. */
  lemma LegacyAdmitsExactly(w: World, env: Env, item: ItemId, command: Command)
    ensures MutationAdmitted(ReconcileIn(w, env), item, command) <==>
              && !ReconcileIn(w, env).unsafe
              && LegacyFree(Caught(w, env), item, command)
              && (command.CreateV1? ==> NoneMissing(Caught(w, env), w.disk))
  {
    ReconciledStateIsReplay(w.journal, w.disk, w.head, env);
    MissingExactly(Caught(w, env), w.disk);
  }

  /** What it then journals: an intent that names what is on disk and what the
      engine was authorized to write, and after the report a commit of exactly
      that, an abort, or nothing. Refused, it journals nothing of its own. */
  lemma LegacyJournalsExactly(w: World, env: Env, item: ItemId, command: Command, authorized: Option<Authorization>, write: Attempted)
    ensures var rest := if authorized.None? || !MutationAdmitted(ReconcileIn(w, env), item, command) then []
                        else
                          var a := authorized.value;
                          var at := ObservedAt(w.journal, env.now);
                          var bytes := RevisionIn(w.disk, item);
                          [Append(LegacyIntent(a.attempt, item, command, bytes, a.candidate, env.writer, at))]
                          + (if write.applied then [Write(item, a.candidate)] else [])
                          + (if write.report == WroteCandidate
                             then [Append(LegacyMutation(a.attempt, item, command, a.candidate, env.writer, at))]
                             else if write.report in {FoundConflict, FoundInvalid}
                             then [Append(LegacyAbort(a.attempt, item, command, bytes, at))]
                             else []);
            MutateEffects(w, env, item, command, authorized, write) == ReconcileEffects(w, env) + rest
  {
  }

  /** The legacy twin of fenced publication: in every run, replaying the journal
      before a legacy intent gives no live lease on its item, and before a create
      no claim of it ever. */
  lemma LegacyIntentsAreFree(w: World, actions: seq<Action>, i: nat)
    requires w.journal == [] && Lawful(w, actions)
    requires i < |Run(w, actions).journal| && Run(w, actions).journal[i].LegacyIntent?
    ensures var j := Run(w, actions).journal;
            var record := RecordOf(Replay(j[..i]), j[i].item);
            if j[i].command.CreateV1? then record.lastEpoch == 0
            else record.active.Some? ==>
                   Replay(j[..i]).floor.Some? && record.active.value.expiresAt <= Replay(j[..i]).floor.value
  {
    ReachableIsLawful(w, actions);
    var j := Run(w, actions).journal;
    assert LawfulEntry(j[..i], j[i]);
  }

  lemma IntentFollowsReconciling(w: World, env: Env, own: seq<Effect>, e: Entry)
    requires IsIntent(e) && Append(e) in ReconcileEffects(w, env) + own
    ensures Append(e) in own
  {
    InEither(ReconcileEffects(w, env), own, Append(e));
    ReconcileOpens(w, env, e);
  }

  lemma ReconcileOpens(w: World, env: Env, e: Entry)
    requires IsIntent(e)
    ensures Append(e) !in ReconcileEffects(w, env)
  {
    if Append(e) in ReconcileEffects(w, env) {
      ReconcileAppendsRulings(w, env, e);
    }
  }

  lemma ReconcileAppendsRulings(w: World, env: Env, e: Entry)
    requires Append(e) in ReconcileEffects(w, env)
    ensures e.Clock? || IsRuling(e)
  {
    var tail := ReconcileOpensNothing(w.journal, w.disk, w.head, env);
    var c := Clock(env.now, ObservedAt(w.journal, env.now));
    Assoc(w.journal, [c], tail);
    DropPrefix(w.journal, [c] + tail);
    AppendsOnly([c] + tail, e);
    InEither([c], tail, e);
  }

  /** A command whose own entry, if any, opens nothing. */
  lemma OpensNothing(w: World, env: Env, own: bool, entry: Entry, e: Entry)
    requires Append(e) in ReconcileEffects(w, env) + (if own then [Append(entry)] else [])
    requires !IsIntent(entry)
    ensures !IsIntent(e)
  {
    if IsIntent(e) {
      IntentFollowsReconciling(w, env, if own then [Append(entry)] else [], e);
    }
  }

  /** A create was journaled by a step that saw every coordinated item. */
  lemma StepCreates(w: World, step: Step, e: Entry)
    requires Admissible(w, step) && Append(e) in Effects(w, step) && e.LegacyIntent? && e.command.CreateV1?
    ensures step.Mutate? && NoneMissing(Caught(w, step.env), w.disk)
  {
    match step
    case Verify(env) => ReconcileOpens(w, env, e);
    case ClaimCommand(env, request) =>
      OpensNothing(w, env, !(ReconcileIn(w, env).unsafe && !request.Release?), Claim(request, env.now), e);
    case Adopt(env, item, from, to, valid) =>
      OpensNothing(w, env, from != to && AdoptionAllowed(w, ReconcileIn(w, env), item, from, to, valid),
                   Adoption(item, from, to, ReconcileIn(w, env).observedAt), e);
    case Mutate(env, item, command, authorized, write) => MutateCreates(w, env, item, command, authorized, write, e);
    case Publish(env, request, valid, write) => PublishOpensNoLegacy(w, env, request, valid, write, e);
  }

  lemma MutateCreates(w: World, env: Env, item: ItemId, command: Command, authorized: Option<Authorization>, write: Attempted, e: Entry)
    requires Append(e) in MutateEffects(w, env, item, command, authorized, write) && e.LegacyIntent? && e.command.CreateV1?
    ensures NoneMissing(Caught(w, env), w.disk)
  {
    var r := ReconcileIn(w, env);
    LegacyAdmitsExactly(w, env, item, command);
    if authorized.None? || !MutationAdmitted(r, item, command) {
      IntentFollowsReconciling(w, env, [], e);
    } else {
      AdmittedCreates(w, r, env, item, command, RevisionIn(w.disk, item), authorized.value, write, e);
    }
  }

  lemma AdmittedCreates(w: World, r: Reconciled, env: Env, item: ItemId, command: Command, bytes: Option<Revision>,
                        a: Authorization, write: Attempted, e: Entry)
    requires e.LegacyIntent?
    requires Append(e) in ReconcileEffects(w, env)
                          + ([Append(MutationIntent(r, env, item, command, bytes, a))] + WriteEffect(write, item, a.candidate)
                             + MutationTerminal(r, env, item, command, bytes, a, write.report))
    ensures e.command == command
  {
    var intent := MutationIntent(r, env, item, command, bytes, a);
    var change, terminal := WriteEffect(write, item, a.candidate), MutationTerminal(r, env, item, command, bytes, a, write.report);
    IntentFollowsReconciling(w, env, [Append(intent)] + change + terminal, e);
    OwnIntent(intent, change, terminal, e);
  }

  lemma OwnIntent(intent: Entry, write: seq<Effect>, terminal: seq<Effect>, e: Entry)
    requires Append(e) in [Append(intent)] + write + terminal
    requires Append(e) !in write && Append(e) !in terminal
    ensures e == intent
  {
    InEither([Append(intent)] + write, terminal, Append(e));
    InEither([Append(intent)], write, Append(e));
  }

  lemma PublishOpensNoLegacy(w: World, env: Env, request: PublishRequest, valid: bool, write: Attempted, e: Entry)
    requires Append(e) in PublishEffects(w, env, request, valid, write)
    ensures !e.LegacyIntent?
  {
    var r := ReconcileIn(w, env);
    if e.LegacyIntent? {
      if r.unsafe || HasFinalOp(r.entries, request.op) || !valid || request.item !in w.disk {
        IntentFollowsReconciling(w, env, [], e);
      } else {
        IntentFollowsReconciling(w, env, FencedEffects(r, env, request, write), e);
        FencedOpensPublish(r, env, request, write, e);
      }
    }
  }

  lemma FencedOpensPublish(r: Reconciled, env: Env, request: PublishRequest, write: Attempted, e: Entry)
    requires e.LegacyIntent?
    ensures Append(e) !in FencedEffects(r, env, request, write)
  {
    var intent := PublishIntent(request, r.observedAt, env.writer);
    var outcome := ReportedOutcome(request, write.report);
    var terminal := if outcome.Some? then [Append(FinalFor(env, request, outcome.value))] else [];
    if Append(e) in [Append(intent)] + WriteEffect(write, request.item, request.candidate) + terminal {
      OwnIntent(intent, WriteEffect(write, request.item, request.candidate), terminal, e);
    }
  }

  /** In every run a create was journaled by an action whose tree held every item
      its reconciled journal coordinates, so no number was hidden from it. */
  lemma {:induction false} CreatesSeeEveryNumber(w: World, actions: seq<Action>, i: nat) returns (k: nat)
    requires w.journal == [] && Lawful(w, actions)
    requires i < |Run(w, actions).journal| && Run(w, actions).journal[i].LegacyIntent? && Run(w, actions).journal[i].command.CreateV1?
    ensures k < |actions| && |Run(w, actions[..k]).journal| <= i && actions[k].step.Mutate?
    ensures var seen := Run(w, actions[..k]);
            NoneMissing(Caught(seen, actions[k].step.env), seen.disk)
  {
    var last := |actions| - 1;
    var before := Run(w, actions[..last]);
    LawfulInit(w, actions);
    PerformGrows(before, actions[last]);
    if i < |before.journal| {
      k := CreatesSeeEveryNumber(w, actions[..last], i);
      TakeTake(actions, last, k);
    } else {
      k := last;
      ActionCreates(before, actions[last], i);
    }
  }

  lemma ActionCreates(w: World, a: Action, i: nat)
    requires Admissible(w, a.step) && |w.journal| <= i < |Perform(w, a).journal|
    requires Perform(w, a).journal[i].LegacyIntent? && Perform(w, a).journal[i].command.CreateV1?
    ensures a.step.Mutate? && NoneMissing(Caught(w, a.step.env), w.disk)
  {
    NewEntryIsAppended(w, Kept(w, a), i);
    StepCreates(w, a.step, Perform(w, a).journal[i]);
  }

  // ----- the claimed publication fence -----

  /** The first field of the fence, in order, that is not the lease's, or its time
      when all are. */
  ghost predicate Differs(request: PublishRequest, active: Option<Lease>, at: Instant, reason: RejectReason) {
    var sameNamespace, sameItem := request.fence.ns == request.ns, request.fence.item == request.item;
    var sameOwner := active.Some? && active.value.owner == request.fence.owner;
    var sameEpoch := active.Some? && active.value.epoch == request.fence.epoch;
    match reason
    case FenceNamespaceMismatch => !sameNamespace
    case FenceItemMismatch => sameNamespace && !sameItem
    case NoActiveClaim => sameNamespace && sameItem && active.None?
    case OwnerMismatch => sameNamespace && sameItem && active.Some? && !sameOwner
    case EpochMismatch => sameNamespace && sameItem && sameOwner && !sameEpoch
    case FenceExpired => sameNamespace && sameItem && sameOwner && sameEpoch && active.value.expiresAt <= at
    case _ => false
  }

  /** Said of the lease and floor the journal replays to. */
  ghost predicate FirstDifference(p: seq<Entry>, request: PublishRequest, reason: RejectReason) {
    var s := Replay(p);
    s.floor.Some? && Differs(request, RecordOf(s, request.item).active, s.floor.value, reason)
  }

  /** Nothing answers, refuses or invalidates the publication before its fence. */
  ghost predicate ReachesFence(w: World, env: Env, request: PublishRequest, candidateValid: bool) {
    && request.ns == NAMESPACE && !HasFinalOp(w.journal, request.op)
    && !ReconcileIn(w, env).unsafe && !HasFinalOp(Caught(w, env), request.op)
    && candidateValid && request.item in w.disk
  }

  /** A publication that does not reach its fence journals nothing of its own: in
      another namespace or already answered it does not even reconcile. */
  lemma StoppedBeforeFence(w: World, env: Env, request: PublishRequest, valid: bool, write: Attempted)
    requires !ReachesFence(w, env, request, valid)
    ensures PublishEffects(w, env, request, valid, write)
         == if request.ns != NAMESPACE || HasFinalOp(w.journal, request.op) then [] else ReconcileEffects(w, env)
  {
    AddNothing(ReconcileEffects(w, env));
  }

  lemma RejectionNamesDifference(request: PublishRequest, active: Option<Lease>, at: Instant, reason: RejectReason)
    ensures FenceRejection(request, active, at) == Some(reason) <==> Differs(request, active, at, reason)
  {
  }

  lemma RejectsUnlessLive(request: PublishRequest, active: Option<Lease>, at: Instant)
    ensures FenceRejection(request, active, at).None? <==>
              && request.fence.ns == request.ns && request.fence.item == request.item
              && active.Some? && active.value.owner == request.fence.owner && active.value.epoch == request.fence.epoch
              && at < active.value.expiresAt
  {
  }

  /** The fence is accepted exactly when it is the live lease of the reconciled
      journal, and refused otherwise for the first field that differs. */
  lemma FenceAcceptsExactly(w: World, env: Env, request: PublishRequest, reason: RejectReason)
    requires request.ns == NAMESPACE
    ensures var r := ReconcileIn(w, env);
            var rejection := FenceRejection(request, RecordOf(r.state, request.item).active, r.observedAt);
            && (rejection.None? <==> FenceHolds(Caught(w, env), request))
            && (rejection == Some(reason) <==> FirstDifference(Caught(w, env), request, reason))
  {
    ReconciledStateIsReplay(w.journal, w.disk, w.head, env);
    var active := RecordOf(ReconciledState(w.journal, env), request.item).active;
    RejectsUnlessLive(request, active, ObservedAt(w.journal, env.now));
    RejectionNamesDifference(request, active, ObservedAt(w.journal, env.now), reason);
  }

  /** The outcome that is stored for each report of the write engine. */
  ghost predicate Stores(request: PublishRequest, report: Report, outcome: Outcome) {
    || (report == WroteCandidate && outcome == Committed(request.candidate, request.fence))
    || (report == FoundConflict && outcome == Rejected(RevisionConflict))
    || (report == FoundInvalid && outcome == Rejected(CandidateInvalid))
    || (report == CouldNotTell && outcome == Outcome.Unknown)
  }

  /** A fence that holds is always let through: after reconciling come the intent
      of the request, the write if the engine applied it, and a final with the
      outcome its report calls for, none when it threw. */
  lemma HeldFencePublishes(w: World, env: Env, request: PublishRequest, write: Attempted) returns (outcome: Option<Outcome>)
    requires ReachesFence(w, env, request, true) && FenceHolds(Caught(w, env), request)
    ensures PublishEffects(w, env, request, true, write)
         == ReconcileEffects(w, env)
            + ([Append(PublishIntent(request, ObservedAt(w.journal, env.now), env.writer))]
               + (if write.applied then [Write(request.item, request.candidate)] else [])
               + (if outcome.Some?
                  then [Append(PublishFinal(request.op, request, request.item, env.writer, outcome.value))] else []))
    ensures outcome.None? <==> write.report == Threw
    ensures outcome.Some? ==> Stores(request, write.report, outcome.value)
  {
    FenceAcceptsExactly(w, env, request, NoActiveClaim);
    outcome := ReportedOutcome(request, write.report);
    FencedIs(ReconcileIn(w, env), env, request, write, outcome);
  }

  lemma FencedIs(r: Reconciled, env: Env, request: PublishRequest, write: Attempted, outcome: Option<Outcome>)
    requires FenceRejection(request, RecordOf(r.state, request.item).active, r.observedAt).None?
    requires outcome == ReportedOutcome(request, write.report)
    ensures FencedEffects(r, env, request, write)
         == [Append(PublishIntent(request, r.observedAt, env.writer))]
            + (if write.applied then [Write(request.item, request.candidate)] else [])
            + (if outcome.Some?
               then [Append(PublishFinal(request.op, request, request.item, env.writer, outcome.value))] else [])
  {
  }

  /** A fence that does not hold binds the operation to a refusal that names the
      first field that differs; nothing is written. */
  lemma LostFenceIsRefused(w: World, env: Env, request: PublishRequest, write: Attempted) returns (reason: RejectReason)
    requires ReachesFence(w, env, request, true) && !FenceHolds(Caught(w, env), request)
    ensures FirstDifference(Caught(w, env), request, reason)
    ensures PublishEffects(w, env, request, true, write)
         == ReconcileEffects(w, env)
            + [Append(PublishFinal(request.op, request, request.item, env.writer, Rejected(reason)))]
  {
    var r := ReconcileIn(w, env);
    FenceAcceptsExactly(w, env, request, NoActiveClaim);
    reason := FenceRejection(request, RecordOf(r.state, request.item).active, r.observedAt).value;
    FenceAcceptsExactly(w, env, request, reason);
  }

  /** So a publication that reaches its fence opens an intent exactly when the
      fence holds. */
  lemma PublishOpensExactly(w: World, env: Env, request: PublishRequest, write: Attempted)
    requires ReachesFence(w, env, request, true)
    ensures HoldsIntent(PublishEffects(w, env, request, true, write), request.op) <==> FenceHolds(Caught(w, env), request)
  {
    var es := PublishEffects(w, env, request, true, write);
    var head := ReconcileEffects(w, env);
    if FenceHolds(Caught(w, env), request) {
      var outcome := HeldFencePublishes(w, env, request, write);
      assert es[|head|] == Append(PublishIntent(request, ObservedAt(w.journal, env.now), env.writer));
    } else {
      var reason := LostFenceIsRefused(w, env, request, write);
      forall i | 0 <= i < |es| && es[i].Append? && es[i].entry.PublishIntent? ensures false {
        assert es[i] in es;
        IntentFollowsReconciling(w, env, es[|head|..], es[i].entry);
      }
    }
  }

  // ----- adoption -----

  /** What an adoption needs of the reconciled journal and the two trees: `from` is
      the item's ruling, `to` is on disk and at HEAD, no lease on the item is live,
      and the ledger is valid. */
  ghost predicate Adoptable(w: World, env: Env, item: ItemId, from: Revision, to: Revision, ledgerValid: bool) {
    var active := RecordOf(Replay(Caught(w, env)), item).active;
    && ledgerValid
    && LatestAuthorized(Caught(w, env), item) == Some(from)
    && (active.None? || active.value.expiresAt <= ObservedAt(w.journal, env.now))
    && item in w.disk && w.disk[item] == to
    && w.head.Some? && item in w.head.value && w.head.value[item] == to
  }

  lemma AllowsExactly(w: World, env: Env, item: ItemId, from: Revision, to: Revision, ledgerValid: bool)
    ensures AdoptionAllowed(w, ReconcileIn(w, env), item, from, to, ledgerValid)
            <==> Adoptable(w, env, item, from, to, ledgerValid)
  {
    ReconciledStateIsReplay(w.journal, w.disk, w.head, env);
  }

  /** An adoption is journaled exactly when it is of another revision and these
      hold. */
  lemma AdoptsExactly(w: World, env: Env, item: ItemId, from: Revision, to: Revision, ledgerValid: bool)
    ensures AdoptEffects(w, env, item, from, to, ledgerValid)
            == ReconcileEffects(w, env)
               + (if from != to && Adoptable(w, env, item, from, to, ledgerValid)
                  then [Append(Adoption(item, from, to, ObservedAt(w.journal, env.now)))] else [])
  {
    AllowsExactly(w, env, item, from, to, ledgerValid);
  }

  // ----- claim commands -----

  /** A claim command is journaled whatever it decides; a barrier refuses all but
      a release. */
  lemma ClaimsJournalExactly(w: World, env: Env, request: Request)
    ensures ClaimEffects(w, env, request)
         == ReconcileEffects(w, env)
            + (if ReconcileIn(w, env).unsafe && !request.Release? then [] else [Append(Claim(request, env.now))])
  {
  }
}
