/** The write gate and the finalization record over whole runs: what holds of
    every journal a run can reach, whatever crashed, was edited or moved. */
module RunGuarantees {
  import opened Options
  import opened Leases
  import opened Journal
  import opened Reconciliation
  import opened Gate
  import opened Protocol
  import opened Lawfulness
  import opened Fencing
  import opened Seqs

  // ----- the write gate -----

  lemma {:induction false} AuthorizedHasLatest(j: seq<Entry>, i: nat, item: ItemId)
    requires i < |j| && Authorizes(j[i], item)
    ensures LatestAuthorization(j, item).Some?
  {
    var k := |j| - 1;
    if i < k {
      AuthorizedHasLatest(j[..k], i, item);
    }
  }

  /** A lawful journal coordinates only items it has ruled on. */
  lemma CoordinatedHasLatest(j: seq<Entry>, item: ItemId)
    requires LawfulJournal(j) && item in Coordinated(j)
    ensures LatestAuthorization(j, item).Some?
  {
    var i :| 0 <= i < |j| && Coordinates(j[i]) && j[i].item == item;
    if j[i].LegacyMutation? {
      AuthorizedHasLatest(j, i, item);
    } else {
      var p := j[..i];
      assert LawfulEntry(p, j[i]);
      var f :| 0 <= f < |p| && IsCommittedFinal(p[f]) && p[f].op == j[i].op && p[f].item == item;
      assert j[f] == p[f];
      AuthorizedHasLatest(j, f, item);
    }
  }

  /** In every reachable world, a reconciliation that lets a target through
      leaves no coordinated item with bytes, on disk or at HEAD, that no entry
      covers, and the target, when coordinated, at its authorized revision. */
  lemma ReachableGateIsSound(w: World, actions: seq<Action>, env: Env, item: ItemId)
    requires w.journal == [] && Lawful(w, actions)
    requires !ReconcileIn(Run(w, actions), env).unsafe
    requires item in Coordinated(Caught(Run(w, actions), env))
    ensures var now := Run(w, actions);
            var entries := Caught(now, env);
            && (item in now.disk ==> now.disk[item] in Covered(entries, item))
            && (now.head.Some? && item in now.head.value ==> now.head.value[item] in Covered(entries, item))
            && (env.target.None? || env.target.value == item ==>
                  LatestAuthorized(entries, item).Some?
                  && RevisionIn(now.disk, item) == LatestAuthorized(entries, item))
  {
    var now := Run(w, actions);
    ReachableIsLawful(w, actions);
    CaughtIsLawful(now, env);
    CoordinatedHasLatest(Caught(now, env), item);
    GateIsSound(now.journal, now.disk, now.head, env, item);
  }

  // ----- finalizations -----

  /** Each operation is finalized at most once per item, ever. */
  lemma FinalizedOnce(w: World, actions: seq<Action>, a: nat, b: nat)
    requires w.journal == [] && Lawful(w, actions)
    requires a < |Run(w, actions).journal| && b < |Run(w, actions).journal|
    requires Run(w, actions).journal[a].PublishFinalization? && Run(w, actions).journal[b].PublishFinalization?
    requires Run(w, actions).journal[a].op == Run(w, actions).journal[b].op
    requires Run(w, actions).journal[a].item == Run(w, actions).journal[b].item
    ensures a == b
  {
    ReachableIsLawful(w, actions);
    var j := Run(w, actions).journal;
    if a < b { OneFinalization(j, a, b); } else if b < a { OneFinalization(j, b, a); }
  }

  /** Every entry past the old journal is one of the effects applied. */
  lemma {:induction false} NewEntryIsAppended(w: World, es: seq<Effect>, i: nat)
    requires |w.journal| <= i < |ApplyAll(w, es).journal|
    ensures Append(ApplyAll(w, es).journal[i]) in es
  {
    if es == [] {
    } else {
      var k := |es| - 1;
      if i < |ApplyAll(w, es[..k]).journal| {
        NewEntryIsAppended(w, es[..k], i);
        assert forall e :: e in es[..k] ==> e in es;
      }
    }
  }

  lemma AppendsOnly(entries: seq<Entry>, e: Entry)
    requires Append(e) in Appends(entries)
    ensures e in entries
  {
    AppendsLength(entries);
  }

  lemma NewInCaught(w: World, env: Env, e: Entry)
    requires Append(e) in ReconcileEffects(w, env) && e.PublishFinalization?
    ensures w.head.Some? && RevisionIn(w.head.value, e.item) == Some(e.committed)
  {
    var added := CaughtExtends(w, env);
    DropPrefix(w.journal, added);
    AppendsOnly(added, e);
    AddedFinalizesHead(w, env, added, e);
  }

  lemma AddedFinalizesHead(w: World, env: Env, added: seq<Entry>, e: Entry)
    requires Caught(w, env) == w.journal + added && e in added && e.PublishFinalization?
    ensures w.head.Some? && RevisionIn(w.head.value, e.item) == Some(e.committed)
  {
    var t1, t2, t3 := CaughtPhases(w, env);
    AddedIsPhases(w.journal, Clock(env.now, ObservedAt(w.journal, env.now)), added, t1, t2, t3, e);
  }

  lemma AddedIsPhases(j: seq<Entry>, c: Entry, added: seq<Entry>, t1: seq<Entry>, t2: seq<Entry>, t3: seq<Entry>, e: Entry)
    requires j + added == j + [c] + t1 + t2 + t3 && e in added
    ensures e == c || e in t1 || e in t2 || e in t3
  {
    Assoc4(j + [c], t1, t2, t3);
    Assoc(j, [c], t1 + t2 + t3);
    DropPrefix(j, added);
    DropPrefix(j, [c] + (t1 + t2 + t3));
    assert e in [c] + (t1 + t2 + t3);
  }

  /** An effect of a command that is not one of its own follows from reconciling. */
  lemma FromReconciling(w: World, env: Env, own: seq<Effect>, e: Entry)
    requires Append(e) in ReconcileEffects(w, env) + own && e.PublishFinalization?
    requires Append(e) !in own
    ensures w.head.Some? && RevisionIn(w.head.value, e.item) == Some(e.committed)
  {
    InEither(ReconcileEffects(w, env), own, Append(e));
    NewInCaught(w, env, e);
  }

  lemma NoFinalizationIn(intent: Entry, write: seq<Effect>, terminal: seq<Effect>, e: Entry)
    requires e.PublishFinalization? && !intent.PublishFinalization?
    requires Append(e) !in write && Append(e) !in terminal
    ensures Append(e) !in [Append(intent)] + write + terminal
  {
    InEither([Append(intent)] + write, terminal, Append(e));
    InEither([Append(intent)], write, Append(e));
  }

  lemma MutateFinalizesHead(w: World, env: Env, item: ItemId, command: Command,
                            authorized: Option<Authorization>, write: Attempted, e: Entry)
    requires Append(e) in MutateEffects(w, env, item, command, authorized, write) && e.PublishFinalization?
    ensures w.head.Some? && RevisionIn(w.head.value, e.item) == Some(e.committed)
  {
    var r := ReconcileIn(w, env);
    if !MutationAdmitted(r, item, command) || authorized.None? {
      FromReconciling(w, env, [], e);
    } else {
      var a := authorized.value;
      var expected := RevisionIn(w.disk, item);
      NoFinalizationIn(MutationIntent(r, env, item, command, expected, a), WriteEffect(write, item, a.candidate),
                       MutationTerminal(r, env, item, command, expected, a, write.report), e);
      FromReconciling(w, env, [Append(MutationIntent(r, env, item, command, expected, a))]
                              + WriteEffect(write, item, a.candidate)
                              + MutationTerminal(r, env, item, command, expected, a, write.report), e);
    }
  }

  lemma PublishFinalizesHead(w: World, env: Env, request: PublishRequest, valid: bool, write: Attempted, e: Entry)
    requires Append(e) in PublishEffects(w, env, request, valid, write) && e.PublishFinalization?
    ensures w.head.Some? && RevisionIn(w.head.value, e.item) == Some(e.committed)
  {
    var r := ReconcileIn(w, env);
    if r.unsafe || HasFinalOp(r.entries, request.op) || !valid || request.item !in w.disk {
      FromReconciling(w, env, [], e);
    } else {
      FromReconciling(w, env, FencedEffects(r, env, request, write), e);
    }
  }

  lemma ClaimFinalizesHead(w: World, env: Env, request: Request, e: Entry)
    requires Append(e) in ClaimEffects(w, env, request) && e.PublishFinalization?
    ensures w.head.Some? && RevisionIn(w.head.value, e.item) == Some(e.committed)
  {
    var r := ReconcileIn(w, env);
    FromReconciling(w, env, if r.unsafe && !request.Release? then [] else [Append(Claim(request, env.now))], e);
  }

  lemma AdoptFinalizesHead(w: World, env: Env, item: ItemId, from: Revision, to: Revision, valid: bool, e: Entry)
    requires Append(e) in AdoptEffects(w, env, item, from, to, valid) && e.PublishFinalization?
    ensures w.head.Some? && RevisionIn(w.head.value, e.item) == Some(e.committed)
  {
    var r := ReconcileIn(w, env);
    FromReconciling(w, env, if from != to && AdoptionAllowed(w, r, item, from, to, valid)
                            then [Append(Adoption(item, from, to, r.observedAt))] else [], e);
  }

  /** A step finalizes only what HEAD carries when it runs. */
  lemma StepFinalizesHead(w: World, step: Step, e: Entry)
    requires Admissible(w, step) && Append(e) in Effects(w, step) && e.PublishFinalization?
    ensures w.head.Some? && RevisionIn(w.head.value, e.item) == Some(e.committed)
  {
    match step
    case Verify(env) => NewInCaught(w, env, e);
    case ClaimCommand(env, request) => ClaimFinalizesHead(w, env, request, e);
    case Adopt(env, item, from, to, valid) => AdoptFinalizesHead(w, env, item, from, to, valid, e);
    case Mutate(env, item, command, authorized, write) => MutateFinalizesHead(w, env, item, command, authorized, write, e);
    case Publish(env, request, valid, write) => PublishFinalizesHead(w, env, request, valid, write, e);
  }

  /** Whatever an action adds, kept or cut short, obeys the step's rule. */
  lemma ActionFinalizesHead(w: World, a: Action, i: nat)
    requires Admissible(w, a.step) && |w.journal| <= i < |Perform(w, a).journal|
    requires Perform(w, a).journal[i].PublishFinalization?
    ensures var e := Perform(w, a).journal[i];
            w.head.Some? && RevisionIn(w.head.value, e.item) == Some(e.committed)
  {
    NewEntryIsAppended(w, Kept(w, a), i);
    StepFinalizesHead(w, a.step, Perform(w, a).journal[i]);
  }

  /** Every finalization in a reachable journal was appended by an action that
      saw its committed revision at HEAD. */
  lemma {:induction false} FinalizationsFollowHead(w: World, actions: seq<Action>, i: nat) returns (k: nat)
    requires w.journal == [] && Lawful(w, actions)
    requires i < |Run(w, actions).journal| && Run(w, actions).journal[i].PublishFinalization?
    ensures k < |actions| && |Run(w, actions[..k]).journal| <= i
    ensures var e := Run(w, actions).journal[i];
            var seen := Run(w, actions[..k]).head;
            seen.Some? && RevisionIn(seen.value, e.item) == Some(e.committed)
  {
    var last := |actions| - 1;
    var before := Run(w, actions[..last]);
    LawfulInit(w, actions);
    PerformGrows(before, actions[last]);
    if i < |before.journal| {
      k := FinalizationsFollowHead(w, actions[..last], i);
      TakeTake(actions, last, k);
    } else {
      k := last;
      ActionFinalizesHead(before, actions[last], i);
    }
  }
}
