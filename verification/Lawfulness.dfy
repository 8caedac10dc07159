/** The invariant of every journal the protocol can write, with any crashes,
    any out-of-protocol edits of items and any movement of HEAD.

    It is stated position by position: entry i is lawful after the entries
    before it. Hence every prefix of a lawful journal is lawful, which is what
    a crash leaves behind. */
module Lawfulness {
  import opened Options
  import opened Leases
  import opened Journal
  import opened Reconciliation
  import opened Gate
  import opened Seqs

  ghost predicate NoOpenPublish(p: seq<Entry>) {
    forall i :: 0 <= i < |p| && p[i].PublishIntent? ==> HasFinal(p, p[i].digest.op, p[i].digest.item)
  }

  ghost predicate NoOpenLegacy(p: seq<Entry>) {
    forall i :: 0 <= i < |p| && p[i].LegacyIntent? ==> HasLegacyTerminal(p, p[i].attempt)
  }

  /** The fence of the request is the unexpired active claim of this journal. */
  ghost predicate FenceHolds(p: seq<Entry>, request: PublishRequest) {
    var s := Replay(p);
    var active := RecordOf(s, request.item).active;
    && request.ns == NAMESPACE == request.fence.ns
    && request.fence.item == request.item
    && active.Some?
    && active.value.owner == request.fence.owner
    && active.value.epoch == request.fence.epoch
    && s.floor.Some? && s.floor.value < active.value.expiresAt
  }

  /** A legacy write may begin: the item has never been claimed if it is to be
      created, and otherwise no lease on it is live. */
  ghost predicate LegacyFree(p: seq<Entry>, item: ItemId, command: Command) {
    var s := Replay(p);
    var record := RecordOf(s, item);
    if command.CreateV1? then record.lastEpoch == 0
    else record.active.Some? ==> s.floor.Some? && record.active.value.expiresAt <= s.floor.value
  }

  /** The publish intent a committed final must answer. */
  ghost predicate Answers(p: seq<Entry>, final: Entry)
    requires final.PublishFinal?
  {
    exists i :: 0 <= i < |p| && p[i].PublishIntent? && p[i].digest == final.digest
  }

  ghost predicate LawfulFinal(p: seq<Entry>, final: Entry)
    requires final.PublishFinal?
  {
    && !HasFinalOp(p, final.op)
    && final.op == final.digest.op && final.item == final.digest.item
    && (Answers(p, final) || (final.outcome.Rejected? && !HasIntentOp(p, final.op)))
    && (final.outcome.Committed? ==>
          Answers(p, final) && final.outcome == Committed(final.digest.candidate, final.digest.fence))
  }

  ghost predicate LawfulTerminal(p: seq<Entry>, e: Entry)
    requires IsLegacyTerminal(e)
  {
    && !HasLegacyTerminal(p, e.attempt)
    && exists i :: 0 <= i < |p| && p[i].LegacyIntent? && p[i].attempt == e.attempt
                   && p[i].item == e.item && p[i].command == e.command
                   && (e.LegacyMutation? ==> p[i].candidate == e.committed)
                   && (e.LegacyAbort? ==> p[i].expected == e.observed)
  }

  ghost predicate LawfulFinalization(p: seq<Entry>, e: Entry)
    requires e.PublishFinalization?
  {
    && !HasFinalization(p, e.op, e.item)
    && exists i :: 0 <= i < |p| && IsCommittedFinal(p[i]) && p[i].op == e.op && p[i].item == e.item
                   && p[i].outcome.revision == e.committed
  }

  ghost predicate LawfulEntry(p: seq<Entry>, e: Entry) {
    match e
    case Clock(now, floor) => floor == ObservedAt(p, now)
    case Claim(request, _) => !request.Read? && NoOpenPublish(p)
    case LegacyIntent(attempt, item, command, _, _, _, at) =>
      !HasLegacyIntent(p, attempt) && NoOpenPublish(p) && NoOpenLegacy(p)
      && LegacyFree(p, item, command) && Replay(p).floor == Some(at)
    case PublishIntent(digest, floor, _) =>
      NoOpenPublish(p) && NoOpenLegacy(p) && !HasIntentOp(p, digest.op) && !HasFinalOp(p, digest.op)
      && FenceHolds(p, digest) && Replay(p).floor == Some(floor)
    case PublishFinal(_, _, _, _, _) => LawfulFinal(p, e)
    case LegacyMutation(_, _, _, _, _, _) => LawfulTerminal(p, e)
    case LegacyAbort(_, _, _, _, _) => LawfulTerminal(p, e)
    case PublishFinalization(_, _, _) => LawfulFinalization(p, e)
    case Adoption(item, from, to, _) => LatestAuthorized(p, item) == Some(from) && from != to && NoOpenPublish(p)
    case _ => true
  }

  ghost predicate LawfulJournal(j: seq<Entry>) {
    forall i :: 0 <= i < |j| ==> LawfulEntry(j[..i], j[i])
  }

  lemma LawfulPrefix(j: seq<Entry>, p: seq<Entry>)
    requires LawfulJournal(j) && p <= j
    ensures LawfulJournal(p)
  {
    forall i | 0 <= i < |p| ensures LawfulEntry(p[..i], p[i]) {
      assert p[..i] == j[..i];
    }
  }

  lemma LawfulAppend(j: seq<Entry>, e: Entry)
    requires LawfulJournal(j) && LawfulEntry(j, e)
    ensures LawfulJournal(j + [e])
  {
    var k := j + [e];
    forall i | 0 <= i < |k| ensures LawfulEntry(k[..i], k[i]) {
      if i < |j| { assert k[..i] == j[..i]; } else { assert k[..i] == j; }
    }
  }

  // ----- consequences of lawfulness -----

  /** An operation has at most one intent and at most one final. */
  lemma OneIntentOneFinal(j: seq<Entry>, a: nat, b: nat)
    requires LawfulJournal(j) && a < b < |j|
    ensures !(j[a].PublishIntent? && j[b].PublishIntent? && j[a].digest.op == j[b].digest.op)
    ensures !(j[a].PublishFinal? && j[b].PublishFinal? && j[a].op == j[b].op)
    ensures !(j[a].PublishFinal? && j[b].PublishIntent? && j[a].op == j[b].digest.op)
  {
    assert j[..b][a] == j[a];
    assert LawfulEntry(j[..b], j[b]);
  }

  /** An attempt has at most one terminal, and it follows its intent. */
  lemma OneTerminal(j: seq<Entry>, a: nat, b: nat)
    requires LawfulJournal(j) && a < b < |j|
    ensures !(IsLegacyTerminal(j[a]) && IsLegacyTerminal(j[b]) && j[a].attempt == j[b].attempt)
    ensures !(j[a].LegacyIntent? && j[b].LegacyIntent? && j[a].attempt == j[b].attempt)
  {
    assert j[..b][a] == j[a];
    assert LawfulEntry(j[..b], j[b]);
  }

  /** An (operation, item) pair is finalized at most once ever. */
  lemma OneFinalization(j: seq<Entry>, a: nat, b: nat)
    requires LawfulJournal(j) && a < b < |j|
    ensures !(j[a].PublishFinalization? && j[b].PublishFinalization? && j[a].op == j[b].op && j[a].item == j[b].item)
  {
    assert j[..b][a] == j[a];
    assert LawfulEntry(j[..b], j[b]);
  }

  /** A final of an intent's operation is the final of its item and digest. */
  lemma FinalMatchesIntent(j: seq<Entry>, a: nat, f: nat)
    requires LawfulJournal(j) && a < |j| && f < |j|
    requires j[a].PublishIntent? && j[f].PublishFinal? && j[f].op == j[a].digest.op
    ensures a < f && j[f].digest == j[a].digest && j[f].item == j[a].digest.item
  {
    if f < a {
      OneIntentOneFinal(j, f, a);
    } else {
      var p := j[..f];
      assert p[a] == j[a];
      assert LawfulEntry(p, j[f]);
      assert HasIntentOp(p, j[f].op);
      var i :| 0 <= i < |p| && p[i].PublishIntent? && p[i].digest == j[f].digest;
      if i < a { OneIntentOneFinal(j, i, a); } else if a < i { OneIntentOneFinal(j, a, i); }
    }
  }

  /** A publish intent is open by operation exactly when it is open by operation
      and item, which is the key recovery uses. */
  lemma OpenByOperation(j: seq<Entry>, intent: Entry)
    requires LawfulJournal(j) && OpenPublish(j, intent)
    ensures !HasFinalOp(j, intent.digest.op)
  {
    var a :| 0 <= a < |j| && j[a] == intent;
    if HasFinalOp(j, intent.digest.op) {
      var f :| 0 <= f < |j| && j[f].PublishFinal? && j[f].op == intent.digest.op;
      FinalMatchesIntent(j, a, f);
    }
  }

  // ----- reconciliation keeps the journal lawful -----

  lemma {:induction false} PendingLegacyDistinct(entries: seq<Entry>, prefix: seq<Entry>, i: nat, k: nat)
    requires LawfulJournal(prefix) && i < k < |PendingLegacy(entries, prefix)|
    ensures PendingLegacy(entries, prefix)[i].attempt != PendingLegacy(entries, prefix)[k].attempt
  {
    var n := |prefix| - 1;
    LawfulPrefix(prefix, prefix[..n]);
    var before := PendingLegacy(entries, prefix[..n]);
    if k < |before| {
      PendingLegacyDistinct(entries, prefix[..n], i, k);
    } else {
      assert before[i] in before && before[i] in prefix[..n];
      assert LawfulEntry(prefix[..n], prefix[n]);
    }
  }

  lemma LegacyTailNext(pending: seq<Entry>, disk: Tree, at: Instant, k: nat)
    requires k < |pending| && forall i :: 0 <= i < |pending| ==> pending[i].LegacyIntent?
    ensures var r := ResolveLegacy(pending[k], disk, at);
            LegacyTail(pending[..k + 1], disk, at)
            == if r.Some? then LegacyTail(pending[..k], disk, at) + [r.value] else LegacyTail(pending[..k], disk, at)
  {
    TakeTake(pending, k + 1, k);
    AddNothing(LegacyTail(pending[..k], disk, at));
  }

  lemma {:induction false} LegacyTailIsLawful(j: seq<Entry>, disk: Tree, at: Instant, k: nat)
    requires LawfulJournal(j) && k <= |PendingLegacy(j, j)|
    ensures LawfulJournal(j + LegacyTail(PendingLegacy(j, j)[..k], disk, at))
  {
    var pending := PendingLegacy(j, j);
    if k == 0 {
      AddNothing(j);
    } else {
      LegacyTailIsLawful(j, disk, at, k - 1);
      LegacyTailNext(pending, disk, at, k - 1);
      var before := LegacyTail(pending[..k - 1], disk, at);
      var r := ResolveLegacy(pending[k - 1], disk, at);
      if r.Some? {
        ResolutionIsLawful(j, disk, at, k - 1);
        LawfulAppend(j + before, r.value);
        Assoc(j, before, [r.value]);
      }
    }
  }

  lemma NotYetResolved(j: seq<Entry>, disk: Tree, at: Instant, k: nat)
    requires LawfulJournal(j) && k < |PendingLegacy(j, j)|
    ensures !HasLegacyTerminal(j + LegacyTail(PendingLegacy(j, j)[..k], disk, at), PendingLegacy(j, j)[k].attempt)
  {
    var pending := PendingLegacy(j, j);
    var before := LegacyTail(pending[..k], disk, at);
    assert pending[k] in pending;
    forall t | 0 <= t < |before| && IsLegacyTerminal(before[t]) ensures before[t].attempt != pending[k].attempt {
      ResolvesEarlier(j, disk, at, k, before[t]);
    }
    NoTerminalAppended(j, before, pending[k].attempt);
  }

  /** What is resolved first is another attempt. */
  lemma ResolvesEarlier(j: seq<Entry>, disk: Tree, at: Instant, k: nat, e: Entry)
    requires LawfulJournal(j) && k < |PendingLegacy(j, j)|
    requires e in LegacyTail(PendingLegacy(j, j)[..k], disk, at) && IsLegacyTerminal(e)
    ensures e.attempt != PendingLegacy(j, j)[k].attempt
  {
    var pending := PendingLegacy(j, j);
    var p := ResolvedFrom(pending[..k], disk, at, e);
    var i :| 0 <= i < k && pending[..k][i] == p;
    PendingLegacyDistinct(j, j, i, k);
  }

  lemma NoTerminalAppended(j: seq<Entry>, tail: seq<Entry>, attempt: AttemptId)
    requires !HasLegacyTerminal(j, attempt)
    requires forall t :: 0 <= t < |tail| && IsLegacyTerminal(tail[t]) ==> tail[t].attempt != attempt
    ensures !HasLegacyTerminal(j + tail, attempt)
  {
    var p := j + tail;
    forall t | 0 <= t < |p| && IsLegacyTerminal(p[t]) ensures p[t].attempt != attempt {
      if t < |j| { assert p[t] == j[t]; } else { assert p[t] == tail[t - |j|]; }
    }
  }

  lemma ResolutionIsLawful(j: seq<Entry>, disk: Tree, at: Instant, k: nat)
    requires LawfulJournal(j) && k < |PendingLegacy(j, j)|
    requires ResolveLegacy(PendingLegacy(j, j)[k], disk, at).Some?
    ensures LawfulEntry(j + LegacyTail(PendingLegacy(j, j)[..k], disk, at), ResolveLegacy(PendingLegacy(j, j)[k], disk, at).value)
  {
    NotYetResolved(j, disk, at, k);
    var intent := PendingLegacy(j, j)[k];
    assert intent in PendingLegacy(j, j);
    var p := j + LegacyTail(PendingLegacy(j, j)[..k], disk, at);
    var i :| 0 <= i < |j| && j[i] == intent;
    assert p[i] == intent;
  }

  lemma {:induction false} PendingPublishDistinct(entries: seq<Entry>, prefix: seq<Entry>, i: nat, k: nat)
    requires LawfulJournal(prefix) && i < k < |PendingPublish(entries, prefix)|
    ensures PendingPublish(entries, prefix)[i].digest.op != PendingPublish(entries, prefix)[k].digest.op
  {
    var n := |prefix| - 1;
    LawfulPrefix(prefix, prefix[..n]);
    var before := PendingPublish(entries, prefix[..n]);
    if k < |before| {
      PendingPublishDistinct(entries, prefix[..n], i, k);
    } else {
      assert before[i] in before && before[i] in prefix[..n];
      assert LawfulEntry(prefix[..n], prefix[n]);
    }
  }

  /** `j` extends `journal` by entries that are neither intents nor finals. */
  ghost predicate Neutral(journal: seq<Entry>, j: seq<Entry>) {
    journal <= j && forall i :: |journal| <= i < |j| ==> !j[i].PublishIntent? && !j[i].PublishFinal?
  }

  lemma {:induction false} PublishTailIsLawful(journal: seq<Entry>, j: seq<Entry>, disk: Tree, state: ClaimState, k: nat)
    requires LawfulJournal(j) && Neutral(journal, j) && LawfulJournal(journal)
    requires k <= |PendingPublish(journal, journal)|
    ensures LawfulJournal(j + PublishTail(j, PendingPublish(journal, journal)[..k], disk, state))
  {
    var pending := PendingPublish(journal, journal);
    if k == 0 {
      assert j + [] == j;
    } else {
      PublishTailIsLawful(journal, j, disk, state, k - 1);
      assert pending[..k][..k - 1] == pending[..k - 1];
      var before := PublishTail(j, pending[..k - 1], disk, state);
      var final := RecoveredFinal(j + before, pending[k - 1], disk, state);
      RecoveryIsLawful(journal, j, disk, state, k - 1);
      LawfulAppend(j + before, final);
      assert j + (before + [final]) == (j + before) + [final];
    }
  }

  lemma NotYetRecovered(journal: seq<Entry>, j: seq<Entry>, disk: Tree, state: ClaimState, k: nat)
    requires LawfulJournal(journal) && Neutral(journal, j)
    requires k < |PendingPublish(journal, journal)|
    ensures var pending := PendingPublish(journal, journal);
            !HasFinalOp(j + PublishTail(j, pending[..k], disk, state), pending[k].digest.op)
  {
    var pending := PendingPublish(journal, journal);
    var before := PublishTail(j, pending[..k], disk, state);
    assert pending[k] in pending;
    OpenByOperation(journal, pending[k]);
    PublishTailShape(j, pending[..k], disk, state);
    forall i | 0 <= i < |before| ensures before[i].PublishFinal? ==> before[i].op != pending[k].digest.op {
      assert before[i] == RecoveredFinal(j + before[..i], pending[..k][i], disk, state);
      PendingPublishDistinct(journal, journal, i, k);
    }
    forall i | 0 <= i < |j| ensures j[i].PublishFinal? ==> j[i].op != pending[k].digest.op {
      if i < |journal| { assert journal[i] == j[i]; }
    }
  }

  lemma RecoveryIsLawful(journal: seq<Entry>, j: seq<Entry>, disk: Tree, state: ClaimState, k: nat)
    requires LawfulJournal(journal) && Neutral(journal, j)
    requires k < |PendingPublish(journal, journal)|
    ensures var pending := PendingPublish(journal, journal);
            var p := j + PublishTail(j, pending[..k], disk, state);
            LawfulEntry(p, RecoveredFinal(p, pending[k], disk, state))
  {
    NotYetRecovered(journal, j, disk, state, k);
    var pending := PendingPublish(journal, journal);
    var p := j + PublishTail(j, pending[..k], disk, state);
    assert pending[k] in pending;
    var i :| 0 <= i < |journal| && journal[i] == pending[k];
    assert p[i] == pending[k];
    assert Answers(p, RecoveredFinal(p, pending[k], disk, state));
  }

  lemma {:induction false} FinalizationTailIsLawful(j: seq<Entry>, head: Tree, k: nat)
    requires LawfulJournal(j) && k <= |j|
    ensures LawfulJournal(j + FinalizationTail(j, j[..k], head))
  {
    if k == 0 {
      assert j + [] == j;
    } else {
      FinalizationTailIsLawful(j, head, k - 1);
      assert j[..k][..k - 1] == j[..k - 1];
      var before := FinalizationTail(j, j[..k - 1], head);
      if Finalizable(j + before, j[k - 1], head) {
        var e := FinalizationOf(j[k - 1]);
        assert (j + before)[k - 1] == j[k - 1];
        LawfulAppend(j + before, e);
        assert j + (before + [e]) == (j + before) + [e];
      } else {
        assert before + [] == before;
      }
    }
  }

  lemma AfterLegacyIsLawful(journal: seq<Entry>, disk: Tree, env: Env)
    requires LawfulJournal(journal)
    ensures LawfulJournal(AfterLegacy(journal, disk, env)) && Neutral(journal, AfterLegacy(journal, disk, env))
  {
    var j := AfterClock(journal, env);
    var at := ObservedAt(journal, env.now);
    LawfulAppend(journal, Clock(env.now, at));
    LegacyTailIsLawful(j, disk, at, |PendingLegacy(j, j)|);
    assert PendingLegacy(j, j)[..|PendingLegacy(j, j)|] == PendingLegacy(j, j);
    LegacyTailShape(PendingLegacy(j, j), disk, at);
    var r := AfterLegacy(journal, disk, env);
    forall i | |journal| <= i < |r| ensures !r[i].PublishIntent? && !r[i].PublishFinal? {
      if i >= |j| { assert r[i] in LegacyTail(PendingLegacy(j, j), disk, at); }
    }
  }

  lemma AfterPublishIsLawful(journal: seq<Entry>, disk: Tree, env: Env)
    requires LawfulJournal(journal)
    ensures LawfulJournal(AfterPublish(journal, disk, env))
  {
    AfterLegacyIsLawful(journal, disk, env);
    var pending := PendingPublish(journal, journal);
    PublishTailIsLawful(journal, AfterLegacy(journal, disk, env), disk, ReconciledState(journal, env), |pending|);
    assert pending[..|pending|] == pending;
  }

  lemma ReconcileIsLawful(journal: seq<Entry>, disk: Tree, head: Option<Tree>, env: Env)
    requires LawfulJournal(journal)
    ensures LawfulJournal(AfterReconcile(journal, disk, head, env))
  {
    AfterPublishIsLawful(journal, disk, env);
    if head.Some? {
      var j := AfterPublish(journal, disk, env);
      FinalizationTailIsLawful(j, head.value, |j|);
      assert j[..|j|] == j;
    }
  }

  lemma ReconcileClosesAllPublish(journal: seq<Entry>, disk: Tree, head: Option<Tree>, env: Env)
    ensures NoOpenPublish(AfterReconcile(journal, disk, head, env))
  {
    var r := AfterReconcile(journal, disk, head, env);
    forall i | 0 <= i < |r| && r[i].PublishIntent? ensures HasFinal(r, r[i].digest.op, r[i].digest.item) {
      ReconcileClosesPublish(journal, disk, head, env, r[i]);
    }
  }

  /** A reconciliation that does not block has closed every legacy attempt. */
  lemma SafeReconcileClosesAllLegacy(journal: seq<Entry>, disk: Tree, head: Option<Tree>, env: Env)
    requires !Reconcile(journal, disk, head, env).unsafe
    ensures NoOpenLegacy(AfterReconcile(journal, disk, head, env))
  {
    var r := AfterReconcile(journal, disk, head, env);
    forall i | 0 <= i < |r| && r[i].LegacyIntent? ensures HasLegacyTerminal(r, r[i].attempt) {
      if !HasLegacyTerminal(r, r[i].attempt) {
        ReconcileLeavesThirdRevisions(journal, disk, head, env, r[i]);
        GateClosesLegacy(journal, disk, head, env, r[i]);
      }
    }
  }
}
