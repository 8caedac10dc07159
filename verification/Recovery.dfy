/** Crash-exact recovery in one working tree: whatever step a fence died at,
    the next reconciliation closes every open intent exactly once, as committed
    exactly when the disk holds the candidate, and every item with a ruling
    then holds its latest authorized revision. */
module Recovery {
  import opened Options
  import opened Leases
  import opened Journal
  import opened Reconciliation
  import opened Gate
  import opened Protocol
  import opened Lawfulness
  import opened Fencing
  import opened Seqs

  /** The journal neither rules on the item nor holds an open legacy attempt on it. */
  ghost predicate Unruled(j: seq<Entry>, item: ItemId) {
    LatestAuthorized(j, item).None? && forall e :: OpenLegacy(j, e) ==> e.item != item
  }

  /** What lands under an unknown report is no other than the item's ruling. */
  ghost predicate LandsOnRuling(w: World, env: Env, request: PublishRequest) {
    LatestAuthorized(Caught(w, env), request.item) in {None, Some(request.candidate)}
  }

  /** Edits and number repairs write only items the journal does not rule on, and
      a publication whose bytes land while its outcome is reported unknown
      overrules nothing. */
  ghost predicate InProtocol(w: World, step: Step) {
    match step
    case Edit(item, _) => Unruled(w.journal, item)
    case Repair(effects) => forall i :: 0 <= i < |effects| && effects[i].Write? ==> Unruled(w.journal, effects[i].item)
    case Publish(env, request, valid, write) =>
      ReachesWrite(w, env, request, valid) && write == Attempted(true, CouldNotTell) ==> LandsOnRuling(w, env, request)
    case _ => true
  }

  ghost predicate InProtocolAt(w: World, actions: seq<Action>, i: nat)
    requires i < |actions|
  {
    InProtocol(Run(w, actions[..i]), actions[i].step)
  }

  ghost predicate InProtocolRun(w: World, actions: seq<Action>) {
    forall i :: 0 <= i < |actions| ==> InProtocolAt(w, actions, i)
  }

  ghost predicate SettledOn(j: seq<Entry>, disk: Tree, item: ItemId) {
    var latest := LatestAuthorized(j, item);
    latest.Some? ==> RevisionIn(disk, item) == latest
  }

  ghost function IntentItem(e: Entry): ItemId
    requires IsIntent(e)
  {
    if e.LegacyIntent? then e.item else e.digest.item
  }

  ghost function IntentCandidate(e: Entry): Revision
    requires IsIntent(e)
  {
    if e.LegacyIntent? then e.candidate else e.digest.candidate
  }

  ghost predicate Open(j: seq<Entry>, e: Entry) {
    OpenLegacy(j, e) || OpenPublish(j, e)
  }

  /** The one open intent of the item already wrote its candidate. */
  ghost predicate Held(j: seq<Entry>, disk: Tree, item: ItemId) {
    exists e :: Open(j, e) && IntentItem(e) == item && RevisionIn(disk, item) == Some(IntentCandidate(e))
  }

  /** An open legacy intent finds its expected or its candidate bytes. */
  ghost predicate Near(j: seq<Entry>, disk: Tree) {
    forall e :: OpenLegacy(j, e) ==>
      RevisionIn(disk, e.item) == Some(e.candidate) || RevisionIn(disk, e.item) == e.expected
  }

  ghost predicate Sound(j: seq<Entry>, disk: Tree) {
    && (forall item :: SettledOn(j, disk, item) || Held(j, disk, item))
    && Near(j, disk)
  }

  // ----- at most one intent is ever open -----

  lemma OpenIsAlone(j: seq<Entry>, e: Entry, f: Entry)
    requires LawfulJournal(j) && Open(j, e) && Open(j, f)
    ensures e == f
  {
    var a :| 0 <= a < |j| && j[a] == e;
    var b :| 0 <= b < |j| && j[b] == f;
    if a < b { OpenBeforeIntent(j, a, b); } else if b < a { OpenBeforeIntent(j, b, a); }
  }

  lemma OpenBeforeIntent(j: seq<Entry>, a: nat, b: nat)
    requires LawfulJournal(j) && a < b < |j| && IsIntent(j[b])
    ensures !Open(j, j[a])
  {
    assert LawfulEntry(j[..b], j[b]);
    assert j[..b][a] == j[a];
    SplitAt(j, b);
    if j[a].LegacyIntent? {
      TerminalMonotone(j[..b], j[b..], j[a].attempt);
    } else if j[a].PublishIntent? {
      FinalMonotone(j[..b], j[b..], j[a].digest.op, j[a].digest.item);
    }
  }

  // ----- what each entry owes the disk -----

  ghost predicate OwesDisk(j: seq<Entry>, disk: Tree, e: Entry) {
    match e
    case LegacyIntent(_, item, _, expected, _, _, _) => RevisionIn(disk, item) == expected
    case LegacyMutation(_, item, _, committed, _, _) => RevisionIn(disk, item) == Some(committed)
    case LegacyAbort(_, item, _, _, _) => SettledOn(j, disk, item)
    case PublishFinal(_, _, item, _, outcome) =>
      if outcome.Committed? then RevisionIn(disk, item) == Some(outcome.revision) else SettledOn(j, disk, item)
    case Adoption(item, _, to, _) => RevisionIn(disk, item) == Some(to)
    case _ => true
  }

  lemma StillOpen(j: seq<Entry>, e: Entry, open: Entry)
    requires Open(j, open)
    requires IsLegacyTerminal(e) && open.LegacyIntent? ==> e.attempt != open.attempt
    requires e.PublishFinal? && open.PublishIntent? ==> e.op != open.digest.op
    ensures Open(j + [e], open)
  {
  }

  /** A terminal that closes an open intent names that intent's item. */
  lemma TerminalNamesItem(j: seq<Entry>, e: Entry, open: Entry)
    requires LawfulJournal(j) && LawfulEntry(j, e) && Open(j, open)
    requires (IsLegacyTerminal(e) && open.LegacyIntent? && e.attempt == open.attempt)
          || (e.PublishFinal? && open.PublishIntent? && e.op == open.digest.op)
    ensures e.item == IntentItem(open)
  {
    var a :| 0 <= a < |j| && j[a] == open;
    LawfulAppend(j, e);
    var k := j + [e];
    assert k[a] == open && k[|j|] == e;
    if e.PublishFinal? {
      FinalMatchesIntent(k, a, |j|);
    } else {
      var i :| 0 <= i < |j| && j[i].LegacyIntent? && j[i].attempt == e.attempt && j[i].item == e.item;
      if i < a { OneTerminal(j, i, a); } else if a < i { OneTerminal(j, a, i); }
    }
  }

  lemma SettledAppend(j: seq<Entry>, disk: Tree, e: Entry, item: ItemId)
    requires LawfulJournal(j) && LawfulEntry(j, e) && OwesDisk(j, disk, e)
    requires SettledOn(j, disk, item) || Held(j, disk, item)
    ensures SettledOn(j + [e], disk, item) || Held(j + [e], disk, item)
  {
    LatestAppend(j, e, item);
    if !Authorizes(e, item) && !SettledOn(j, disk, item) {
      var open :| Open(j, open) && IntentItem(open) == item && RevisionIn(disk, item) == Some(IntentCandidate(open));
      if (IsLegacyTerminal(e) && open.LegacyIntent? && e.attempt == open.attempt)
         || (e.PublishFinal? && open.PublishIntent? && e.op == open.digest.op) {
        TerminalNamesItem(j, e, open);
      } else {
        StillOpen(j, e, open);
      }
    }
  }

  lemma SoundAppend(j: seq<Entry>, disk: Tree, e: Entry)
    requires LawfulJournal(j) && LawfulEntry(j, e) && OwesDisk(j, disk, e) && Sound(j, disk)
    ensures Sound(j + [e], disk)
  {
    forall item ensures SettledOn(j + [e], disk, item) || Held(j + [e], disk, item) {
      SettledAppend(j, disk, e, item);
    }
    forall open | OpenLegacy(j + [e], open)
      ensures RevisionIn(disk, open.item) == Some(open.candidate) || RevisionIn(disk, open.item) == open.expected
    {
      if open != e {
        OpenEarlier(j, e, open);
      }
    }
  }

  lemma OpenEarlier(j: seq<Entry>, e: Entry, open: Entry)
    requires OpenLegacy(j + [e], open) && open != e
    ensures OpenLegacy(j, open)
  {
    if HasLegacyTerminal(j, open.attempt) {
      TerminalMonotone(j, [e], open.attempt);
    }
  }

  lemma WriteElsewhere(j: seq<Entry>, disk: Tree, item: ItemId, candidate: Revision, other: ItemId)
    requires other != item
    requires SettledOn(j, disk, other) || Held(j, disk, other)
    ensures SettledOn(j, disk[item := candidate], other) || Held(j, disk[item := candidate], other)
  {
    assert RevisionIn(disk[item := candidate], other) == RevisionIn(disk, other);
    if Held(j, disk, other) {
      var e :| Open(j, e) && IntentItem(e) == other && RevisionIn(disk, other) == Some(IntentCandidate(e));
      assert RevisionIn(disk[item := candidate], other) == Some(IntentCandidate(e));
    }
  }

  lemma WriteStaysNear(j: seq<Entry>, disk: Tree, intent: Entry)
    requires LawfulJournal(j) && Open(j, intent)
    ensures Near(j, disk[IntentItem(intent) := IntentCandidate(intent)])
  {
    var after := disk[IntentItem(intent) := IntentCandidate(intent)];
    forall open | OpenLegacy(j, open)
      ensures RevisionIn(after, open.item) == Some(open.candidate) || RevisionIn(after, open.item) == open.expected
    {
      OpenIsAlone(j, open, intent);
    }
  }

  /** The open intent of an item writes its candidate. */
  lemma SoundWrite(j: seq<Entry>, disk: Tree, intent: Entry)
    requires LawfulJournal(j) && Sound(j, disk) && Open(j, intent)
    ensures Sound(j, disk[IntentItem(intent) := IntentCandidate(intent)])
  {
    var item := IntentItem(intent);
    var after := disk[item := IntentCandidate(intent)];
    assert Held(j, after, item);
    forall other ensures SettledOn(j, after, other) || Held(j, after, other) {
      if other != item { WriteElsewhere(j, disk, item, IntentCandidate(intent), other); }
    }
    WriteStaysNear(j, disk, intent);
  }

  // ----- reconciliation keeps soundness at every append -----

  /** An open intent whose candidate is not on disk leaves its item settled. */
  lemma UnheldIsSettled(j: seq<Entry>, disk: Tree, intent: Entry)
    requires LawfulJournal(j) && Sound(j, disk) && Open(j, intent)
    requires RevisionIn(disk, IntentItem(intent)) != Some(IntentCandidate(intent))
    ensures SettledOn(j, disk, IntentItem(intent))
  {
    if !SettledOn(j, disk, IntentItem(intent)) {
      var e :| Open(j, e) && IntentItem(e) == IntentItem(intent) && RevisionIn(disk, IntentItem(intent)) == Some(IntentCandidate(e));
      OpenIsAlone(j, e, intent);
    }
  }

  ghost predicate SoundFrom(j: seq<Entry>, disk: Tree, n: nat) {
    forall i :: n <= i <= |j| ==> Sound(j[..i], disk)
  }

  lemma SoundFromAppend(j: seq<Entry>, disk: Tree, n: nat, e: Entry)
    requires n <= |j| && SoundFrom(j, disk, n) && Sound(j + [e], disk)
    ensures SoundFrom(j + [e], disk, n)
  {
    var k := j + [e];
    forall i | n <= i <= |k| ensures Sound(k[..i], disk) {
      if i <= |j| { assert k[..i] == j[..i]; } else { assert k[..i] == k; }
    }
  }

  lemma SoundAtEnd(j: seq<Entry>, disk: Tree, n: nat)
    requires n <= |j| && SoundFrom(j, disk, n)
    ensures Sound(j, disk)
  {
    assert j[..|j|] == j;
  }

  /** One more lawful entry that owes nothing to the disk it does not pay. */
  lemma Extend(j: seq<Entry>, disk: Tree, n: nat, e: Entry)
    requires n <= |j| && LawfulJournal(j) && SoundFrom(j, disk, n)
    requires LawfulEntry(j, e) && OwesDisk(j, disk, e)
    ensures LawfulJournal(j + [e]) && SoundFrom(j + [e], disk, n)
  {
    SoundAtEnd(j, disk, n);
    SoundAppend(j, disk, e);
    SoundFromAppend(j, disk, n, e);
    LawfulAppend(j, e);
  }

  lemma PendingLegacyIsOpen(j: seq<Entry>, disk: Tree, at: Instant, k: nat)
    requires LawfulJournal(j) && k < |PendingLegacy(j, j)|
    ensures OpenLegacy(j + LegacyTail(PendingLegacy(j, j)[..k], disk, at), PendingLegacy(j, j)[k])
  {
    NotYetResolved(j, disk, at, k);
    assert PendingLegacy(j, j)[k] in PendingLegacy(j, j);
  }

  lemma LegacyResolutionIsSound(j: seq<Entry>, disk: Tree, at: Instant, n: nat, k: nat)
    requires LawfulJournal(j) && n <= |j| && k < |PendingLegacy(j, j)|
    requires SoundFrom(j + LegacyTail(PendingLegacy(j, j)[..k], disk, at), disk, n)
    requires ResolveLegacy(PendingLegacy(j, j)[k], disk, at).Some?
    ensures var r := ResolveLegacy(PendingLegacy(j, j)[k], disk, at).value;
            SoundFrom(j + (LegacyTail(PendingLegacy(j, j)[..k], disk, at) + [r]), disk, n)
  {
    var before := LegacyTail(PendingLegacy(j, j)[..k], disk, at);
    var r := ResolveLegacy(PendingLegacy(j, j)[k], disk, at).value;
    LegacyResolutionOwes(j, disk, at, n, k);
    ResolutionIsLawful(j, disk, at, k);
    LegacyTailIsLawful(j, disk, at, k);
    Extend(j + before, disk, n, r);
    Assoc(j, before, [r]);
  }

  /** The journal once the first `k` pending attempts are judged. */
  ghost function AfterAttempts(j: seq<Entry>, disk: Tree, at: Instant, k: nat): seq<Entry>
    requires k <= |PendingLegacy(j, j)|
  {
    j + LegacyTail(PendingLegacy(j, j)[..k], disk, at)
  }

  lemma AttemptIsSound(j: seq<Entry>, disk: Tree, at: Instant, n: nat, k: nat)
    requires LawfulJournal(j) && n <= |j| && k < |PendingLegacy(j, j)| && SoundFrom(AfterAttempts(j, disk, at, k), disk, n)
    ensures SoundFrom(AfterAttempts(j, disk, at, k + 1), disk, n)
  {
    LegacyTailNext(PendingLegacy(j, j), disk, at, k);
    if ResolveLegacy(PendingLegacy(j, j)[k], disk, at).Some? {
      LegacyResolutionIsSound(j, disk, at, n, k);
    }
  }

  lemma {:induction false} LegacyPhaseIsSound(j: seq<Entry>, disk: Tree, at: Instant, n: nat, k: nat)
    requires LawfulJournal(j) && n <= |j| && SoundFrom(j, disk, n) && k <= |PendingLegacy(j, j)|
    ensures SoundFrom(AfterAttempts(j, disk, at, k), disk, n)
  {
    if k == 0 {
      AddNothing(j);
    } else {
      LegacyPhaseIsSound(j, disk, at, n, k - 1);
      AttemptIsSound(j, disk, at, n, k - 1);
    }
  }

  lemma LegacyResolutionOwes(j: seq<Entry>, disk: Tree, at: Instant, n: nat, k: nat)
    requires LawfulJournal(j) && n <= |j| && k < |PendingLegacy(j, j)|
    requires SoundFrom(j + LegacyTail(PendingLegacy(j, j)[..k], disk, at), disk, n)
    requires ResolveLegacy(PendingLegacy(j, j)[k], disk, at).Some?
    ensures OwesDisk(j + LegacyTail(PendingLegacy(j, j)[..k], disk, at), disk, ResolveLegacy(PendingLegacy(j, j)[k], disk, at).value)
  {
    var intent := PendingLegacy(j, j)[k];
    var p := j + LegacyTail(PendingLegacy(j, j)[..k], disk, at);
    SoundAtEnd(p, disk, n);
    PendingLegacyIsOpen(j, disk, at, k);
    LegacyTailIsLawful(j, disk, at, k);
    if RevisionIn(disk, intent.item) != Some(intent.candidate) {
      UnheldIsSettled(p, disk, intent);
    }
  }

  /** No open publication's fence has been overtaken. */
  ghost predicate NoneOvertaken(journal: seq<Entry>, state: ClaimState) {
    forall e :: OpenPublish(journal, e) ==> !HigherEpoch(state, e.digest)
  }

  lemma PendingPublishIsOpen(journal: seq<Entry>, j: seq<Entry>, disk: Tree, state: ClaimState, k: nat)
    requires LawfulJournal(journal) && Neutral(journal, j) && k < |PendingPublish(journal, journal)|
    ensures OpenPublish(j + PublishTail(j, PendingPublish(journal, journal)[..k], disk, state), PendingPublish(journal, journal)[k])
    ensures OpenPublish(journal, PendingPublish(journal, journal)[k])
  {
    NotYetRecovered(journal, j, disk, state, k);
    var intent := PendingPublish(journal, journal)[k];
    assert intent in PendingPublish(journal, journal);
    var i :| 0 <= i < |journal| && journal[i] == intent;
    assert j[i] == intent;
  }

  lemma PublishResolutionOwes(journal: seq<Entry>, j: seq<Entry>, disk: Tree, state: ClaimState, n: nat, k: nat)
    requires LawfulJournal(journal) && LawfulJournal(j) && Neutral(journal, j) && NoneOvertaken(journal, state)
    requires n <= |j| && k < |PendingPublish(journal, journal)|
    requires SoundFrom(j + PublishTail(j, PendingPublish(journal, journal)[..k], disk, state), disk, n)
    ensures var p := j + PublishTail(j, PendingPublish(journal, journal)[..k], disk, state);
            OwesDisk(p, disk, RecoveredFinal(p, PendingPublish(journal, journal)[k], disk, state))
  {
    var intent := PendingPublish(journal, journal)[k];
    var p := j + PublishTail(j, PendingPublish(journal, journal)[..k], disk, state);
    SoundAtEnd(p, disk, n);
    PendingPublishIsOpen(journal, j, disk, state, k);
    PublishTailIsLawful(journal, j, disk, state, k);
    if RevisionIn(disk, intent.digest.item) != Some(intent.digest.candidate) {
      UnheldIsSettled(p, disk, intent);
    }
  }

  lemma {:induction false} PublishPhaseIsSound(journal: seq<Entry>, j: seq<Entry>, disk: Tree, state: ClaimState, n: nat, k: nat)
    requires LawfulJournal(journal) && LawfulJournal(j) && Neutral(journal, j) && NoneOvertaken(journal, state)
    requires n <= |j| && SoundFrom(j, disk, n) && k <= |PendingPublish(journal, journal)|
    ensures SoundFrom(j + PublishTail(j, PendingPublish(journal, journal)[..k], disk, state), disk, n)
  {
    var pending := PendingPublish(journal, journal);
    if k == 0 {
      AddNothing(j);
    } else {
      PublishPhaseIsSound(journal, j, disk, state, n, k - 1);
      TakeTake(pending, k, k - 1);
      PublishResolutionIsSound(journal, j, disk, state, n, k - 1);
    }
  }

  lemma PublishResolutionIsSound(journal: seq<Entry>, j: seq<Entry>, disk: Tree, state: ClaimState, n: nat, k: nat)
    requires LawfulJournal(journal) && LawfulJournal(j) && Neutral(journal, j) && NoneOvertaken(journal, state)
    requires n <= |j| && k < |PendingPublish(journal, journal)|
    requires SoundFrom(j + PublishTail(j, PendingPublish(journal, journal)[..k], disk, state), disk, n)
    ensures var before := PublishTail(j, PendingPublish(journal, journal)[..k], disk, state);
            SoundFrom(j + (before + [RecoveredFinal(j + before, PendingPublish(journal, journal)[k], disk, state)]), disk, n)
  {
    var before := PublishTail(j, PendingPublish(journal, journal)[..k], disk, state);
    var final := RecoveredFinal(j + before, PendingPublish(journal, journal)[k], disk, state);
    PublishResolutionOwes(journal, j, disk, state, n, k);
    RecoveryIsLawful(journal, j, disk, state, k);
    PublishTailIsLawful(journal, j, disk, state, k);
    Extend(j + before, disk, n, final);
    Assoc(j, before, [final]);
  }

  lemma {:induction false} FinalizePhaseIsSound(j: seq<Entry>, head: Tree, disk: Tree, n: nat, k: nat)
    requires LawfulJournal(j) && n <= |j| && SoundFrom(j, disk, n) && k <= |j|
    ensures SoundFrom(j + FinalizationTail(j, j[..k], head), disk, n)
  {
    if k == 0 {
      assert j + [] == j;
    } else {
      FinalizePhaseIsSound(j, head, disk, n, k - 1);
      assert j[..k][..k - 1] == j[..k - 1];
      var before := FinalizationTail(j, j[..k - 1], head);
      FinalizationTailIsLawful(j, head, k - 1);
      if Finalizable(j + before, j[k - 1], head) {
        FinalizationOwes(j, before, head, disk, n, k - 1);
      } else {
        assert before + [] == before;
      }
    }
  }

  lemma FinalizationOwes(j: seq<Entry>, before: seq<Entry>, head: Tree, disk: Tree, n: nat, k: nat)
    requires k < |j| && n <= |j| && LawfulJournal(j + before) && SoundFrom(j + before, disk, n)
    requires Finalizable(j + before, j[k], head)
    ensures SoundFrom(j + (before + [FinalizationOf(j[k])]), disk, n)
  {
    assert (j + before)[k] == j[k];
    Extend(j + before, disk, n, FinalizationOf(j[k]));
    Assoc(j, before, [FinalizationOf(j[k])]);
  }

  lemma OpenFencesAreCurrent(journal: seq<Entry>, env: Env)
    requires LawfulJournal(journal)
    ensures NoneOvertaken(journal, ReconciledState(journal, env))
  {
    forall e | OpenPublish(journal, e) ensures !HigherEpoch(ReconciledState(journal, env), e.digest) {
      OpenFenceIsCurrent(journal, e);
    }
  }

  lemma ClockIsSound(journal: seq<Entry>, disk: Tree, env: Env)
    requires LawfulJournal(journal) && Sound(journal, disk)
    ensures LawfulJournal(AfterClock(journal, env))
    ensures SoundFrom(AfterClock(journal, env), disk, |journal|)
  {
    assert SoundFrom(journal, disk, |journal|) by { assert journal[..|journal|] == journal; }
    Extend(journal, disk, |journal|, Clock(env.now, ObservedAt(journal, env.now)));
  }

  lemma AfterLegacyIsSound(journal: seq<Entry>, disk: Tree, env: Env)
    requires LawfulJournal(journal) && Sound(journal, disk)
    ensures SoundFrom(AfterLegacy(journal, disk, env), disk, |journal|)
  {
    var j := AfterClock(journal, env);
    ClockIsSound(journal, disk, env);
    LegacyPhaseIsSound(j, disk, ObservedAt(journal, env.now), |journal|, |PendingLegacy(j, j)|);
    assert PendingLegacy(j, j)[..|PendingLegacy(j, j)|] == PendingLegacy(j, j);
  }

  lemma AfterPublishIsSound(journal: seq<Entry>, disk: Tree, env: Env)
    requires LawfulJournal(journal) && Sound(journal, disk)
    ensures SoundFrom(AfterPublish(journal, disk, env), disk, |journal|)
  {
    AfterLegacyIsSound(journal, disk, env);
    AfterLegacyIsLawful(journal, disk, env);
    OpenFencesAreCurrent(journal, env);
    var pending := PendingPublish(journal, journal);
    PublishPhaseIsSound(journal, AfterLegacy(journal, disk, env), disk, ReconciledState(journal, env), |journal|, |pending|);
    assert pending[..|pending|] == pending;
  }

  /** A reconciliation keeps soundness at every one of its appends. */
  lemma ReconcileIsSound(journal: seq<Entry>, disk: Tree, head: Option<Tree>, env: Env)
    requires LawfulJournal(journal) && Sound(journal, disk)
    ensures SoundFrom(AfterReconcile(journal, disk, head, env), disk, |journal|)
  {
    AfterPublishIsSound(journal, disk, env);
    AfterPublishIsLawful(journal, disk, env);
    if head.Some? {
      var j := AfterPublish(journal, disk, env);
      JournalKept(journal, disk, env);
      FinalizePhaseIsSound(j, head.value, disk, |journal|, |j|);
      assert j[..|j|] == j;
    }
  }

  lemma JournalKept(journal: seq<Entry>, disk: Tree, env: Env)
    ensures |journal| <= |AfterPublish(journal, disk, env)|
  {
  }

  // ----- what recovery achieves -----

  /** After a completed reconciliation of a sound world nothing is open and
      every item with a ruling holds its latest authorized revision. */
  lemma ReconcileSettles(journal: seq<Entry>, disk: Tree, head: Option<Tree>, env: Env)
    requires LawfulJournal(journal) && Sound(journal, disk)
    ensures var r := AfterReconcile(journal, disk, head, env);
            Sound(r, disk) && NoOpenPublish(r) && NoOpenLegacy(r)
            && forall item :: SettledOn(r, disk, item)
  {
    var r := AfterReconcile(journal, disk, head, env);
    ReconcileIsSound(journal, disk, head, env);
    var tail := ReconcileOpensNothing(journal, disk, head, env);
    SoundAtEnd(r, disk, |journal|);
    ReconcileClosesAllPublish(journal, disk, head, env);
    SoundClosesLegacy(journal, disk, head, env);
    NothingOpenSettles(r, disk);
  }

  lemma SoundClosesLegacy(journal: seq<Entry>, disk: Tree, head: Option<Tree>, env: Env)
    requires Near(AfterReconcile(journal, disk, head, env), disk)
    ensures NoOpenLegacy(AfterReconcile(journal, disk, head, env))
  {
    var r := AfterReconcile(journal, disk, head, env);
    forall i | 0 <= i < |r| && r[i].LegacyIntent? ensures HasLegacyTerminal(r, r[i].attempt) {
      if !HasLegacyTerminal(r, r[i].attempt) {
        ReconcileLeavesThirdRevisions(journal, disk, head, env, r[i]);
      }
    }
  }

  lemma NothingOpenSettles(r: seq<Entry>, disk: Tree)
    requires Sound(r, disk) && NoOpenPublish(r) && NoOpenLegacy(r)
    ensures forall item :: SettledOn(r, disk, item)
  {
    assert forall e :: !Open(r, e);
  }

  // ----- every effect of every step keeps the world sound -----

  ghost predicate SoundWorld(w: World) {
    LawfulJournal(w.journal) && Sound(w.journal, w.disk)
  }

  /** Sound after every prefix of the effects. */
  ghost predicate SoundThrough(w: World, es: seq<Effect>) {
    forall n :: 0 <= n <= |es| ==> SoundWorld(ApplyAll(w, es[..n]))
  }

  lemma ThroughConcat(w: World, a: seq<Effect>, b: seq<Effect>)
    requires SoundThrough(w, a) && SoundThrough(ApplyAll(w, a), b)
    ensures SoundThrough(w, a + b)
  {
    forall n | 0 <= n <= |a + b| ensures SoundWorld(ApplyAll(w, (a + b)[..n])) {
      if n <= |a| {
        assert (a + b)[..n] == a[..n];
      } else {
        assert (a + b)[..n] == a + b[..n - |a|];
        ApplyConcat(w, a, b[..n - |a|]);
      }
    }
  }

  lemma ThroughNone(w: World)
    requires SoundWorld(w)
    ensures SoundThrough(w, [])
  {
  }

  lemma ThroughOne(w: World, e: Effect)
    requires SoundWorld(w) && SoundWorld(Apply(w, e))
    ensures SoundThrough(w, [e])
  {
    ApplyOne(w, e);
    forall n | 0 <= n <= 1 ensures SoundWorld(ApplyAll(w, [e][..n])) {
      if n == 0 { assert [e][..n] == []; } else { assert [e][..n] == [e]; }
    }
  }

  lemma ThroughAppend(w: World, e: Entry)
    requires SoundWorld(w) && LawfulEntry(w.journal, e) && OwesDisk(w.journal, w.disk, e)
    ensures SoundThrough(w, [Append(e)]) && SoundWorld(Apply(w, Append(e)))
  {
    SoundAppend(w.journal, w.disk, e);
    LawfulAppend(w.journal, e);
    ThroughOne(w, Append(e));
  }

  lemma {:induction false} AppendsPrefix(entries: seq<Entry>, n: nat)
    requires n <= |entries|
    ensures n <= |Appends(entries)| && Appends(entries)[..n] == Appends(entries[..n])
  {
    AppendsLength(entries);
    AppendsLength(entries[..n]);
  }

  lemma ThroughReconcile(w: World, env: Env)
    requires SoundWorld(w)
    ensures SoundThrough(w, ReconcileEffects(w, env))
  {
    var added := ReconcileExtends(w, env);
    CaughtIsLawful(w, env);
    ReconcileIsSound(w.journal, w.disk, w.head, env);
    AppendsLength(added);
    forall n | 0 <= n <= |added| ensures SoundWorld(ApplyAll(w, Appends(added)[..n])) {
      AppendsPrefix(added, n);
      ReconcilePrefix(w, env, added, n);
    }
  }

  lemma TakeIntoTail(j: seq<Entry>, added: seq<Entry>, n: nat)
    requires n <= |added|
    ensures (j + added)[..|j| + n] == j + added[..n]
  {
  }

  lemma ReconcilePrefix(w: World, env: Env, added: seq<Entry>, n: nat)
    requires Caught(w, env) == w.journal + added && n <= |added|
    requires LawfulJournal(Caught(w, env)) && SoundFrom(Caught(w, env), w.disk, |w.journal|)
    ensures SoundWorld(ApplyAll(w, Appends(added[..n])))
  {
    ApplyAppends(w, added[..n]);
    TakeIntoTail(w.journal, added, n);
    LawfulPrefix(Caught(w, env), w.journal + added[..n]);
  }

  /** The settled world every command meets after reconciling. */
  ghost predicate SettledWorld(w: World) {
    && SoundWorld(w)
    && NoOpenPublish(w.journal) && NoOpenLegacy(w.journal)
    && forall item :: SettledOn(w.journal, w.disk, item)
  }

  lemma CaughtIsSettled(w: World, env: Env)
    requires SoundWorld(w)
    ensures SettledWorld(w.(journal := Caught(w, env)))
  {
    CaughtIsLawful(w, env);
    ReconcileSettles(w.journal, w.disk, w.head, env);
  }

  lemma ThroughRest(w: World, env: Env, rest: seq<Effect>)
    requires SoundWorld(w) && SoundThrough(w.(journal := Caught(w, env)), rest)
    ensures SoundThrough(w, ReconcileEffects(w, env) + rest)
  {
    ThroughReconcile(w, env);
    ReconcileApplies(w, env);
    ThroughConcat(w, ReconcileEffects(w, env), rest);
  }

  lemma SettledAfterIntent(j: seq<Entry>, disk: Tree, intent: Entry, item: ItemId)
    requires IsIntent(intent) && SettledOn(j, disk, item)
    ensures SettledOn(j + [intent], disk, item)
  {
    LatestAppend(j, intent, item);
  }

  lemma FreshIntentIsOpen(j: seq<Entry>, intent: Entry)
    requires IsIntent(intent)
    requires intent.LegacyIntent? ==> !HasLegacyTerminal(j, intent.attempt)
    requires intent.PublishIntent? ==> !HasFinalOp(j, intent.digest.op)
    ensures Open(j + [intent], intent)
  {
  }

  /** The terminal says what the write did to the intent's item, or the write
      left the item's ruling true. */
  ghost predicate Truthful(j: seq<Entry>, intent: Entry, write: Attempted, e: Entry)
    requires IsIntent(intent)
  {
    && (IsLegacyTerminal(e) || e.PublishFinal?)
    && e.item == IntentItem(intent)
    && (if IsAuthorization(e) then write.applied && AuthorizedRevision(e) == IntentCandidate(intent)
        else write.applied ==> LatestAuthorized(j, e.item) in {None, Some(IntentCandidate(intent))})
  }

  /** Intent, optional write, optional terminal, from a settled world. */
  lemma ThroughFence(w: World, intent: Entry, write: Attempted, terminal: seq<Effect>)
    requires SettledWorld(w) && IsIntent(intent)
    requires LawfulEntry(w.journal, intent) && OwesDisk(w.journal, w.disk, intent)
    requires Open(w.journal + [intent], intent)
    requires terminal == [] || exists e :: terminal == [Append(e)] && LawfulEntry(w.journal + [intent], e)
                                           && Truthful(w.journal, intent, write, e)
    ensures SoundThrough(w, [Append(intent)] + WriteEffect(write, IntentItem(intent), IntentCandidate(intent)) + terminal)
  {
    var item, candidate := IntentItem(intent), IntentCandidate(intent);
    ThroughAppend(w, intent);
    ApplyOne(w, Append(intent));
    var w1 := w.(journal := w.journal + [intent]);
    var w2 := ApplyAll(w1, WriteEffect(write, item, candidate));
    ApplyWrite(w1, write, item, candidate);
    ThroughWrite(w1, intent, write);
    ThroughConcat(w, [Append(intent)], WriteEffect(write, item, candidate));
    ApplyConcat(w, [Append(intent)], WriteEffect(write, item, candidate));
    SettledAfterIntent(w.journal, w.disk, intent, item);
    LatestAppend(w.journal, intent, item);
    if terminal == [] {
      ThroughNone(w2);
    } else {
      ThroughAppend(w2, terminal[0].entry);
    }
    ThroughConcat(w, [Append(intent)] + WriteEffect(write, item, candidate), terminal);
  }

  lemma ThroughWrite(w: World, intent: Entry, write: Attempted)
    requires SoundWorld(w) && Open(w.journal, intent)
    ensures SoundThrough(w, WriteEffect(write, IntentItem(intent), IntentCandidate(intent)))
    ensures SoundWorld(ApplyAll(w, WriteEffect(write, IntentItem(intent), IntentCandidate(intent))))
  {
    if write.applied {
      SoundWrite(w.journal, w.disk, intent);
      ThroughOne(w, Write(IntentItem(intent), IntentCandidate(intent)));
      ApplyOne(w, Write(IntentItem(intent), IntentCandidate(intent)));
    } else {
      ThroughNone(w);
    }
  }

  lemma ThroughAdmitted(w: World, r: Reconciled, env: Env, item: ItemId, command: Command, a: Authorization, write: Attempted)
    requires SettledWorld(w) && Possible(write, RevisionIn(w.disk, item), RevisionIn(w.disk, item))
    requires !HasLegacyIntent(w.journal, a.attempt) && !HasLegacyTerminal(w.journal, a.attempt)
    requires LegacyFree(w.journal, item, command) && Replay(w.journal).floor == Some(r.observedAt)
    ensures var expected := RevisionIn(w.disk, item);
            SoundThrough(w,
              [Append(MutationIntent(r, env, item, command, expected, a))]
              + WriteEffect(write, item, a.candidate)
              + MutationTerminal(r, env, item, command, expected, a, write.report))
  {
    var expected := RevisionIn(w.disk, item);
    var intent := MutationIntent(r, env, item, command, expected, a);
    var terminal := MutationTerminal(r, env, item, command, expected, a, write.report);
    FreshIntentIsOpen(w.journal, intent);
    if terminal != [] {
      TerminalOfFreshIntent(w.journal, intent, terminal[0].entry);
      assert terminal == [Append(terminal[0].entry)];
    }
    ThroughFence(w, intent, write, terminal);
  }

  lemma ThroughAccepted(w: World, env: Env, request: PublishRequest, write: Attempted, at: Instant)
    requires SettledWorld(w) && !HasFinalOp(w.journal, request.op)
    requires FenceHolds(w.journal, request) && Replay(w.journal).floor == Some(at)
    requires Possible(write, Some(request.expected), RevisionIn(w.disk, request.item))
    requires write == Attempted(true, CouldNotTell) ==>
               LatestAuthorized(w.journal, request.item) in {None, Some(request.candidate)}
    ensures var outcome := ReportedOutcome(request, write.report);
            SoundThrough(w,
              [Append(PublishIntent(request, at, env.writer))]
              + WriteEffect(write, request.item, request.candidate)
              + (if outcome.Some? then [Append(FinalFor(env, request, outcome.value))] else []))
  {
    NoIntentWithoutFinal(w.journal, request.op);
    var intent := PublishIntent(request, at, env.writer);
    var outcome := ReportedOutcome(request, write.report);
    var terminal := if outcome.Some? then [Append(FinalFor(env, request, outcome.value))] else [];
    FreshIntentIsOpen(w.journal, intent);
    if outcome.Some? {
      FinalOfFreshIntent(w.journal, intent, FinalFor(env, request, outcome.value));
    }
    ThroughFence(w, intent, write, terminal);
  }

  lemma ThroughRefusal(w: World, env: Env, request: PublishRequest, reason: RejectReason)
    requires SettledWorld(w) && !HasFinalOp(w.journal, request.op)
    ensures SoundThrough(w, [Append(FinalFor(env, request, Rejected(reason)))])
  {
    NoIntentWithoutFinal(w.journal, request.op);
    ThroughAppend(w, FinalFor(env, request, Rejected(reason)));
  }

  lemma ThroughMutate(w: World, env: Env, item: ItemId, command: Command, authorized: Option<Authorization>, write: Attempted)
    requires SoundWorld(w) && Admissible(w, Mutate(env, item, command, authorized, write))
    ensures SoundThrough(w, MutateEffects(w, env, item, command, authorized, write))
  {
    var r := ReconcileIn(w, env);
    var w1 := w.(journal := Caught(w, env));
    CaughtIsSettled(w, env);
    if !MutationAdmitted(r, item, command) || authorized.None? {
      ThroughNone(w1);
      ThroughRest(w, env, []);
    } else {
      var a := authorized.value;
      var expected := RevisionIn(w.disk, item);
      FreshAfterReconcile(w, env, a.attempt);
      AdmittedIsFree(w, env, item, command);
      ThroughAdmitted(w1, r, env, item, command, a, write);
      ThroughRest(w, env,
        [Append(MutationIntent(r, env, item, command, expected, a))]
        + WriteEffect(write, item, a.candidate)
        + MutationTerminal(r, env, item, command, expected, a, write.report));
    }
  }

  lemma ThroughFenced(w: World, env: Env, request: PublishRequest, write: Attempted)
    requires SoundWorld(w) && request.ns == NAMESPACE && !HasFinalOp(Caught(w, env), request.op)
    requires Possible(write, Some(request.expected), RevisionIn(w.disk, request.item))
    requires FenceRejection(request, RecordOf(ReconciledState(w.journal, env), request.item).active,
                            ObservedAt(w.journal, env.now)).None? && write == Attempted(true, CouldNotTell)
             ==> LandsOnRuling(w, env, request)
    ensures SoundThrough(w.(journal := Caught(w, env)), FencedEffects(ReconcileIn(w, env), env, request, write))
  {
    var w1 := w.(journal := Caught(w, env));
    var at := ObservedAt(w.journal, env.now);
    CaughtIsSettled(w, env);
    var rejection := FenceRejection(request, RecordOf(ReconciledState(w.journal, env), request.item).active, at);
    if rejection.Some? {
      ThroughRefusal(w1, env, request, rejection.value);
    } else {
      AcceptedFenceHolds(w, env, request);
      ThroughAccepted(w1, env, request, write, at);
    }
  }

  lemma ThroughPublish(w: World, env: Env, request: PublishRequest, valid: bool, write: Attempted)
    requires SoundWorld(w) && Admissible(w, Publish(env, request, valid, write))
    requires InProtocol(w, Publish(env, request, valid, write))
    ensures SoundThrough(w, PublishEffects(w, env, request, valid, write))
  {
    if request.ns != NAMESPACE || HasFinalOp(w.journal, request.op) {
      ThroughNone(w);
    } else {
      var r := ReconcileIn(w, env);
      CaughtIsSettled(w, env);
      if r.unsafe || HasFinalOp(Caught(w, env), request.op) || !valid || request.item !in w.disk {
        ThroughNone(w.(journal := Caught(w, env)));
        ThroughRest(w, env, []);
      } else {
        ThroughFenced(w, env, request, write);
        ThroughRest(w, env, FencedEffects(r, env, request, write));
      }
    }
  }

  lemma ThroughClaim(w: World, env: Env, request: Request)
    requires SoundWorld(w) && !request.Read?
    ensures SoundThrough(w, ClaimEffects(w, env, request))
  {
    var r := ReconcileIn(w, env);
    var w1 := w.(journal := Caught(w, env));
    CaughtIsSettled(w, env);
    ThroughNone(w1);
    ThroughAppend(w1, Claim(request, env.now));
    ThroughRest(w, env, if r.unsafe && !request.Release? then [] else [Append(Claim(request, env.now))]);
  }

  lemma ThroughAdopt(w: World, env: Env, item: ItemId, from: Revision, to: Revision, valid: bool)
    requires SoundWorld(w)
    ensures SoundThrough(w, AdoptEffects(w, env, item, from, to, valid))
  {
    var r := ReconcileIn(w, env);
    var w1 := w.(journal := Caught(w, env));
    var allowed := from != to && AdoptionAllowed(w, r, item, from, to, valid);
    CaughtIsSettled(w, env);
    ThroughNone(w1);
    if allowed {
      ThroughAppend(w1, Adoption(item, from, to, r.observedAt));
    }
    ThroughRest(w, env, if allowed then [Append(Adoption(item, from, to, r.observedAt))] else []);
  }

  lemma ThroughStep(w: World, step: Step)
    requires SoundWorld(w) && Admissible(w, step) && InProtocol(w, step)
    ensures SoundThrough(w, Effects(w, step))
  {
    match step
    case Verify(env) => ThroughReconcile(w, env);
    case ClaimCommand(env, request) => ThroughClaim(w, env, request);
    case Adopt(env, item, from, to, valid) => ThroughAdopt(w, env, item, from, to, valid);
    case Mutate(env, item, command, authorized, write) => ThroughMutate(w, env, item, command, authorized, write);
    case Publish(env, request, valid, write) => ThroughPublish(w, env, request, valid, write);
    case Repair(effects) =>
      assert effects[..|effects|] == effects;
      ThroughRepair(w, effects, |effects|);
    case Edit(item, bytes) => ThroughEdit(w, item, bytes);
    case MoveHead(head) => ThroughOne(w, SetHead(head));
  }

  // ----- edits and repairs of items without a ruling -----

  /** Soundness asks nothing of an unruled item. */
  lemma SoundElsewhere(j: seq<Entry>, disk: Tree, after: Tree, item: ItemId)
    requires Sound(j, disk) && Unruled(j, item)
    requires forall other :: other != item ==> RevisionIn(after, other) == RevisionIn(disk, other)
    ensures Sound(j, after)
  {
    forall other ensures SettledOn(j, after, other) || Held(j, after, other) {
      if !SettledOn(j, after, other) {
        assert Held(j, disk, other);
        var e :| Open(j, e) && IntentItem(e) == other && RevisionIn(disk, other) == Some(IntentCandidate(e));
        assert RevisionIn(after, other) == Some(IntentCandidate(e));
      }
    }
  }

  lemma ThroughEdit(w: World, item: ItemId, bytes: Option<Revision>)
    requires SoundWorld(w) && Unruled(w.journal, item)
    ensures SoundThrough(w, Effects(w, Edit(item, bytes)))
  {
    var e := Effects(w, Edit(item, bytes))[0];
    SoundElsewhere(w.journal, w.disk, Apply(w, e).disk, item);
    ThroughOne(w, e);
  }

  lemma {:induction false} ThroughRepair(w: World, es: seq<Effect>, n: nat)
    requires SoundWorld(w) && n <= |es|
    requires forall i :: 0 <= i < |es| ==> IsRepairEffect(es[i]) && (es[i].Write? ==> Unruled(w.journal, es[i].item))
    ensures SoundThrough(w, es[..n])
    ensures SoundWorld(ApplyAll(w, es[..n]))
    ensures forall item :: Unruled(w.journal, item) ==> Unruled(ApplyAll(w, es[..n]).journal, item)
  {
    if n == 0 {
      ThroughNone(w);
    } else {
      var k := n - 1;
      ThroughRepair(w, es, k);
      assert es[..n] == es[..k] + [es[k]];
      RepairEffectIsSound(ApplyAll(w, es[..k]), es[k]);
      ThroughConcat(w, es[..k], [es[k]]);
      ApplyConcat(w, es[..k], [es[k]]);
      ApplyOne(ApplyAll(w, es[..k]), es[k]);
    }
  }

  lemma RepairEffectIsSound(w: World, e: Effect)
    requires SoundWorld(w) && IsRepairEffect(e) && (e.Write? ==> Unruled(w.journal, e.item))
    ensures SoundThrough(w, [e]) && SoundWorld(Apply(w, e))
    ensures forall item :: Unruled(w.journal, item) ==> Unruled(Apply(w, e).journal, item)
  {
    if e.Write? {
      SoundElsewhere(w.journal, w.disk, w.disk[e.item := e.revision], e.item);
      ThroughOne(w, e);
    } else {
      ThroughAppend(w, e.entry);
      forall item | Unruled(w.journal, item) ensures Unruled(w.journal + [e.entry], item) {
        RepairEntryRulesNothing(w.journal, e.entry, item);
      }
    }
  }

  lemma RepairEntryRulesNothing(j: seq<Entry>, e: Entry, item: ItemId)
    requires Unruled(j, item) && (e.RepairIntent? || e.RepairFinal?)
    ensures Unruled(j + [e], item)
  {
    LatestAppend(j, e, item);
    forall open | OpenLegacy(j + [e], open) ensures open.item != item {
      OpenEarlier(j, e, open);
    }
  }

  // ----- runs -----

  lemma StepKeepsSound(w: World, a: Action)
    requires SoundWorld(w) && Admissible(w, a.step) && InProtocol(w, a.step)
    ensures SoundWorld(Perform(w, a))
  {
    ThroughStep(w, a.step);
    var es := Effects(w, a.step);
    assert es[..|es|] == es;
  }

  lemma SamePlace(w: World, short: seq<Action>, long: seq<Action>, i: nat)
    requires short <= long && i < |short|
    ensures InProtocolAt(w, short, i) <==> InProtocolAt(w, long, i)
  {
    assert short[..i] == long[..i];
  }

  lemma InProtocolInit(w: World, actions: seq<Action>)
    requires actions != [] && InProtocolRun(w, actions)
    ensures InProtocolRun(w, actions[..|actions| - 1])
    ensures InProtocolAt(w, actions, |actions| - 1)
  {
    var init := actions[..|actions| - 1];
    forall i | 0 <= i < |init| ensures InProtocolAt(w, init, i) {
      SamePlace(w, init, actions, i);
    }
  }

  lemma InProtocolSnoc(w: World, actions: seq<Action>, a: Action)
    requires InProtocolRun(w, actions) && InProtocol(Run(w, actions), a.step)
    ensures InProtocolRun(w, actions + [a])
  {
    var all := actions + [a];
    forall i | 0 <= i < |all| ensures InProtocolAt(w, all, i) {
      if i < |actions| {
        SamePlace(w, actions, all, i);
      } else {
        assert all[..i] == actions;
      }
    }
  }

  /** Every world of an in-protocol run is sound, wherever its invocations died. */
  lemma {:induction false} ReachableIsSound(w: World, actions: seq<Action>)
    requires w.journal == [] && Lawful(w, actions)
    requires InProtocolRun(w, actions)
    ensures SoundWorld(Run(w, actions))
  {
    if actions == [] {
      assert forall item :: LatestAuthorized(w.journal, item) == None;
    } else {
      var k := |actions| - 1;
      LawfulInit(w, actions);
      InProtocolInit(w, actions);
      ReachableIsSound(w, actions[..k]);
      StepKeepsSound(Run(w, actions[..k]), actions[k]);
    }
  }

  // ----- crash-exact recovery -----

  /** After any in-protocol run, crashed anywhere, the next reconciliation
      leaves nothing open and every item with a ruling at its latest authorized
      revision. */
  lemma RecoverySettlesEverything(w: World, actions: seq<Action>, env: Env, item: ItemId)
    requires w.journal == [] && Lawful(w, actions)
    requires InProtocolRun(w, actions)
    ensures var after := Run(w, actions);
            var r := Caught(after, env);
            && NoOpenPublish(r) && NoOpenLegacy(r)
            && SettledOn(r, after.disk, item)
  {
    ReachableIsSound(w, actions);
    CaughtIsSettled(Run(w, actions), env);
  }

  /** How one open legacy mutation is closed: by exactly one terminal, which is
      a commit exactly when the disk holds the candidate, else an abort. */
  lemma LegacyClosedExactly(w: World, env: Env, intent: Entry) returns (t: nat)
    requires SoundWorld(w) && OpenLegacy(w.journal, intent)
    ensures var r := Caught(w, env);
            && |w.journal| <= t < |r| && IsLegacyTerminal(r[t]) && r[t].attempt == intent.attempt
            && (r[t].LegacyMutation? <==> RevisionIn(w.disk, intent.item) == Some(intent.candidate))
            && (forall u :: 0 <= u < |r| && IsLegacyTerminal(r[u]) && r[u].attempt == intent.attempt ==> u == t)
  {
    var r := Caught(w, env);
    CaughtIsSettled(w, env);
    var added := CaughtExtends(w, env);
    var a :| 0 <= a < |w.journal| && w.journal[a] == intent;
    assert r[a] == intent;
    var q :| 0 <= q < |r| && IsLegacyTerminal(r[q]) && r[q].attempt == intent.attempt;
    t := q;
    forall u | 0 <= u < |r| && IsLegacyTerminal(r[u]) && r[u].attempt == intent.attempt ensures u == t {
      if u < t { OneTerminal(r, u, t); } else if t < u { OneTerminal(r, t, u); }
    }
    LegacyTerminalIsExact(w, env, intent, t);
  }

  lemma LegacyTerminalIsExact(w: World, env: Env, intent: Entry, t: nat)
    requires SoundWorld(w) && OpenLegacy(w.journal, intent)
    requires |w.journal| <= t < |Caught(w, env)|
    requires IsLegacyTerminal(Caught(w, env)[t]) && Caught(w, env)[t].attempt == intent.attempt
    ensures Caught(w, env)[t].LegacyMutation? <==> RevisionIn(w.disk, intent.item) == Some(intent.candidate)
  {
    TerminalFromLegacyTail(w, env, t);
    TailTerminalIsExact(w, env, intent, Caught(w, env)[t]);
  }

  lemma TailTerminalIsExact(w: World, env: Env, intent: Entry, e: Entry)
    requires LawfulJournal(w.journal) && OpenLegacy(w.journal, intent) && IsLegacyTerminal(e) && e.attempt == intent.attempt
    requires var j := AfterClock(w.journal, env);
             e in LegacyTail(PendingLegacy(j, j), w.disk, ObservedAt(w.journal, env.now))
    ensures e.LegacyMutation? <==> RevisionIn(w.disk, intent.item) == Some(intent.candidate)
  {
    var j := AfterClock(w.journal, env);
    var p := ResolvedFrom(PendingLegacy(j, j), w.disk, ObservedAt(w.journal, env.now), e);
    CommitsExactly(p, w.disk, ObservedAt(w.journal, env.now), e);
    PendingAttemptIsIntent(w, env, p, intent);
  }

  lemma CommitsExactly(intent: Entry, disk: Tree, at: Instant, e: Entry)
    requires intent.LegacyIntent? && ResolveLegacy(intent, disk, at) == Some(e)
    ensures e.LegacyMutation? <==> RevisionIn(disk, intent.item) == Some(intent.candidate)
  {
  }

  lemma PendingAttemptIsIntent(w: World, env: Env, p: Entry, intent: Entry)
    requires LawfulJournal(w.journal) && OpenLegacy(w.journal, intent)
    requires p in AfterClock(w.journal, env) && p.LegacyIntent? && p.attempt == intent.attempt
    ensures p == intent
  {
    assert p in w.journal;
    var a :| 0 <= a < |w.journal| && w.journal[a] == intent;
    var b :| 0 <= b < |w.journal| && w.journal[b] == p;
    if a < b { OneTerminal(w.journal, a, b); } else if b < a { OneTerminal(w.journal, b, a); }
  }

  lemma InOneOf(j: seq<Entry>, c: Entry, t1: seq<Entry>, t2: seq<Entry>, t3: seq<Entry>, t: nat)
    requires |j| <= t < |j + [c] + t1 + t2 + t3|
    ensures var e := (j + [c] + t1 + t2 + t3)[t]; e == c || e in t1 || e in t2 || e in t3
  {
    var a := j + [c];
    if t >= |a + t1 + t2| {
      assert (a + t1 + t2 + t3)[t] == t3[t - |a + t1 + t2|];
    } else if t >= |a + t1| {
      assert (a + t1 + t2 + t3)[t] == t2[t - |a + t1|];
    } else if t >= |a| {
      assert (a + t1 + t2 + t3)[t] == t1[t - |a|];
    }
  }

  /** The only legacy terminals a reconciliation appends are its legacy tail. */
  lemma TerminalFromLegacyTail(w: World, env: Env, t: nat)
    requires |w.journal| <= t < |Caught(w, env)| && IsLegacyTerminal(Caught(w, env)[t])
    ensures var j := AfterClock(w.journal, env);
            Caught(w, env)[t] in LegacyTail(PendingLegacy(j, j), w.disk, ObservedAt(w.journal, env.now))
  {
    var t1, t2, t3 := CaughtPhases(w, env);
    InOneOf(w.journal, Clock(env.now, ObservedAt(w.journal, env.now)), t1, t2, t3, t);
  }

  /** How one open publication is closed: by exactly one final, committed exactly
      when the disk holds the candidate, and otherwise a revision conflict,
      except that a third revision no publication ever committed is recorded as
      unknown. */
  lemma PublishClosedExactly(w: World, env: Env, intent: Entry) returns (t: nat)
    requires SoundWorld(w) && OpenPublish(w.journal, intent)
    ensures var r := Caught(w, env);
            var actual := RevisionIn(w.disk, intent.digest.item);
            && |w.journal| <= t < |r| && r[t].PublishFinal? && r[t].op == intent.digest.op
            && (forall u :: 0 <= u < |r| && r[u].PublishFinal? && r[u].op == intent.digest.op ==> u == t)
            && (r[t].outcome.Committed? <==> actual == Some(intent.digest.candidate))
            && (r[t].outcome.Unknown? <==>
                  && actual != Some(intent.digest.candidate)
                  && actual != Some(intent.digest.expected)
                  && !CommittedBefore(w.journal, intent.digest.item, actual))
            && (r[t].outcome.Rejected? ==> r[t].outcome.reason == RevisionConflict)
  {
    var r := Caught(w, env);
    CaughtIsLawful(w, env);
    t := FinalOfPending(w, env, intent);
    forall u | 0 <= u < |r| && r[u].PublishFinal? && r[u].op == intent.digest.op ensures u == t {
      if u < t { OneIntentOneFinal(r, u, t); } else if t < u { OneIntentOneFinal(r, t, u); }
    }
  }

  lemma FinalOfPending(w: World, env: Env, intent: Entry) returns (t: nat)
    requires SoundWorld(w) && OpenPublish(w.journal, intent)
    ensures var r := Caught(w, env);
            var actual := RevisionIn(w.disk, intent.digest.item);
            && |w.journal| <= t < |r| && r[t].PublishFinal? && r[t].op == intent.digest.op
            && (r[t].outcome.Committed? <==> actual == Some(intent.digest.candidate))
            && (r[t].outcome.Unknown? <==>
                  && actual != Some(intent.digest.candidate)
                  && actual != Some(intent.digest.expected)
                  && !CommittedBefore(w.journal, intent.digest.item, actual))
            && (r[t].outcome.Rejected? ==> r[t].outcome.reason == RevisionConflict)
  {
    var j := AfterLegacy(w.journal, w.disk, env);
    t := |j|;
    FirstRecovered(w, env, intent);
    OpenFencesAreCurrent(w.journal, env);
    AfterLegacyIsLawful(w.journal, w.disk, env);
    PublishedBeforeNeutral(w.journal, j, intent.digest.item, RevisionIn(w.disk, intent.digest.item));
  }

  /** The final of the one open publication comes right after the legacy phase. */
  lemma FirstRecovered(w: World, env: Env, intent: Entry)
    requires LawfulJournal(w.journal) && OpenPublish(w.journal, intent)
    ensures var j := AfterLegacy(w.journal, w.disk, env);
            && |w.journal| <= |j| < |Caught(w, env)|
            && Caught(w, env)[|j|] == RecoveredFinal(j, intent, w.disk, ReconciledState(w.journal, env))
  {
    var j := AfterLegacy(w.journal, w.disk, env);
    var pending := PendingPublish(w.journal, w.journal);
    var state := ReconciledState(w.journal, env);
    assert intent in pending;
    OnlyPending(w.journal, intent);
    var t2 := PublishPhase(w.journal, w.disk, env);
    var t3 := FinalizePhase(w.journal, w.disk, w.head, env);
    FirstOfTail(j, pending, w.disk, state);
    FirstAfter(j, t2, t3);
  }

  lemma FirstOfTail(j: seq<Entry>, pending: seq<Entry>, disk: Tree, state: ClaimState)
    requires pending != [] && forall i :: 0 <= i < |pending| ==> pending[i].PublishIntent?
    ensures var tail := PublishTail(j, pending, disk, state);
            tail != [] && tail[0] == RecoveredFinal(j, pending[0], disk, state)
  {
    PublishTailShape(j, pending, disk, state);
    assert j + PublishTail(j, pending, disk, state)[..0] == j;
  }

  lemma FirstAfter(j: seq<Entry>, t2: seq<Entry>, t3: seq<Entry>)
    requires t2 != []
    ensures |j| < |j + t2 + t3| && (j + t2 + t3)[|j|] == t2[0]
  {
  }

  lemma OnlyPending(j: seq<Entry>, intent: Entry)
    requires LawfulJournal(j) && OpenPublish(j, intent)
    ensures |PendingPublish(j, j)| >= 1 && PendingPublish(j, j)[0] == intent
  {
    var pending := PendingPublish(j, j);
    assert intent in pending;
    assert pending[0] in pending;
    OpenIsAlone(j, pending[0], intent);
  }

  lemma PublishedBeforeNeutral(journal: seq<Entry>, j: seq<Entry>, item: ItemId, actual: Option<Revision>)
    requires Neutral(journal, j)
    ensures PublishedBefore(j, item, actual) <==> PublishedBefore(journal, item, actual)
  {
    if PublishedBefore(journal, item, actual) {
      var i :| 0 <= i < |journal| && IsCommittedFinal(journal[i]) && journal[i].item == item
               && Some(journal[i].outcome.revision) == actual;
      assert j[i] == journal[i];
    }
    if PublishedBefore(j, item, actual) {
      var i :| 0 <= i < |j| && IsCommittedFinal(j[i]) && j[i].item == item && Some(j[i].outcome.revision) == actual;
      assert i < |journal| && journal[i] == j[i];
    }
  }
}
