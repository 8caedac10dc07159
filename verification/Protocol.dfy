/** The claim protocol as a step system. Every command holds the namespace lock
    while it runs, so a run is a sequence of invocations; an invocation is the
    sequence of durable effects it performs, and a crash (or a failed append)
    keeps any prefix of them.

    The commands are those of src/claim-publication.js (publish, verify,
    adopt), src/claim-coordinator.js (the legacy mutation fence), src/cli.js
    (claim commands) and src/ledger-repair.js (number repair). Coordinator.dfy
    runs them as methods and is proved to perform exactly these effects. */
module Protocol {
  import opened Options
  import opened Leases
  import opened Journal
  import opened Reconciliation

  datatype World = World(journal: seq<Entry>, disk: Tree, head: Option<Tree>)

  datatype Effect =
    | Append(entry: Entry)
    | Write(item: ItemId, revision: Revision)
    | Remove(item: ItemId)
    | SetHead(head: Option<Tree>)

  function Apply(w: World, e: Effect): World {
    match e
    case Append(entry) => w.(journal := w.journal + [entry])
    case Write(item, revision) => w.(disk := w.disk[item := revision])
    case Remove(item) => w.(disk := w.disk - {item})
    case SetHead(head) => w.(head := head)
  }

  function ApplyAll(w: World, es: seq<Effect>): World {
    if es == [] then w
    else Apply(ApplyAll(w, es[..|es| - 1]), es[|es| - 1])
  }

  function Appends(entries: seq<Entry>): seq<Effect> {
    if entries == [] then []
    else Appends(entries[..|entries| - 1]) + [Append(entries[|entries| - 1])]
  }

  // ----- the item write -----

  /** What the write engine reported. A thrown error reaches no terminal. */
  datatype Report = WroteCandidate | FoundConflict | FoundInvalid | CouldNotTell | Threw

  /** `applied` is whether the atomic compare-and-swap took effect. */
  datatype Attempted = Attempted(applied: bool, report: Report)

  /** The reports the engine can make of a compare-and-swap from `expected`. */
  ghost predicate Possible(write: Attempted, expected: Option<Revision>, actual: Option<Revision>) {
    && (write.applied ==> actual == expected)
    && (write.report.WroteCandidate? ==> write.applied)
    && (write.report.FoundConflict? ==> !write.applied && actual != expected)
    && (write.report.FoundInvalid? ==> !write.applied)
  }

  function WriteEffect(write: Attempted, item: ItemId, candidate: Revision): seq<Effect> {
    if write.applied then [Write(item, candidate)] else []
  }

  // ----- the steps -----

  datatype Authorization = Authorization(attempt: AttemptId, candidate: Revision)

  datatype Step =
    | Verify(env: Env)
    | ClaimCommand(env: Env, request: Request)
    | Adopt(env: Env, item: ItemId, from: Revision, to: Revision, ledgerValid: bool)
    | Mutate(env: Env, item: ItemId, command: Command, authorized: Option<Authorization>, write: Attempted)
    | Publish(env: Env, publication: PublishRequest, candidateValid: bool, write: Attempted)
    | Repair(effects: seq<Effect>)
    | Edit(item: ItemId, bytes: Option<Revision>)
    | MoveHead(head: Option<Tree>)

  ghost predicate IsRepairEffect(e: Effect) {
    (e.Append? && (e.entry.RepairIntent? || e.entry.RepairFinal?)) || e.Write?
  }

  function ReconcileIn(w: World, env: Env): Reconciled {
    Reconcile(w.journal, w.disk, w.head, env)
  }

  function ReconcileEffects(w: World, env: Env): seq<Effect> {
    Appends(ReconcileIn(w, env).entries[|w.journal|..])
  }

  /** The claim commands: reconcile, refuse on a barrier unless releasing, then
      journal the command whatever its verdict. */
  function ClaimEffects(w: World, env: Env, request: Request): seq<Effect> {
    var r := ReconcileIn(w, env);
    ReconcileEffects(w, env)
    + (if r.unsafe && !request.Release? then [] else [Append(Claim(request, env.now))])
  }

  predicate LiveClaim(state: ClaimState, item: ItemId, at: Instant) {
    var active := RecordOf(state, item).active;
    active.Some? && at < active.value.expiresAt
  }

  /** The refusals of claim-adopt, in order; none means the adoption is journaled. */
  predicate AdoptionAllowed(w: World, r: Reconciled, item: ItemId, from: Revision, to: Revision, ledgerValid: bool) {
    && LatestAuthorized(r.entries, item) == Some(from)
    && !LiveClaim(r.state, item, r.observedAt)
    && w.head.Some? && RevisionIn(w.head.value, item) == Some(to)
    && RevisionIn(w.disk, item) == Some(to)
    && ledgerValid
  }

  function AdoptEffects(w: World, env: Env, item: ItemId, from: Revision, to: Revision, ledgerValid: bool): seq<Effect> {
    var r := ReconcileIn(w, env);
    ReconcileEffects(w, env)
    + (if from != to && AdoptionAllowed(w, r, item, from, to, ledgerValid)
       then [Append(Adoption(item, from, to, r.observedAt))] else [])
  }

  /** Whether the legacy fence lets the write engine run at all. */
  predicate MutationAdmitted(r: Reconciled, item: ItemId, command: Command) {
    && !r.unsafe
    && (command.CreateV1? ==> r.missing == {} && RecordOf(r.state, item).lastEpoch == 0)
    && (!command.CreateV1? ==> !LiveClaim(r.state, item, r.observedAt))
  }

  function MutationIntent(r: Reconciled, env: Env, item: ItemId, command: Command, expected: Option<Revision>, a: Authorization): Entry {
    LegacyIntent(a.attempt, item, command, expected, a.candidate, env.writer, r.observedAt)
  }

  function MutationTerminal(r: Reconciled, env: Env, item: ItemId, command: Command,
                            expected: Option<Revision>, a: Authorization, report: Report): seq<Effect> {
    match report
    case WroteCandidate => [Append(LegacyMutation(a.attempt, item, command, a.candidate, env.writer, r.observedAt))]
    case FoundConflict => [Append(LegacyAbort(a.attempt, item, command, expected, r.observedAt))]
    case FoundInvalid => [Append(LegacyAbort(a.attempt, item, command, expected, r.observedAt))]
    case _ => []
  }

  /** The legacy fence: intent, item write, terminal. The engine authorizes the
      write against the bytes it just read, so `expected` is what is on disk. */
  function MutateEffects(w: World, env: Env, item: ItemId, command: Command,
                         authorized: Option<Authorization>, write: Attempted): seq<Effect> {
    var r := ReconcileIn(w, env);
    ReconcileEffects(w, env)
    + (if !MutationAdmitted(r, item, command) || authorized.None? then []
       else
         var a := authorized.value;
         var expected := RevisionIn(w.disk, item);
         [Append(MutationIntent(r, env, item, command, expected, a))]
         + WriteEffect(write, item, a.candidate)
         + MutationTerminal(r, env, item, command, expected, a, write.report))
  }

  function FenceRejection(request: PublishRequest, active: Option<Lease>, at: Instant): Option<RejectReason> {
    if request.fence.ns != request.ns then Some(FenceNamespaceMismatch)
    else if request.fence.item != request.item then Some(FenceItemMismatch)
    else if active.None? then Some(NoActiveClaim)
    else if active.value.owner != request.fence.owner then Some(OwnerMismatch)
    else if active.value.epoch != request.fence.epoch then Some(EpochMismatch)
    else if at >= active.value.expiresAt then Some(FenceExpired)
    else None
  }

  function FinalFor(env: Env, request: PublishRequest, outcome: Outcome): Entry {
    PublishFinal(request.op, request, request.item, env.writer, outcome)
  }

  function ReportedOutcome(request: PublishRequest, report: Report): Option<Outcome> {
    match report
    case WroteCandidate => Some(Committed(request.candidate, request.fence))
    case FoundConflict => Some(Rejected(RevisionConflict))
    case FoundInvalid => Some(Rejected(CandidateInvalid))
    case CouldNotTell => Some(Outcome.Unknown)
    case Threw => None
  }

  /** What follows a reconciliation that did not answer the publication. */
  function FencedEffects(r: Reconciled, env: Env, request: PublishRequest, write: Attempted): seq<Effect> {
    var rejection := FenceRejection(request, RecordOf(r.state, request.item).active, r.observedAt);
    if rejection.Some? then [Append(FinalFor(env, request, Rejected(rejection.value)))]
    else
      var outcome := ReportedOutcome(request, write.report);
      [Append(PublishIntent(request, r.observedAt, env.writer))]
      + WriteEffect(write, request.item, request.candidate)
      + (if outcome.Some? then [Append(FinalFor(env, request, outcome.value))] else [])
  }

  /** The claimed publication fence. A prior final answers before anything. */
  function PublishEffects(w: World, env: Env, request: PublishRequest, candidateValid: bool, write: Attempted): seq<Effect> {
    if request.ns != NAMESPACE || HasFinalOp(w.journal, request.op) then []
    else
      var r := ReconcileIn(w, env);
      ReconcileEffects(w, env)
      + (if r.unsafe || HasFinalOp(r.entries, request.op) || !candidateValid || request.item !in w.disk then []
         else FencedEffects(r, env, request, write))
  }

  /** Whether the publication passes every check before its intent. */
  ghost predicate ReachesWrite(w: World, env: Env, request: PublishRequest, candidateValid: bool) {
    var r := ReconcileIn(w, env);
    && request.ns == NAMESPACE && !HasFinalOp(w.journal, request.op)
    && !r.unsafe && !HasFinalOp(r.entries, request.op) && candidateValid && request.item in w.disk
    && FenceRejection(request, RecordOf(r.state, request.item).active, r.observedAt).None?
  }

  function Effects(w: World, step: Step): seq<Effect> {
    match step
    case Verify(env) => ReconcileEffects(w, env)
    case ClaimCommand(env, request) => ClaimEffects(w, env, request)
    case Adopt(env, item, from, to, ledgerValid) => AdoptEffects(w, env, item, from, to, ledgerValid)
    case Mutate(env, item, command, authorized, write) => MutateEffects(w, env, item, command, authorized, write)
    case Publish(env, request, candidateValid, write) => PublishEffects(w, env, request, candidateValid, write)
    case Repair(effects) => effects
    case Edit(item, bytes) => [if bytes.Some? then Write(item, bytes.value) else Remove(item)]
    case MoveHead(head) => [SetHead(head)]
  }

  // ----- runs -----

  /** One invocation, stopped after `kept` of its effects. */
  datatype Action = Action(step: Step, kept: nat)

  function Kept(w: World, a: Action): seq<Effect> {
    var es := Effects(w, a.step);
    if a.kept <= |es| then es[..a.kept] else es
  }

  function Perform(w: World, a: Action): World {
    ApplyAll(w, Kept(w, a))
  }

  /** What the environment owes a step: fresh attempt identities, a write engine
      that reports possible results, and repairs that write only items and their
      own entries. Targets follow the source: a command names its own item. */
  ghost predicate Admissible(w: World, step: Step) {
    match step
    case ClaimCommand(env, request) => env.target == Some(request.item) && !request.Read?
    case Adopt(env, _, _, _, _) => env.target == None
    case Mutate(env, item, command, authorized, write) =>
      && env.target == Some(item)
      && (authorized.Some? ==> !HasLegacyIntent(w.journal, authorized.value.attempt)
                               && (command.CreateV1? <==> item !in w.disk))
      && Possible(write, RevisionIn(w.disk, item), RevisionIn(w.disk, item))
    case Publish(env, request, _, write) =>
      && env.target == Some(request.item)
      && Possible(write, Some(request.expected), RevisionIn(w.disk, request.item))
    case Repair(effects) => forall i :: 0 <= i < |effects| ==> IsRepairEffect(effects[i])
    case _ => true
  }

  /** The worlds a run passes through: `run[i + 1]` performs `actions[i]`. */
  function Run(w: World, actions: seq<Action>): World {
    if actions == [] then w
    else Perform(Run(w, actions[..|actions| - 1]), actions[|actions| - 1])
  }

  ghost predicate Lawful(w: World, actions: seq<Action>) {
    forall i :: 0 <= i < |actions| ==> Admissible(Run(w, actions[..i]), actions[i].step)
  }

  /** One more action of a run. */
  lemma RunSnoc(w: World, actions: seq<Action>, a: Action)
    ensures Run(w, actions + [a]) == Perform(Run(w, actions), a)
    ensures Lawful(w, actions) && Admissible(Run(w, actions), a.step) ==> Lawful(w, actions + [a])
  {
    var all := actions + [a];
    assert all[..|actions|] == actions;
    forall i | 0 <= i < |actions| ensures all[..i] == actions[..i] && all[i] == actions[i] {
    }
  }

  function Initial(disk: Tree, head: Option<Tree>): World {
    World([], disk, head)
  }

  // ----- effects and prefixes -----

  lemma {:induction false} ApplyConcat(w: World, a: seq<Effect>, b: seq<Effect>)
    ensures ApplyAll(w, a + b) == ApplyAll(ApplyAll(w, a), b)
  {
    if b == [] {
      assert a + b == a;
    } else {
      var k := |b| - 1;
      assert (a + b)[..|a + b| - 1] == a + b[..k];
      ApplyConcat(w, a, b[..k]);
    }
  }

  lemma {:induction false} AppendsLength(entries: seq<Entry>)
    ensures |Appends(entries)| == |entries|
    ensures forall i :: 0 <= i < |entries| ==> Appends(entries)[i] == Append(entries[i])
  {
    if entries == [] {
    } else {
      AppendsLength(entries[..|entries| - 1]);
    }
  }

  lemma {:induction false} ApplyAppends(w: World, entries: seq<Entry>)
    ensures ApplyAll(w, Appends(entries)) == w.(journal := w.journal + entries)
  {
    if entries == [] {
      assert w.journal + [] == w.journal;
    } else {
      var k := |entries| - 1;
      ApplyAppends(w, entries[..k]);
      var es := Appends(entries);
      assert es[..|es| - 1] == Appends(entries[..k]);
      assert w.journal + entries == (w.journal + entries[..k]) + [entries[k]];
    }
  }

  /** Effects only ever extend the journal. */
  lemma {:induction false} JournalGrows(w: World, es: seq<Effect>)
    ensures w.journal <= ApplyAll(w, es).journal
  {
    if es == [] {
    } else {
      JournalGrows(w, es[..|es| - 1]);
    }
  }

  lemma PerformGrows(w: World, a: Action)
    ensures w.journal <= Perform(w, a).journal
  {
    JournalGrows(w, Kept(w, a));
  }

  lemma PrefixPerforms(w: World, a: Action) returns (rest: seq<Effect>)
    ensures ApplyAll(Perform(w, a), rest) == ApplyAll(w, Effects(w, a.step))
    ensures Kept(w, a) + rest == Effects(w, a.step)
  {
    var es := Effects(w, a.step);
    rest := es[|Kept(w, a)|..];
    assert Kept(w, a) + rest == es;
    ApplyConcat(w, Kept(w, a), rest);
  }

  lemma ApplyOne(w: World, e: Effect)
    ensures ApplyAll(w, [e]) == Apply(w, e)
  {
    assert ApplyAll(w, [e][..0]) == w;
  }

  /** An action stopped after `n` effects has performed exactly the first `n`: every
      crash point of every command is some action. */
  lemma EveryCrashPoint(w: World, step: Step, n: nat)
    requires n <= |Effects(w, step)|
    ensures Kept(w, Action(step, n)) == Effects(w, step)[..n]
    ensures Perform(w, Action(step, n)) == ApplyAll(w, Effects(w, step)[..n])
  {
    assert Effects(w, step)[..|Effects(w, step)|] == Effects(w, step);
  }

  /** Outside the protocol an edit leaves the item with the bytes it was given, or
      gone, and HEAD moves where it is moved; nothing else changes. */
  lemma OutsideChanges(w: World, item: ItemId, bytes: Option<Revision>, head: Option<Tree>)
    ensures var edited := Perform(w, Action(Edit(item, bytes), 1));
            && edited.journal == w.journal && edited.head == w.head
            && RevisionIn(edited.disk, item) == bytes
            && forall x :: x != item ==> RevisionIn(edited.disk, x) == RevisionIn(w.disk, x)
    ensures Perform(w, Action(MoveHead(head), 1)) == w.(head := head)
  {
    var edit := if bytes.Some? then Write(item, bytes.value) else Remove(item);
    EveryCrashPoint(w, Edit(item, bytes), 1);
    assert [edit][..1] == [edit];
    ApplyOne(w, edit);
    EveryCrashPoint(w, MoveHead(head), 1);
    assert [SetHead(head)][..1] == [SetHead(head)];
    ApplyOne(w, SetHead(head));
  }

  /** A crash keeps a prefix of the journal the whole invocation would write. */
  lemma CrashKeepsPrefix(w: World, a: Action)
    ensures w.journal <= Perform(w, a).journal <= ApplyAll(w, Effects(w, a.step)).journal
  {
    var rest := PrefixPerforms(w, a);
    JournalGrows(w, Kept(w, a));
    JournalGrows(Perform(w, a), rest);
  }
}
