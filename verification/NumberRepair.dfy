/** Duplicate-number repair as it writes: the intent, one atomic replacement per
    named item, and the final of src/ledger-repair.js, with the recovery that
    finishes a repair some earlier call left half published.

    The repairs are the Repair steps of Protocol.dfy; here their effects are
    spelled out. `valid` is the ledger validator and `staged` the candidates
    read back from the staging directory. */
module NumberRepair {
  import opened Options
  import opened Leases
  import opened Journal
  import opened Reconciliation
  import opened Protocol
  import opened Fencing
  import opened Coordinator
  import opened Seqs

  /** One number-repair call. `applicable` is the verdict of everything before its
      intent: the checks, and writing a staging directory that must not exist. */
  datatype RepairCall = RepairCall(
    repair: nat, items: seq<RepairItem>, applicable: bool, staged: map<ItemId, Revision>, at: Instant)

  datatype Obstacle = ItemMissing(item: ItemId) | ThirdRevision(item: ItemId)

  datatype RepairReply = Repaired | NotApplicable | SuccessorInvalid | OutcomeUnknown(obstacle: Option<Obstacle>)

  // ----- what the journal says of a repair -----

  function FindRepairIntent(j: seq<Entry>, repair: nat): (r: Option<Entry>)
    ensures r.Some? ==> r.value.RepairIntent? && r.value.repair == repair && r.value in j
    ensures r.None? ==> forall i :: 0 <= i < |j| ==> !(j[i].RepairIntent? && j[i].repair == repair)
  {
    if j == [] then None
    else if j[0].RepairIntent? && j[0].repair == repair then Some(j[0])
    else FindRepairIntent(j[1..], repair)
  }

  predicate HasRepairFinal(j: seq<Entry>, repair: nat) {
    exists i :: 0 <= i < |j| && j[i].RepairFinal? && j[i].repair == repair
  }

  function IntentOf(c: RepairCall): Entry {
    RepairIntent(c.repair, c.repair, c.items)
  }

  function FinalOf(intent: Entry, at: Instant): Entry
    requires intent.RepairIntent?
  {
    RepairFinal(intent.repair, intent.staging, intent.items, at)
  }

  // ----- effects -----

  function ItemWrites(items: seq<RepairItem>): seq<Effect> {
    seq(|items|, i requires 0 <= i < |items| => Write(items[i].item, items[i].candidate))
  }

  /** What stops recovery at this item, if anything does. */
  function ObstacleAt(item: RepairItem, staged: map<ItemId, Revision>, disk: Tree): Option<Obstacle> {
    if item.item !in staged || item.item !in disk then Some(ItemMissing(item.item))
    else if disk[item.item] != staged[item.item] && disk[item.item] != item.expected then Some(ThirdRevision(item.item))
    else None
  }

  /** The replacements recovery makes, up to the first obstacle. */
  function RecoveryWrites(items: seq<RepairItem>, staged: map<ItemId, Revision>, disk: Tree): seq<Effect> {
    if items == [] || ObstacleAt(items[0], staged, disk).Some? then []
    else
      var item := items[0].item;
      if disk[item] == staged[item] then RecoveryWrites(items[1..], staged, disk)
      else [Write(item, staged[item])] + RecoveryWrites(items[1..], staged, disk[item := staged[item]])
  }

  function FirstObstacle(items: seq<RepairItem>, staged: map<ItemId, Revision>, disk: Tree): Option<Obstacle> {
    if items == [] then None
    else if ObstacleAt(items[0], staged, disk).Some? then ObstacleAt(items[0], staged, disk)
    else FirstObstacle(items[1..], staged, disk[items[0].item := staged[items[0].item]])
  }

  /** The disk once recovery has passed every item. */
  function RecoveredDisk(items: seq<RepairItem>, staged: map<ItemId, Revision>, disk: Tree): Tree {
    if items == [] || ObstacleAt(items[0], staged, disk).Some? then disk
    else RecoveredDisk(items[1..], staged, disk[items[0].item := staged[items[0].item]])
  }

  function RecoveryEffects(intent: Entry, c: RepairCall, disk: Tree, valid: Tree -> bool): seq<Effect>
    requires intent.RepairIntent?
  {
    RecoveryWrites(intent.items, c.staged, disk)
    + (if FirstObstacle(intent.items, c.staged, disk).None? && valid(RecoveredDisk(intent.items, c.staged, disk))
       then [Append(FinalOf(intent, c.at))] else [])
  }

  function Published(items: seq<RepairItem>, disk: Tree): Tree {
    if items == [] then disk
    else Published(items[..|items| - 1], disk)[items[|items| - 1].item := items[|items| - 1].candidate]
  }

  predicate RereadMatches(items: seq<RepairItem>, disk: Tree) {
    forall i :: 0 <= i < |items| ==> RevisionIn(disk, items[i].item) == Some(items[i].candidate)
  }

  function FreshEffects(c: RepairCall, disk: Tree, valid: Tree -> bool): seq<Effect> {
    var after := Published(c.items, disk);
    [Append(IntentOf(c))] + ItemWrites(c.items)
    + (if valid(after) && RereadMatches(c.items, after) then [Append(FinalOf(IntentOf(c), c.at))] else [])
  }

  /** One call, start to end, under the namespace lock. */
  function CallEffects(w: World, c: RepairCall, valid: Tree -> bool): seq<Effect> {
    var intent := FindRepairIntent(w.journal, c.repair);
    if HasRepairFinal(w.journal, c.repair) then []
    else if intent.Some? then RecoveryEffects(intent.value, c, w.disk, valid)
    else if c.applicable then FreshEffects(c, w.disk, valid)
    else []
  }

  // ----- the calls in place -----

  /** atomicReplace of one item. */
  method ReplaceItem(store: Store, item: ItemId, candidate: Revision)
    modifies store`disk, store`trace
    ensures store.disk == old(store.disk)[item := candidate]
    ensures store.trace == old(store.trace) + [Write(item, candidate)]
  {
    store.WriteItem(Attempted(true, WroteCandidate), item, candidate);
  }

  /** Replace each item that still holds its expected bytes, skip each that holds
      its candidate, and stop at the first that is missing or holds neither. */
  method ReplaceStaged(store: Store, items: seq<RepairItem>, staged: map<ItemId, Revision>) returns (obstacle: Option<Obstacle>)
    modifies store`disk, store`trace
    ensures obstacle == FirstObstacle(items, staged, old(store.disk))
    ensures store.disk == RecoveredDisk(items, staged, old(store.disk))
    ensures store.trace == old(store.trace) + RecoveryWrites(items, staged, old(store.disk))
  {
    ghost var start, before := store.disk, store.trace;
    var i := 0;
    while i < |items|
      invariant 0 <= i <= |items|
      invariant FirstObstacle(items, staged, start) == FirstObstacle(items[i..], staged, store.disk)
      invariant RecoveredDisk(items, staged, start) == RecoveredDisk(items[i..], staged, store.disk)
      invariant before + RecoveryWrites(items, staged, start)
             == store.trace + RecoveryWrites(items[i..], staged, store.disk)
    {
      var entry := items[i];
      assert items[i..][0] == entry && items[i..][1..] == items[i + 1..];
      obstacle := ObstacleAt(entry, staged, store.disk);
      if obstacle.Some? {
        return;
      }
      var candidate := staged[entry.item];
      assert store.disk[entry.item := store.disk[entry.item]] == store.disk;
      if store.disk[entry.item] != candidate {
        Assoc(store.trace, [Write(entry.item, candidate)],
              RecoveryWrites(items[i + 1..], staged, store.disk[entry.item := candidate]));
        ReplaceItem(store, entry.item, candidate);
      }
      i := i + 1;
    }
    obstacle := None;
  }

  method RecoverNumberRepair(store: Store, intent: Entry, c: RepairCall, valid: Tree -> bool) returns (reply: RepairReply)
    requires intent.RepairIntent?
    modifies store`journal, store`disk, store`trace
    ensures store.trace == old(store.trace) + RecoveryEffects(intent, c, old(store.disk), valid)
    ensures store.disk == RecoveredDisk(intent.items, c.staged, old(store.disk))
    ensures store.journal == old(store.journal) + (if reply.Repaired? then [FinalOf(intent, c.at)] else [])
    ensures reply.Repaired? <==> FirstObstacle(intent.items, c.staged, old(store.disk)).None? && valid(store.disk)
  {
    ghost var before := store.trace;
    assert store.journal + [] == store.journal;
    var obstacle := ReplaceStaged(store, intent.items, c.staged);
    ghost var writes := RecoveryWrites(intent.items, c.staged, old(store.disk));
    assert store.trace + [] == store.trace;
    assert writes + [] == writes;
    if obstacle.Some? || !valid(store.disk) {
      return OutcomeUnknown(obstacle);
    }
    store.AppendClaimEntry(FinalOf(intent, c.at));
    Assoc(before, writes, [Append(FinalOf(intent, c.at))]);
    return Repaired;
  }

  /** The publication loop of a repair nobody has started. */
  method PublishCandidates(store: Store, items: seq<RepairItem>)
    modifies store`disk, store`trace
    ensures store.disk == Published(items, old(store.disk))
    ensures store.trace == old(store.trace) + ItemWrites(items)
  {
    ghost var before := store.trace;
    for i := 0 to |items|
      invariant store.disk == Published(items[..i], old(store.disk))
      invariant store.trace == before + ItemWrites(items[..i])
    {
      assert items[..i + 1][..i] == items[..i];
      assert ItemWrites(items[..i + 1]) == ItemWrites(items[..i]) + [Write(items[i].item, items[i].candidate)];
      Assoc(before, ItemWrites(items[..i]), [Write(items[i].item, items[i].candidate)]);
      ReplaceItem(store, items[i].item, items[i].candidate);
    }
    assert items[..|items|] == items;
  }

  method PublishNumberRepair(store: Store, c: RepairCall, valid: Tree -> bool) returns (reply: RepairReply)
    modifies store`journal, store`disk, store`trace
    ensures store.trace == old(store.trace) + FreshEffects(c, old(store.disk), valid)
    ensures store.disk == Published(c.items, old(store.disk))
    ensures store.journal == old(store.journal) + [IntentOf(c)] + (if reply.Repaired? then [FinalOf(IntentOf(c), c.at)] else [])
    ensures reply.Repaired?
            <==> && valid(store.disk)
                 && forall i :: 0 <= i < |c.items| ==> RevisionIn(store.disk, c.items[i].item) == Some(c.items[i].candidate)
  {
    ghost var before := store.trace;
    store.AppendClaimEntry(IntentOf(c));
    PublishCandidates(store, c.items);
    ghost var start := [Append(IntentOf(c))];
    Assoc(before, start, ItemWrites(c.items));
    AddNothing(store.journal);
    if !valid(store.disk) || !RereadMatches(c.items, store.disk) {
      assert start + ItemWrites(c.items) + [] == start + ItemWrites(c.items);
      return SuccessorInvalid;
    }
    store.AppendClaimEntry(FinalOf(IntentOf(c), c.at));
    Assoc(before, start + ItemWrites(c.items), [Append(FinalOf(IntentOf(c), c.at))]);
    return Repaired;
  }

  /** The locked body of numberRepair. */
  method RunNumberRepair(store: Store, c: RepairCall, valid: Tree -> bool) returns (reply: RepairReply)
    modifies store`journal, store`disk, store`trace
    ensures store.trace == old(store.trace) + CallEffects(old(store.Abs()), c, valid)
    ensures store.Abs() == ApplyAll(old(store.Abs()), CallEffects(old(store.Abs()), c, valid))
    ensures reply.Repaired? <==> HasRepairFinal(store.journal, c.repair)
  {
    ghost var w := store.Abs();
    AddNothing(store.trace);
    var intent := FindRepairIntent(store.journal, c.repair);
    if HasRepairFinal(store.journal, c.repair) {
      return Repaired;
    }
    if intent.Some? {
      reply := RecoverNumberRepair(store, intent.value, c, valid);
      RecoveryEffectsApply(w, intent.value, c, valid);
      AddNothing(w.journal);
      AppendedIsFinal(w.journal, FinalOf(intent.value, c.at), c.repair);
    } else if c.applicable {
      reply := PublishNumberRepair(store, c, valid);
      FreshEffectsApply(w, c, valid);
      AddNothing(w.journal + [IntentOf(c)]);
      AppendedIsFinal(w.journal, IntentOf(c), c.repair);
      AppendedIsFinal(w.journal + [IntentOf(c)], FinalOf(IntentOf(c), c.at), c.repair);
    } else {
      return NotApplicable;
    }
  }

  /** Appending a final of the repair is what resolves it; an intent does not. */
  lemma AppendedIsFinal(j: seq<Entry>, e: Entry, repair: nat)
    requires !HasRepairFinal(j, repair)
    ensures HasRepairFinal(j + [e], repair) <==> e.RepairFinal? && e.repair == repair
  {
    var k := j + [e];
    assert k[|j|] == e && forall i :: 0 <= i < |j| ==> k[i] == j[i];
  }

  // ----- what one call does to the world -----

  ghost predicate Distinct(items: seq<RepairItem>) {
    forall i, k :: 0 <= i < k < |items| ==> items[i].item != items[k].item
  }

  /** What the apply checks establish under the lock: distinct items, each at the
      revision its change names. */
  ghost predicate Witnessed(items: seq<RepairItem>, disk: Tree) {
    Distinct(items) && forall i :: 0 <= i < |items| ==> RevisionIn(disk, items[i].item) == Some(items[i].expected)
  }

  /** The staging directory reads back the candidates. */
  ghost predicate Staged(items: seq<RepairItem>, staged: map<ItemId, Revision>) {
    forall i :: 0 <= i < |items| ==> items[i].item in staged && staged[items[i].item] == items[i].candidate
  }

  predicate Names(items: seq<RepairItem>, x: ItemId) {
    exists i :: 0 <= i < |items| && items[i].item == x
  }

  /** `disk` is `start` with some of the named items already replaced. */
  ghost predicate Between(items: seq<RepairItem>, start: Tree, disk: Tree) {
    && disk.Keys == start.Keys
    && forall x :: x in start ==> disk[x] == start[x] || CandidateAt(items, x, disk[x])
  }

  predicate CandidateAt(items: seq<RepairItem>, x: ItemId, revision: Revision) {
    exists i :: 0 <= i < |items| && items[i].item == x && items[i].candidate == revision
  }

  predicate CandidateWrite(items: seq<RepairItem>, e: Effect) {
    e.Write? && CandidateAt(items, e.item, e.revision)
  }

  /** The finished disk: every named item at its candidate, the rest untouched. */
  ghost predicate IsTarget(items: seq<RepairItem>, start: Tree, disk: Tree) {
    && disk.Keys == start.Keys
    && (forall i :: 0 <= i < |items| ==> RevisionIn(disk, items[i].item) == Some(items[i].candidate))
    && (forall x :: x in start && !Names(items, x) ==> disk[x] == start[x])
  }

  lemma {:induction false} PublishedIsTarget(items: seq<RepairItem>, start: Tree)
    requires Distinct(items) && forall i :: 0 <= i < |items| ==> items[i].item in start
    ensures IsTarget(items, start, Published(items, start))
  {
    if items == [] {
    } else {
      var k := |items| - 1;
      PublishedIsTarget(items[..k], start);
      var before, after := Published(items[..k], start), Published(items, start);
      forall i | 0 <= i < |items| ensures RevisionIn(after, items[i].item) == Some(items[i].candidate) {
        if i < k { assert items[..k][i] == items[i]; }
      }
      forall x | x in start && !Names(items, x) ensures after[x] == start[x] {
        assert items[k].item != x;
        assert forall i :: 0 <= i < k ==> items[..k][i].item == items[i].item;
      }
    }
  }

  lemma TargetIsUnique(items: seq<RepairItem>, start: Tree, a: Tree, b: Tree)
    requires IsTarget(items, start, a) && IsTarget(items, start, b)
    ensures a == b
  {
    forall x | x in a ensures a[x] == b[x] {
      if Names(items, x) {
        var i :| 0 <= i < |items| && items[i].item == x;
      }
    }
  }

  /** Recovery passes every item that holds its expected or its candidate bytes,
      and leaves each at its candidate. */
  lemma {:induction false} RecoveryFinishes(items: seq<RepairItem>, staged: map<ItemId, Revision>, disk: Tree)
    requires Distinct(items) && Staged(items, staged)
    requires forall i :: 0 <= i < |items| ==>
               RevisionIn(disk, items[i].item) in {Some(items[i].expected), Some(items[i].candidate)}
    ensures FirstObstacle(items, staged, disk).None?
    ensures IsTarget(items, disk, RecoveredDisk(items, staged, disk))
  {
    if items == [] {
    } else {
      var head, rest := items[0], items[1..];
      assert RevisionIn(disk, head.item) in {Some(head.expected), Some(head.candidate)};
      var next := disk[head.item := staged[head.item]];
      forall i | 0 <= i < |rest| ensures RevisionIn(next, rest[i].item) in {Some(rest[i].expected), Some(rest[i].candidate)} {
        assert rest[i] == items[i + 1];
      }
      RecoveryFinishes(rest, staged, next);
      TargetThroughHead(items, staged, disk);
    }
  }

  lemma TargetThroughHead(items: seq<RepairItem>, staged: map<ItemId, Revision>, disk: Tree)
    requires items != [] && Distinct(items) && Staged(items, staged)
    requires items[0].item in disk && ObstacleAt(items[0], staged, disk).None?
    requires var next := disk[items[0].item := staged[items[0].item]];
             IsTarget(items[1..], next, RecoveredDisk(items[1..], staged, next))
    ensures IsTarget(items, disk, RecoveredDisk(items, staged, disk))
  {
    var head, rest := items[0], items[1..];
    var next := disk[head.item := staged[head.item]];
    var after := RecoveredDisk(rest, staged, next);
    assert !Names(rest, head.item);
    forall i | 0 <= i < |items| ensures RevisionIn(after, items[i].item) == Some(items[i].candidate) {
      if i > 0 { assert rest[i - 1] == items[i]; }
    }
    forall x | x in disk && !Names(items, x) ensures after[x] == disk[x] {
      assert items[0].item != x;
      assert forall i :: 0 <= i < |rest| ==> rest[i].item == items[i + 1].item;
    }
  }

  lemma {:induction false} RecoveryApplies(w: World, items: seq<RepairItem>, staged: map<ItemId, Revision>)
    ensures ApplyAll(w, RecoveryWrites(items, staged, w.disk)) == w.(disk := RecoveredDisk(items, staged, w.disk))
    decreases |items|
  {
    if items != [] && ObstacleAt(items[0], staged, w.disk).None? {
      var item := items[0].item;
      var next := w.(disk := w.disk[item := staged[item]]);
      RecoveryApplies(next, items[1..], staged);
      if w.disk[item] != staged[item] {
        ApplyFirst(w, Write(item, staged[item]), RecoveryWrites(items[1..], staged, next.disk));
      } else {
        assert next.disk == w.disk;
      }
    }
  }

  lemma {:induction false} RecoveryWritesCandidates(items: seq<RepairItem>, staged: map<ItemId, Revision>, disk: Tree)
    requires Staged(items, staged)
    ensures forall e :: e in RecoveryWrites(items, staged, disk) ==> CandidateWrite(items, e)
    decreases |items|
  {
    if items != [] && ObstacleAt(items[0], staged, disk).None? {
      var rest, next := items[1..], disk[items[0].item := staged[items[0].item]];
      RecoveryWritesCandidates(rest, staged, next);
      assert next == disk || disk[items[0].item] != staged[items[0].item];
      forall e | CandidateWrite(rest, e) ensures CandidateWrite(items, e) {
        var i :| 0 <= i < |rest| && rest[i].item == e.item && rest[i].candidate == e.revision;
        assert items[i + 1] == rest[i];
      }
      assert CandidateWrite(items, Write(items[0].item, staged[items[0].item]));
    }
  }

  lemma {:induction false} WritesStayBetween(items: seq<RepairItem>, start: Tree, w: World, es: seq<Effect>)
    requires Between(items, start, w.disk) && forall i :: 0 <= i < |items| ==> items[i].item in start
    requires forall e :: e in es ==> CandidateWrite(items, e)
    ensures Between(items, start, ApplyAll(w, es).disk) && ApplyAll(w, es).journal == w.journal
  {
    if es == [] {
    } else {
      var k := |es| - 1;
      WritesStayBetween(items, start, w, es[..k]);
      assert CandidateWrite(items, es[k]);
    }
  }

  // ----- runs of crashed calls -----

  /** One more call of the same repair, stopped after `kept` of its effects.
      `stages` is whether it could write its candidates: a call that died between
      staging and the intent leaves a staging directory the next one trips over. */
  datatype Attempt = Attempt(at: Instant, stages: bool, kept: nat)

  function AttemptOf(c: RepairCall, a: Attempt): RepairCall {
    c.(at := a.at, applicable := c.applicable && a.stages)
  }

  function AttemptEffects(w: World, c: RepairCall, a: Attempt, valid: Tree -> bool): seq<Effect> {
    var es := CallEffects(w, AttemptOf(c, a), valid);
    if a.kept <= |es| then es[..a.kept] else es
  }

  function Attempts(w: World, c: RepairCall, attempts: seq<Attempt>, valid: Tree -> bool): World {
    if attempts == [] then w
    else
      var k := |attempts| - 1;
      var before := Attempts(w, c, attempts[..k], valid);
      ApplyAll(before, AttemptEffects(before, c, attempts[k], valid))
  }

  function RepairFinals(j: seq<Entry>, repair: nat): nat {
    if j == [] then 0
    else
      var k := |j| - 1;
      RepairFinals(j[..k], repair) + (if j[k].RepairFinal? && j[k].repair == repair then 1 else 0)
  }

  lemma {:induction false} NoFinalCountsNone(j: seq<Entry>, repair: nat)
    ensures RepairFinals(j, repair) == 0 <==> !HasRepairFinal(j, repair)
  {
    if j == [] {
    } else {
      var k := |j| - 1;
      NoFinalCountsNone(j[..k], repair);
      if HasRepairFinal(j[..k], repair) {
        var i :| 0 <= i < k && j[..k][i].RepairFinal? && j[..k][i].repair == repair;
        assert j[i] == j[..k][i];
      }
    }
  }

  lemma FinalsAppend(j: seq<Entry>, e: Entry, repair: nat)
    ensures RepairFinals(j + [e], repair) == RepairFinals(j, repair) + (if e.RepairFinal? && e.repair == repair then 1 else 0)
  {
    assert (j + [e])[..|j|] == j;
  }

  lemma {:induction false} FindIntentAppend(j: seq<Entry>, e: Entry, repair: nat)
    ensures FindRepairIntent(j + [e], repair)
         == if FindRepairIntent(j, repair).Some? then FindRepairIntent(j, repair)
            else if e.RepairIntent? && e.repair == repair then Some(e) else None
  {
    if j != [] {
      assert (j + [e])[1..] == j[1..] + [e];
      FindIntentAppend(j[1..], e, repair);
    } else {
      assert [e][1..] == [];
    }
  }

  /** A repair nobody has started, whose checks this ledger passes. */
  ghost predicate Startable(start: World, c: RepairCall) {
    && FindRepairIntent(start.journal, c.repair).None? && !HasRepairFinal(start.journal, c.repair)
    && c.applicable && Witnessed(c.items, start.disk) && Staged(c.items, c.staged)
  }

  ghost predicate Underway(w: World, c: RepairCall, start: Tree) {
    && FindRepairIntent(w.journal, c.repair) == Some(IntentOf(c)) && RepairFinals(w.journal, c.repair) == 0
    && Between(c.items, start, w.disk)
  }

  ghost predicate Finished(w: World, c: RepairCall, start: Tree) {
    RepairFinals(w.journal, c.repair) == 1 && IsTarget(c.items, start, w.disk)
  }

  ghost predicate InPhase(w: World, c: RepairCall, start: World) {
    w == start || Underway(w, c, start.disk) || Finished(w, c, start.disk)
  }

  lemma ItemWritesPrefix(items: seq<RepairItem>, n: nat)
    requires n <= |items|
    ensures ItemWrites(items)[..n] == ItemWrites(items[..n])
  {
  }

  lemma {:induction false} ItemWritesApply(w: World, items: seq<RepairItem>)
    ensures ApplyAll(w, ItemWrites(items)) == w.(disk := Published(items, w.disk))
  {
    if items == [] {
    } else {
      var k := |items| - 1;
      ItemWritesPrefix(items, k);
      ItemWritesApply(w, items[..k]);
    }
  }

  lemma IntentStarts(start: World, c: RepairCall, at: Instant)
    requires Startable(start, c)
    ensures Underway(start.(journal := start.journal + [IntentOf(c)]), c, start.disk)
  {
    FindIntentAppend(start.journal, IntentOf(c), c.repair);
    FinalsAppend(start.journal, IntentOf(c), c.repair);
    NoFinalCountsNone(start.journal, c.repair);
  }

  lemma FinalFinishes(w: World, c: RepairCall, at: Instant, start: Tree)
    requires Underway(w, c, start) && IsTarget(c.items, start, w.disk)
    ensures Finished(ApplyAll(w, [Append(FinalOf(IntentOf(c), at))]), c, start)
  {
    ApplyOne(w, Append(FinalOf(IntentOf(c), at)));
    FinalsAppend(w.journal, FinalOf(IntentOf(c), at), c.repair);
  }

  /** Any prefix of a first call leaves the repair not started, half published,
      or finished. */
  lemma FreshKeepsPhase(start: World, c: RepairCall, at: Instant, valid: Tree -> bool, kept: nat)
    requires Startable(start, c) && kept <= |FreshEffects(c.(at := at), start.disk, valid)|
    ensures InPhase(ApplyAll(start, FreshEffects(c.(at := at), start.disk, valid)[..kept]), c, start)
  {
    var es := FreshEffects(c.(at := at), start.disk, valid);
    if 0 < kept <= |c.items| + 1 {
      var m := kept - 1;
      assert es[..kept] == [Append(IntentOf(c))] + ItemWrites(c.items[..m]) by { ItemWritesPrefix(c.items, m); }
      FreshPrefix(start, c, at, m);
    } else if kept > 0 {
      assert es[..kept] == es;
      FreshFinishes(start, c, at, valid);
    }
  }

  lemma FreshPrefix(start: World, c: RepairCall, at: Instant, m: nat)
    requires Startable(start, c) && m <= |c.items|
    ensures var w := ApplyAll(start, [Append(IntentOf(c))] + ItemWrites(c.items[..m]));
            && Underway(w, c, start.disk)
            && w == start.(journal := start.journal + [IntentOf(c)], disk := Published(c.items[..m], start.disk))
  {
    var w1 := start.(journal := start.journal + [IntentOf(c)]);
    IntentStarts(start, c, at);
    FreshWritesStayBetween(w1, c, start.disk, m);
    ApplyFirst(start, Append(IntentOf(c)), ItemWrites(c.items[..m]));
    ItemWritesApply(w1, c.items[..m]);
  }

  lemma FreshFinishes(start: World, c: RepairCall, at: Instant, valid: Tree -> bool)
    requires Startable(start, c)
    ensures InPhase(ApplyAll(start, FreshEffects(c.(at := at), start.disk, valid)), c, start)
    ensures |FreshEffects(c.(at := at), start.disk, valid)| > |c.items| + 1 ==>
              Finished(ApplyAll(start, FreshEffects(c.(at := at), start.disk, valid)), c, start.disk)
  {
    var es := FreshEffects(c.(at := at), start.disk, valid);
    var n := |c.items|;
    assert c.items[..n] == c.items;
    var begun := [Append(IntentOf(c))] + ItemWrites(c.items);
    FreshPrefix(start, c, at, n);
    if |es| > n + 1 {
      assert es == begun + [Append(FinalOf(IntentOf(c), at))];
      PublishedIsTarget(c.items, start.disk);
      ApplyConcat(start, begun, [Append(FinalOf(IntentOf(c), at))]);
      FinalFinishes(ApplyAll(start, begun), c, at, start.disk);
    } else {
      assert es == begun;
    }
  }

  lemma FreshWritesStayBetween(w: World, c: RepairCall, start: Tree, m: nat)
    requires Underway(w, c, start) && Witnessed(c.items, start) && m <= |c.items|
    ensures Underway(ApplyAll(w, ItemWrites(c.items[..m])), c, start)
  {
    var es := ItemWrites(c.items[..m]);
    forall e | e in es ensures CandidateWrite(c.items, e) {
      var i :| 0 <= i < |es| && es[i] == e;
      assert c.items[i].item == e.item;
    }
    WritesStayBetween(c.items, start, w, es);
  }

  lemma BetweenIsRecoverable(items: seq<RepairItem>, start: Tree, disk: Tree, i: nat)
    requires Witnessed(items, start) && Between(items, start, disk) && i < |items|
    ensures RevisionIn(disk, items[i].item) in {Some(items[i].expected), Some(items[i].candidate)}
  {
    var x := items[i].item;
    assert RevisionIn(start, x) == Some(items[i].expected);
    if disk[x] != start[x] {
      var k :| 0 <= k < |items| && items[k].item == x && items[k].candidate == disk[x];
      assert k == i;
    }
  }

  /** From any half-published disk recovery finishes: every named item at its
      candidate, every other item as it was. */
  lemma RecoveryReachesTarget(w: World, c: RepairCall, start: Tree)
    requires Underway(w, c, start) && Witnessed(c.items, start) && Staged(c.items, c.staged)
    ensures FirstObstacle(c.items, c.staged, w.disk).None?
    ensures IsTarget(c.items, start, RecoveredDisk(c.items, c.staged, w.disk))
  {
    forall i | 0 <= i < |c.items|
      ensures RevisionIn(w.disk, c.items[i].item) in {Some(c.items[i].expected), Some(c.items[i].candidate)}
    {
      BetweenIsRecoverable(c.items, start, w.disk, i);
    }
    RecoveryFinishes(c.items, c.staged, w.disk);
    forall x | x in start && !Names(c.items, x) ensures w.disk[x] == start[x] {
    }
  }

  lemma RecoveryKeepsPhase(w: World, c: RepairCall, at: Instant, start: World, valid: Tree -> bool, kept: nat)
    requires Underway(w, c, start.disk) && Witnessed(c.items, start.disk) && Staged(c.items, c.staged)
    requires kept <= |RecoveryEffects(IntentOf(c), c.(at := at), w.disk, valid)|
    ensures InPhase(ApplyAll(w, RecoveryEffects(IntentOf(c), c.(at := at), w.disk, valid)[..kept]), c, start)
  {
    var writes := RecoveryWrites(c.items, c.staged, w.disk);
    var es := RecoveryEffects(IntentOf(c), c.(at := at), w.disk, valid);
    RecoveryWritesCandidates(c.items, c.staged, w.disk);
    if kept <= |writes| {
      assert es[..kept] == writes[..kept];
      assert forall e :: e in writes[..kept] ==> e in writes;
      WritesStayBetween(c.items, start.disk, w, writes[..kept]);
    } else {
      assert es[..kept] == writes + [Append(FinalOf(IntentOf(c), at))];
      RecoveryReachesTarget(w, c, start.disk);
      RecoveryApplies(w, c.items, c.staged);
      WritesStayBetween(c.items, start.disk, w, writes);
      ApplyConcat(w, writes, [Append(FinalOf(IntentOf(c), at))]);
      FinalFinishes(w.(disk := RecoveredDisk(c.items, c.staged, w.disk)), c, at, start.disk);
    }
  }

  /** What an attempt would perform if nothing cut it short. */
  ghost function WholeAttempt(w: World, c: RepairCall, a: Attempt, valid: Tree -> bool): seq<Effect> {
    var intent := FindRepairIntent(w.journal, c.repair);
    if HasRepairFinal(w.journal, c.repair) then []
    else if intent.Some? then RecoveryEffects(intent.value, c.(at := a.at), w.disk, valid)
    else if c.applicable && a.stages then FreshEffects(c.(at := a.at), w.disk, valid)
    else []
  }

  lemma AttemptIsWhole(w: World, c: RepairCall, a: Attempt, valid: Tree -> bool)
    ensures CallEffects(w, AttemptOf(c, a), valid) == WholeAttempt(w, c, a, valid)
  {
    if c.applicable && a.stages {
      assert AttemptOf(c, a) == c.(at := a.at);
    }
  }

  lemma AttemptIsPrefix(w: World, c: RepairCall, a: Attempt, valid: Tree -> bool) returns (kept: nat)
    ensures kept <= |WholeAttempt(w, c, a, valid)| && AttemptEffects(w, c, a, valid) == WholeAttempt(w, c, a, valid)[..kept]
    ensures a.kept >= |WholeAttempt(w, c, a, valid)| ==> AttemptEffects(w, c, a, valid) == WholeAttempt(w, c, a, valid)
  {
    AttemptIsWhole(w, c, a, valid);
    var es := WholeAttempt(w, c, a, valid);
    AddNothing(es);
    kept := if a.kept <= |es| then a.kept else |es|;
  }

  lemma AttemptKeepsPhase(w: World, c: RepairCall, a: Attempt, start: World, valid: Tree -> bool)
    requires Startable(start, c) && InPhase(w, c, start)
    ensures InPhase(ApplyAll(w, AttemptEffects(w, c, a, valid)), c, start)
  {
    NoFinalCountsNone(w.journal, c.repair);
    var kept := AttemptIsPrefix(w, c, a, valid);
    if HasRepairFinal(w.journal, c.repair) {
    } else if FindRepairIntent(w.journal, c.repair).Some? {
      RecoveryKeepsPhase(w, c, a.at, start, valid, kept);
    } else if a.stages {
      FreshKeepsPhase(start, c, a.at, valid, kept);
    }
  }

  /** However many calls of the repair crashed, and wherever, it is not started,
      half published without a final, or finished with exactly one. */
  lemma {:induction false} CrashedCallsStayInPhase(start: World, c: RepairCall, attempts: seq<Attempt>, valid: Tree -> bool)
    requires Startable(start, c)
    ensures InPhase(Attempts(start, c, attempts, valid), c, start)
  {
    if attempts == [] {
    } else {
      var k := |attempts| - 1;
      CrashedCallsStayInPhase(start, c, attempts[..k], valid);
      AttemptKeepsPhase(Attempts(start, c, attempts[..k], valid), c, attempts[k], start, valid);
    }
  }

  lemma {:induction false} WritesAtMost(items: seq<RepairItem>, staged: map<ItemId, Revision>, disk: Tree)
    ensures |RecoveryWrites(items, staged, disk)| <= |items|
  {
    if items != [] && ObstacleAt(items[0], staged, disk).None? {
      var item := items[0].item;
      WritesAtMost(items[1..], staged, disk);
      WritesAtMost(items[1..], staged, disk[item := staged[item]]);
    }
  }

  /** A first call that is not cut short ends with its final. */
  lemma FreshEndsFinal(start: World, c: RepairCall, at: Instant, valid: Tree -> bool)
    requires Startable(start, c) && valid(Published(c.items, start.disk))
    ensures |FreshEffects(c.(at := at), start.disk, valid)| == |c.items| + 2
    ensures Finished(ApplyAll(start, FreshEffects(c.(at := at), start.disk, valid)), c, start.disk)
  {
    PublishedIsTarget(c.items, start.disk);
    FreshFinishes(start, c, at, valid);
  }

  /** A call cut short nowhere has at most the intent, one write per item and the
      final to perform. */
  ghost predicate Uncut(c: RepairCall, a: Attempt) {
    a.kept >= |c.items| + 2
  }

  lemma UncutFinishes(w: World, c: RepairCall, a: Attempt, start: World, valid: Tree -> bool)
    requires Startable(start, c) && InPhase(w, c, start) && Uncut(c, a)
    requires valid(Published(c.items, start.disk)) && (a.stages || FindRepairIntent(w.journal, c.repair).Some?)
    ensures Finished(ApplyAll(w, AttemptEffects(w, c, a, valid)), c, start.disk)
  {
    NoFinalCountsNone(w.journal, c.repair);
    var _ := AttemptIsPrefix(w, c, a, valid);
    if HasRepairFinal(w.journal, c.repair) {
    } else if FindRepairIntent(w.journal, c.repair).Some? {
      RecoveredIsPublished(w, c, start.disk);
      FullRecoveryFinishes(w, c, a.at, start, valid);
      WritesAtMost(c.items, c.staged, w.disk);
    } else {
      FreshEndsFinal(start, c, a.at, valid);
    }
  }

  lemma FinishedWritesNothing(w: World, c: RepairCall, a: Attempt, valid: Tree -> bool)
    requires RepairFinals(w.journal, c.repair) > 0
    ensures ApplyAll(w, AttemptEffects(w, c, a, valid)) == w
  {
    NoFinalCountsNone(w.journal, c.repair);
    var _ := AttemptIsPrefix(w, c, a, valid);
  }

  lemma AttemptsOneMore(start: World, c: RepairCall, attempts: seq<Attempt>, a: Attempt, valid: Tree -> bool)
    ensures var w := Attempts(start, c, attempts, valid);
            Attempts(start, c, attempts + [a], valid) == ApplyAll(w, AttemptEffects(w, c, a, valid))
  {
    assert (attempts + [a])[..|attempts|] == attempts;
  }

  /** One call that is not cut short, after any that crashed, be it the first or
      one that finds the intent journaled, leaves every named item at its
      candidate and every other item untouched, with exactly one final; every
      later call writes nothing. */
  lemma RepairFinishesOnce(start: World, c: RepairCall, attempts: seq<Attempt>, valid: Tree -> bool, last: Attempt, later: Attempt)
    requires Startable(start, c) && valid(Published(c.items, start.disk)) && Uncut(c, last)
    requires last.stages || FindRepairIntent(Attempts(start, c, attempts, valid).journal, c.repair).Some?
    ensures var done := Attempts(start, c, attempts + [last], valid);
            && RepairFinals(done.journal, c.repair) == 1
            && IsTarget(c.items, start.disk, done.disk)
            && Attempts(start, c, attempts + [last, later], valid) == done
  {
    CrashedCallsStayInPhase(start, c, attempts, valid);
    UncutFinishes(Attempts(start, c, attempts, valid), c, last, start, valid);
    AttemptsOneMore(start, c, attempts, last, valid);
    AttemptsOneMore(start, c, attempts + [last], later, valid);
    assert attempts + [last, later] == attempts + [last] + [later];
    FinishedWritesNothing(Attempts(start, c, attempts + [last], valid), c, later, valid);
  }

  lemma RecoveredIsPublished(w: World, c: RepairCall, start: Tree)
    requires Underway(w, c, start) && Witnessed(c.items, start) && Staged(c.items, c.staged)
    ensures RecoveredDisk(c.items, c.staged, w.disk) == Published(c.items, start)
  {
    RecoveryReachesTarget(w, c, start);
    PublishedIsTarget(c.items, start);
    TargetIsUnique(c.items, start, Published(c.items, start), RecoveredDisk(c.items, c.staged, w.disk));
  }

  lemma FullRecoveryFinishes(w: World, c: RepairCall, at: Instant, start: World, valid: Tree -> bool)
    requires Underway(w, c, start.disk) && Witnessed(c.items, start.disk) && Staged(c.items, c.staged)
    requires valid(RecoveredDisk(c.items, c.staged, w.disk))
    ensures Finished(ApplyAll(w, RecoveryEffects(IntentOf(c), c.(at := at), w.disk, valid)), c, start.disk)
  {
    var writes := RecoveryWrites(c.items, c.staged, w.disk);
    RecoveryWritesCandidates(c.items, c.staged, w.disk);
    RecoveryReachesTarget(w, c, start.disk);
    RecoveryApplies(w, c.items, c.staged);
    WritesStayBetween(c.items, start.disk, w, writes);
    ApplyConcat(w, writes, [Append(FinalOf(IntentOf(c), at))]);
    FinalFinishes(w.(disk := RecoveredDisk(c.items, c.staged, w.disk)), c, at, start.disk);
  }

  // ----- a third revision -----

  /** The item holds neither its expected nor its candidate bytes, or is gone. */
  predicate HoldsThird(item: RepairItem, disk: Tree) {
    RevisionIn(disk, item.item) !in {Some(item.expected), Some(item.candidate)}
  }

  lemma {:induction false} ThirdStops(items: seq<RepairItem>, staged: map<ItemId, Revision>, disk: Tree, i: nat)
    requires Distinct(items) && Staged(items, staged) && i < |items| && HoldsThird(items[i], disk)
    ensures FirstObstacle(items, staged, disk).Some?
    ensures forall e :: e in RecoveryWrites(items, staged, disk) ==> e.Write? && e.item != items[i].item
    decreases |items|
  {
    if ObstacleAt(items[0], staged, disk).None? {
      var rest, next := items[1..], disk[items[0].item := staged[items[0].item]];
      assert rest[i - 1] == items[i];
      ThirdStops(rest, staged, next, i - 1);
      assert next == disk || disk[items[0].item] != staged[items[0].item];
    }
  }

  lemma {:induction false} WritesElsewhere(w: World, es: seq<Effect>, x: ItemId)
    requires forall e :: e in es ==> e.Write? && e.item != x
    ensures RevisionIn(ApplyAll(w, es).disk, x) == RevisionIn(w.disk, x) && ApplyAll(w, es).journal == w.journal
  {
    if es == [] {
    } else {
      var k := |es| - 1;
      WritesElsewhere(w, es[..k], x);
      assert es[k] in es;
    }
  }

  /** While any named item holds a third revision no call, crashed or not, ever
      appends a final, and none touches those bytes. */
  lemma {:induction false} ThirdRevisionIsNeverFinal(w: World, c: RepairCall, attempts: seq<Attempt>, valid: Tree -> bool, i: nat)
    requires FindRepairIntent(w.journal, c.repair) == Some(IntentOf(c)) && !HasRepairFinal(w.journal, c.repair)
    requires Distinct(c.items) && Staged(c.items, c.staged) && i < |c.items| && HoldsThird(c.items[i], w.disk)
    ensures var after := Attempts(w, c, attempts, valid);
            && after.journal == w.journal
            && RevisionIn(after.disk, c.items[i].item) == RevisionIn(w.disk, c.items[i].item)
  {
    if attempts == [] {
    } else {
      var k := |attempts| - 1;
      ThirdRevisionIsNeverFinal(w, c, attempts[..k], valid, i);
      var before := Attempts(w, c, attempts[..k], valid);
      ThirdStops(c.items, c.staged, before.disk, i);
      var writes := RecoveryWrites(c.items, c.staged, before.disk);
      assert writes + [] == writes;
      var es := AttemptEffects(before, c, attempts[k], valid);
      assert forall e :: e in es ==> e in writes;
      WritesElsewhere(before, es, c.items[i].item);
    }
  }

  // ----- what the journal reader accepts -----

  function CandidateMap(items: seq<RepairItem>): map<ItemId, Revision> {
    if items == [] then map[] else CandidateMap(items[..|items| - 1])[items[|items| - 1].item := items[|items| - 1].candidate]
  }

  predicate SameCandidates(intended: seq<RepairItem>, items: seq<RepairItem>) {
    var expected := CandidateMap(intended);
    && |items| == |expected|
    && forall i :: 0 <= i < |items| ==> items[i].item in expected && expected[items[i].item] == items[i].candidate
  }

  /** validRepairResolution: a repair id has one intent and one final that names
      the same staging and exactly the intended candidates. */
  predicate ValidRepairEntry(p: seq<Entry>, e: Entry) {
    match e
    case RepairIntent(repair, _, _) => FindRepairIntent(p, repair).None?
    case RepairFinal(repair, staging, items, _) =>
      var intent := FindRepairIntent(p, repair);
      && intent.Some? && !HasRepairFinal(p, repair)
      && intent.value.staging == staging && SameCandidates(intent.value.items, items)
    case _ => true
  }

  ghost predicate ValidRepairs(j: seq<Entry>) {
    forall i :: 0 <= i < |j| ==> ValidRepairEntry(j[..i], j[i])
  }

  lemma ValidAppend(j: seq<Entry>, e: Entry)
    requires ValidRepairs(j)
    ensures ValidRepairs(j + [e]) <==> ValidRepairEntry(j, e)
  {
    var k := j + [e];
    assert forall i :: 0 <= i < |j| ==> k[..i] == j[..i];
    assert k[..|j|] == j && k[|j|] == e;
  }

  lemma {:induction false} CandidateNames(items: seq<RepairItem>, x: ItemId)
    ensures x in CandidateMap(items) <==> Names(items, x)
  {
    if items == [] {
    } else {
      var k := |items| - 1;
      CandidateNames(items[..k], x);
      assert forall i :: 0 <= i < k ==> items[..k][i] == items[i];
      if Names(items, x) && items[k].item != x {
        var i :| 0 <= i < |items| && items[i].item == x;
        assert items[..k][i].item == x;
      }
    }
  }

  lemma {:induction false} DistinctCandidates(items: seq<RepairItem>)
    requires Distinct(items)
    ensures SameCandidates(items, items)
  {
    if items == [] {
    } else {
      var k := |items| - 1;
      var before := CandidateMap(items[..k]);
      DistinctCandidates(items[..k]);
      CandidateNames(items[..k], items[k].item);
      assert CandidateMap(items).Keys == before.Keys + {items[k].item};
      assert forall i :: 0 <= i < k ==> items[..k][i] == items[i];
    }
  }

  lemma RecoveryEffectsApply(w: World, intent: Entry, c: RepairCall, valid: Tree -> bool)
    requires intent.RepairIntent?
    ensures var disk := RecoveredDisk(intent.items, c.staged, w.disk);
            var final := FirstObstacle(intent.items, c.staged, w.disk).None? && valid(disk);
            ApplyAll(w, RecoveryEffects(intent, c, w.disk, valid))
            == w.(journal := w.journal + (if final then [FinalOf(intent, c.at)] else []), disk := disk)
  {
    var writes := RecoveryWrites(intent.items, c.staged, w.disk);
    RecoveryApplies(w, intent.items, c.staged);
    AddNothing(writes);
    AddNothing(w.journal);
    ApplyConcat(w, writes, [Append(FinalOf(intent, c.at))]);
    ApplyOne(ApplyAll(w, writes), Append(FinalOf(intent, c.at)));
  }

  lemma FreshEffectsApply(w: World, c: RepairCall, valid: Tree -> bool)
    ensures var disk := Published(c.items, w.disk);
            var final := valid(disk) && RereadMatches(c.items, disk);
            ApplyAll(w, FreshEffects(c, w.disk, valid))
            == w.(journal := w.journal + [IntentOf(c)] + (if final then [FinalOf(IntentOf(c), c.at)] else []), disk := disk)
  {
    var begun := [Append(IntentOf(c))] + ItemWrites(c.items);
    var w1 := w.(journal := w.journal + [IntentOf(c)]);
    ApplyFirst(w, Append(IntentOf(c)), ItemWrites(c.items));
    ItemWritesApply(w1, c.items);
    AddNothing(begun);
    AddNothing(w1.journal);
    ApplyConcat(w, begun, [Append(FinalOf(IntentOf(c), c.at))]);
    ApplyOne(ApplyAll(w, begun), Append(FinalOf(IntentOf(c), c.at)));
  }

  /** A final written for an intent is accepted exactly when none was before it. */
  lemma FinalAcceptedOnce(j: seq<Entry>, intent: Entry, at: Instant)
    requires ValidRepairs(j) && intent.RepairIntent? && Distinct(intent.items)
    requires FindRepairIntent(j, intent.repair) == Some(intent)
    ensures ValidRepairs(j + [FinalOf(intent, at)]) <==> !HasRepairFinal(j, intent.repair)
  {
    DistinctCandidates(intent.items);
    ValidAppend(j, FinalOf(intent, at));
  }

  /** recoverPendingRepair reads the journal before it takes the lock and does
      not look again once it has it. The journal it leaves is one the reader
      still accepts exactly when no other call appended the final in between,
      or recovery had nothing to append. */
  lemma UnlockedReadIsSafe(w: World, intent: Entry, c: RepairCall, valid: Tree -> bool)
    requires ValidRepairs(w.journal) && intent.RepairIntent? && Distinct(intent.items)
    requires FindRepairIntent(w.journal, intent.repair) == Some(intent)
    ensures ValidRepairs(ApplyAll(w, RecoveryEffects(intent, c, w.disk, valid)).journal)
            <==> (!HasRepairFinal(w.journal, intent.repair)
                  || FirstObstacle(intent.items, c.staged, w.disk).Some?
                  || !valid(RecoveredDisk(intent.items, c.staged, w.disk)))
  {
    RecoveryEffectsApply(w, intent, c, valid);
    FinalAcceptedOnce(w.journal, intent, c.at);
    AddNothing(w.journal);
  }

  /** Two recoveries that both read the open intent before either took the lock:
      the second appends a second final, and the journal no longer reads back. */
  lemma ConcurrentRecoveryBreaksJournal(w: World, c: RepairCall, start: World, valid: Tree -> bool, later: Instant)
    requires Startable(start, c) && Underway(w, c, start.disk) && ValidRepairs(w.journal)
    requires valid(Published(c.items, start.disk))
    ensures var one := ApplyAll(w, RecoveryEffects(IntentOf(c), c, w.disk, valid));
            var two := ApplyAll(one, RecoveryEffects(IntentOf(c), c.(at := later), one.disk, valid));
            ValidRepairs(one.journal) && !ValidRepairs(two.journal)
  {
    var intent := IntentOf(c);
    NoFinalCountsNone(w.journal, c.repair);
    RecoveredIsPublished(w, c, start.disk);
    RecoveryReachesTarget(w, c, start.disk);
    UnlockedReadIsSafe(w, intent, c, valid);
    FirstRecoveryLeaves(w, c, valid);
    var one := ApplyAll(w, RecoveryEffects(intent, c, w.disk, valid));
    FindIntentAppend(w.journal, FinalOf(intent, c.at), c.repair);
    assert one.journal[|w.journal|] == FinalOf(intent, c.at);
    TargetIsFixed(c.items, c.staged, one.disk, start.disk);
    UnlockedReadIsSafe(one, intent, c.(at := later), valid);
  }

  lemma FirstRecoveryLeaves(w: World, c: RepairCall, valid: Tree -> bool)
    requires FirstObstacle(c.items, c.staged, w.disk).None? && valid(RecoveredDisk(c.items, c.staged, w.disk))
    ensures ApplyAll(w, RecoveryEffects(IntentOf(c), c, w.disk, valid))
         == w.(journal := w.journal + [FinalOf(IntentOf(c), c.at)], disk := RecoveredDisk(c.items, c.staged, w.disk))
  {
    RecoveryEffectsApply(w, IntentOf(c), c, valid);
  }

  /** Recovering a finished disk changes nothing. */
  lemma TargetIsFixed(items: seq<RepairItem>, staged: map<ItemId, Revision>, disk: Tree, start: Tree)
    requires Distinct(items) && Staged(items, staged) && IsTarget(items, start, disk)
    ensures FirstObstacle(items, staged, disk).None? && RecoveredDisk(items, staged, disk) == disk
  {
    RecoveryFinishes(items, staged, disk);
    TargetIsUnique(items, disk, disk, RecoveredDisk(items, staged, disk));
  }

  /** Calls that run one after another keep the journal readable. */
  lemma CallKeepsJournalValid(w: World, c: RepairCall, a: Attempt, valid: Tree -> bool)
    requires ValidRepairs(w.journal) && Distinct(c.items)
    requires FindRepairIntent(w.journal, c.repair) in {None, Some(IntentOf(c))}
    ensures ValidRepairs(ApplyAll(w, AttemptEffects(w, c, a, valid)).journal)
  {
    var d := AttemptOf(c, a);
    var es := CallEffects(w, d, valid);
    if !HasRepairFinal(w.journal, c.repair) {
      if FindRepairIntent(w.journal, c.repair).Some? {
        UnlockedReadIsSafe(w, IntentOf(c), d, valid);
      } else if d.applicable {
        FreshJournalValid(w, d, valid);
      }
    }
    assert ValidRepairs(ApplyAll(w, es).journal);
    var kept := AttemptEffects(w, c, a, valid);
    PrefixJournal(w, kept, es);
    ValidPrefix(ApplyAll(w, es).journal, ApplyAll(w, kept).journal);
  }

  lemma ValidPrefix(j: seq<Entry>, p: seq<Entry>)
    requires ValidRepairs(j) && p <= j
    ensures ValidRepairs(p)
  {
    assert forall i :: 0 <= i < |p| ==> p[..i] == j[..i];
  }

  lemma FreshJournalValid(w: World, c: RepairCall, valid: Tree -> bool)
    requires ValidRepairs(w.journal) && Distinct(c.items)
    requires FindRepairIntent(w.journal, c.repair).None? && !HasRepairFinal(w.journal, c.repair)
    ensures ValidRepairs(ApplyAll(w, FreshEffects(c, w.disk, valid)).journal)
  {
    var intent := IntentOf(c);
    FreshEffectsApply(w, c, valid);
    ValidAppend(w.journal, intent);
    FindIntentAppend(w.journal, intent, c.repair);
    AppendedIsFinal(w.journal, intent, c.repair);
    AddNothing(w.journal + [intent]);
    FinalAcceptedOnce(w.journal + [intent], intent, c.at);
  }

  // ----- the protocol's Repair step -----

  lemma {:induction false} RecoveryOnlyWrites(items: seq<RepairItem>, staged: map<ItemId, Revision>, disk: Tree)
    ensures forall e :: e in RecoveryWrites(items, staged, disk) ==> e.Write?
    decreases |items|
  {
    if items != [] && ObstacleAt(items[0], staged, disk).None? {
      var next := disk[items[0].item := staged[items[0].item]];
      RecoveryOnlyWrites(items[1..], staged, next);
      assert next == disk || disk[items[0].item] != staged[items[0].item];
    }
  }

  /** A call is a Repair step of the protocol, so every theorem about runs of
      the protocol holds with number repairs anywhere in them. */
  lemma CallIsRepairStep(w: World, c: RepairCall, valid: Tree -> bool)
    ensures Admissible(w, Repair(CallEffects(w, c, valid)))
    ensures Effects(w, Repair(CallEffects(w, c, valid))) == CallEffects(w, c, valid)
  {
    var intent := FindRepairIntent(w.journal, c.repair);
    if intent.Some? {
      RecoveryOnlyWrites(intent.value.items, c.staged, w.disk);
    }
    assert forall e :: e in CallEffects(w, c, valid) ==> IsRepairEffect(e);
  }
}
