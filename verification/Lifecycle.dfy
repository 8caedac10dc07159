/** The native lifecycle of src/lifecycle.js and the transition that executes it
    in src/mutation.js: which edges exist, what refuses them, and what every run
    of accepted transitions keeps. */
module Lifecycle {
  import opened Options
  import opened Sorting
  import opened Ledger

  datatype Action = Accept | Kill | Defer | Undefer | Archive | Complete | Restore

  datatype Evidence = Absent | Given | Malformed

  datatype Request = Request(id: Id, to: Status, date: Date, decision: Evidence)

  /** In the order the source sorts them: by code. */
  datatype Issue =
    | DateBeforeCreated
    | DateBeforeUpdated
    | InvalidEdge
    | LiveDependencies(ids: seq<Id>)
    | NonterminalChildren(ids: seq<Id>)

  datatype BlockerCode = ChildDisposition | DependentCleanup | DependentDisposition

  datatype Blocker = Blocker(code: BlockerCode, item: Id)

  datatype Outcome =
    | AtomicScopeRequired(blockers: seq<Blocker>, issues: seq<Issue>)
    | PreconditionFailed(issues: seq<Issue>)
    | InvalidDecision
    | Accepted(successor: Item)

  // ----- edges -----

  function ActionOf(kind: Kind, from: Status, to: Status): Option<Action> {
    match (from, to)
    case (Triage, Backlog) => Some(Accept)
    case (Triage, Killed) => Some(Kill)
    case (Backlog, Deferred) => Some(Defer)
    case (Deferred, Backlog) => Some(Undefer)
    case (Backlog, Archived) => Some(Archive)
    case (Backlog, Killed) => Some(Kill)
    case (InProgress, Done) => if kind.Task? then Some(Complete) else None
    case (InProgress, Killed) => if kind.Task? then Some(Kill) else None
    case (Backlog, Done) => if kind.Epic? then Some(Complete) else None
    case (Archived, Backlog) => Some(Restore)
    case _ => None
  }

  predicate EdgeAllowed(kind: Kind, from: Status, to: Status) {
    || (from.Triage? && (to.Backlog? || to.Killed?))
    || (from.Backlog? && ((kind.Task? && to.InProgress?) || to in {Archived, Killed, Deferred}))
    || (from.Deferred? && to.Backlog?)
    || (kind.Task? && from.InProgress? && to in {Backlog, Done, Killed})
    || (kind.Epic? && from.Backlog? && to in {Done, Archived, Killed})
    || (from.Archived? && to.Backlog?)
  }

  /** Every edge with a decision action is allowed, and the only allowed edges
      without one move a task between backlog and in progress. */
  lemma ActionsFollowEdges(kind: Kind, from: Status, to: Status)
    ensures ActionOf(kind, from, to).Some? ==> EdgeAllowed(kind, from, to)
    ensures (EdgeAllowed(kind, from, to) && ActionOf(kind, from, to).None?)
            <==> (kind.Task? && ((from.Backlog? && to.InProgress?) || (from.InProgress? && to.Backlog?)))
  {
  }

  // ----- preconditions -----

  function FindItem(ledger: seq<Item>, id: Id): (r: Option<Item>)
    ensures r.Some? ==> r.value in ledger && r.value.id == id
  {
    if ledger == [] then None
    else if ledger[0].id == id then Some(ledger[0])
    else FindItem(ledger[1..], id)
  }

  function MinimumTransitionDate(item: Item): Date {
    if item.updated > item.created then item.updated else item.created
  }

  predicate IsDone(ledger: seq<Item>, id: Id) {
    var found := FindItem(ledger, id);
    found.Some? && found.value.status.Done?
  }

  /** The dependencies that keep an item from completing: on schema 1, all. */
  function UnmetDependencies(target: Item, ledger: seq<Item>, dependencies: seq<Id>): seq<Id> {
    if dependencies == [] then []
    else
      var k := |dependencies| - 1;
      UnmetDependencies(target, ledger, dependencies[..k])
      + (if target.schema2 && IsDone(ledger, dependencies[k]) then [] else [dependencies[k]])
  }

  predicate Terminal(status: Status) {
    status.Done? || status.Killed?
  }

  function OpenChildren(target: Item, ledger: seq<Item>): seq<Id> {
    if ledger == [] then []
    else
      var k := |ledger| - 1;
      OpenChildren(target, ledger[..k])
      + (if ledger[k].parent == Some(target.id) && !Terminal(ledger[k].status) then [ledger[k].id] else [])
  }

  predicate Lesser(a: Id, b: Id) {
    a < b
  }

  function SortedIds(ids: seq<Id>): seq<Id> {
    Sorted(ids, Lesser)
  }

  /** The related IDs are listed in order, each as often as it was found. */
  lemma SortedIdsIs(ids: seq<Id>)
    ensures multiset(SortedIds(ids)) == multiset(ids)
    ensures forall i, k :: 0 <= i < k < |SortedIds(ids)| ==> SortedIds(ids)[i] <= SortedIds(ids)[k]
  {
    SortedCounts(ids, Lesser);
    SortedInOrder(ids, Lesser);
  }

  function DateIssues(target: Item, request: Request): seq<Issue> {
    (if request.date < target.created then [DateBeforeCreated] else [])
    + (if request.date < target.updated then [DateBeforeUpdated] else [])
  }

  function EdgeIssues(target: Item, request: Request): seq<Issue> {
    if EdgeAllowed(target.kind, target.status, request.to) then [] else [InvalidEdge]
  }

  function DependencyIssues(target: Item, ledger: seq<Item>, request: Request): seq<Issue> {
    var live := UnmetDependencies(target, ledger, target.dependsOn);
    if request.to.Done? && live != [] then [Issue.LiveDependencies(SortedIds(live))] else []
  }

  function ChildIssues(target: Item, ledger: seq<Item>, request: Request): seq<Issue> {
    var open := OpenChildren(target, ledger);
    if target.kind.Epic? && request.to.Done? && open != [] then [NonterminalChildren(SortedIds(open))] else []
  }

  /** The issues in the order their codes sort, which is the order found. */
  function Issues(target: Item, ledger: seq<Item>, request: Request): seq<Issue> {
    DateIssues(target, request) + EdgeIssues(target, request)
    + DependencyIssues(target, ledger, request) + ChildIssues(target, ledger, request)
  }

  method TransitionPreconditions(target: Item, ledger: seq<Item>, request: Request) returns (issues: seq<Issue>)
    ensures issues == Issues(target, ledger, request)
  {
    issues := CheckDates(target, request);
    if !EdgeAllowed(target.kind, target.status, request.to) {
      issues := issues + [InvalidEdge];
    }
    ghost var start := DateIssues(target, request) + EdgeIssues(target, request);
    assert issues == start;
    var live := CollectLiveDependencies(target, ledger);
    if request.to.Done? && live != [] {
      issues := issues + [Issue.LiveDependencies(SortedIds(live))];
    }
    ghost var middle := start + DependencyIssues(target, ledger, request);
    assert issues == middle;
    if target.kind.Epic? && request.to.Done? {
      var open := CollectOpenChildren(target, ledger);
      if open != [] {
        issues := issues + [NonterminalChildren(SortedIds(open))];
      }
    }
    assert issues == middle + ChildIssues(target, ledger, request);
  }

  method CheckDates(target: Item, request: Request) returns (issues: seq<Issue>)
    ensures issues == DateIssues(target, request)
  {
    issues := [];
    if request.date < target.created {
      issues := issues + [DateBeforeCreated];
    }
    if request.date < target.updated {
      issues := issues + [DateBeforeUpdated];
    }
  }

  method CollectLiveDependencies(target: Item, ledger: seq<Item>) returns (live: seq<Id>)
    ensures live == UnmetDependencies(target, ledger, target.dependsOn)
  {
    live := [];
    for i := 0 to |target.dependsOn|
      invariant live == UnmetDependencies(target, ledger, target.dependsOn[..i])
    {
      assert target.dependsOn[..i + 1][..i] == target.dependsOn[..i];
      if !(target.schema2 && IsDone(ledger, target.dependsOn[i])) {
        live := live + [target.dependsOn[i]];
      }
    }
    assert target.dependsOn[..|target.dependsOn|] == target.dependsOn;
  }

  method CollectOpenChildren(target: Item, ledger: seq<Item>) returns (open: seq<Id>)
    ensures open == OpenChildren(target, ledger)
  {
    open := [];
    for i := 0 to |ledger|
      invariant open == OpenChildren(target, ledger[..i])
    {
      assert ledger[..i + 1][..i] == ledger[..i];
      if ledger[i].parent == Some(target.id) && !Terminal(ledger[i].status) {
        open := open + [ledger[i].id];
      }
    }
    assert ledger[..|ledger|] == ledger;
  }

  // ----- blockers -----

  predicate BlocksAsDependent(target: Item, to: Status, x: Item) {
    (to.Killed? || to.Archived? || (to.Done? && !target.schema2)) && x.id != target.id && target.id in x.dependsOn
  }

  predicate BlocksAsChild(target: Item, to: Status, x: Item) {
    target.kind.Epic? && (to.Killed? || to.Archived?)
    && x.parent == Some(target.id) && (x.status.Triage? || x.status.Backlog? || x.status.InProgress?)
  }

  function DependentBlocker(to: Status, x: Item): Blocker {
    Blocker(if to.Done? then DependentCleanup else DependentDisposition, x.id)
  }

  function CodeRank(code: BlockerCode): nat {
    match code
    case ChildDisposition => 0
    case DependentCleanup => 1
    case DependentDisposition => 2
  }

  predicate Precedes(a: Blocker, b: Blocker) {
    if a.code != b.code then CodeRank(a.code) < CodeRank(b.code) else a.item < b.item
  }

  function DependentBlockers(target: Item, ledger: seq<Item>, to: Status): seq<Blocker> {
    if ledger == [] then []
    else
      var k := |ledger| - 1;
      DependentBlockers(target, ledger[..k], to)
      + (if BlocksAsDependent(target, to, ledger[k]) then [DependentBlocker(to, ledger[k])] else [])
  }

  function ChildBlockers(target: Item, ledger: seq<Item>, to: Status): seq<Blocker> {
    if ledger == [] then []
    else
      var k := |ledger| - 1;
      ChildBlockers(target, ledger[..k], to)
      + (if BlocksAsChild(target, to, ledger[k]) then [Blocker(ChildDisposition, ledger[k].id)] else [])
  }

  /** Another item, listed under `id`, names `dependency` in its dependencies. */
  ghost predicate DependentUnder(ledger: seq<Item>, dependency: Id, id: Id) {
    id != dependency && exists i :: 0 <= i < |ledger| && ledger[i].id == id && dependency in ledger[i].dependsOn
  }

  /** An item listed under `id` is a child that is neither finished nor set aside. */
  ghost predicate OpenUnder(ledger: seq<Item>, parent: Id, id: Id) {
    exists i :: 0 <= i < |ledger| && ledger[i].id == id && ledger[i].parent == Some(parent)
                && ledger[i].status in {Triage, Backlog, InProgress}
  }

  predicate Drops(to: Status) {
    to in {Killed, Archived}
  }

  /** What an item's blockers are, in terms of the ledger alone. */
  ghost predicate BlockersAre(target: Item, ledger: seq<Item>, to: Status, blockers: seq<Blocker>) {
    && (forall id :: Blocker(ChildDisposition, id) in blockers
                     <==> target.kind.Epic? && Drops(to) && OpenUnder(ledger, target.id, id))
    && (forall id :: Blocker(DependentDisposition, id) in blockers
                     <==> Drops(to) && DependentUnder(ledger, target.id, id))
    && (forall id :: Blocker(DependentCleanup, id) in blockers
                     <==> to.Done? && !target.schema2 && DependentUnder(ledger, target.id, id))
  }

  /** Children first, then dependents, each by ID; with distinct IDs no blocker
      is listed twice. */
  ghost predicate BlockersInOrder(ledger: seq<Item>, blockers: seq<Blocker>) {
    forall i, k :: 0 <= i < k < |blockers| ==>
      && (blockers[k].code.ChildDisposition? ==> blockers[i].code.ChildDisposition?)
      && (blockers[i].code == blockers[k].code ==> blockers[i].item <= blockers[k].item)
      && (DistinctIds(ledger) ==> blockers[i] != blockers[k])
  }

  lemma {:induction false} DependentsListed(target: Item, ledger: seq<Item>, to: Status, b: Blocker)
    ensures b in DependentBlockers(target, ledger, to)
            <==> && (Drops(to) || (to.Done? && !target.schema2))
                 && b.code == (if to.Done? then DependentCleanup else DependentDisposition)
                 && DependentUnder(ledger, target.id, b.item)
  {
    if ledger == [] {
    } else {
      var k := |ledger| - 1;
      DependentsListed(target, ledger[..k], to, b);
      assert DependentUnder(ledger, target.id, b.item)
        <==> DependentUnder(ledger[..k], target.id, b.item)
             || (b.item != target.id && ledger[k].id == b.item && target.id in ledger[k].dependsOn);
    }
  }

  lemma {:induction false} ChildrenListed(target: Item, ledger: seq<Item>, to: Status, b: Blocker)
    ensures b in ChildBlockers(target, ledger, to)
            <==> target.kind.Epic? && Drops(to) && b.code.ChildDisposition? && OpenUnder(ledger, target.id, b.item)
  {
    if ledger == [] {
    } else {
      var k := |ledger| - 1;
      ChildrenListed(target, ledger[..k], to, b);
      assert OpenUnder(ledger, target.id, b.item)
        <==> OpenUnder(ledger[..k], target.id, b.item)
             || (ledger[k].id == b.item && ledger[k].parent == Some(target.id)
                 && ledger[k].status in {Triage, Backlog, InProgress});
    }
  }

  function Itself(b: Blocker): Blocker {
    b
  }

  lemma {:induction false} DependentsOnce(target: Item, ledger: seq<Item>, to: Status)
    requires DistinctIds(ledger)
    ensures DistinctBy(DependentBlockers(target, ledger, to), Itself)
  {
    if ledger == [] {
    } else {
      var k := |ledger| - 1;
      DependentsOnce(target, ledger[..k], to);
      DependentsListed(target, ledger[..k], to, DependentBlocker(to, ledger[k]));
    }
  }

  lemma {:induction false} ChildrenOnce(target: Item, ledger: seq<Item>, to: Status)
    requires DistinctIds(ledger)
    ensures DistinctBy(ChildBlockers(target, ledger, to), Itself)
  {
    if ledger == [] {
    } else {
      var k := |ledger| - 1;
      ChildrenOnce(target, ledger[..k], to);
      ChildrenListed(target, ledger[..k], to, Blocker(ChildDisposition, ledger[k].id));
    }
  }

  lemma BlockersListed(target: Item, ledger: seq<Item>, to: Status, blockers: seq<Blocker>, id: Id)
    requires blockers == Sorted(DependentBlockers(target, ledger, to) + ChildBlockers(target, ledger, to), Precedes)
    ensures Blocker(ChildDisposition, id) in blockers
            <==> target.kind.Epic? && Drops(to) && OpenUnder(ledger, target.id, id)
    ensures Blocker(DependentDisposition, id) in blockers <==> Drops(to) && DependentUnder(ledger, target.id, id)
    ensures Blocker(DependentCleanup, id) in blockers
            <==> to.Done? && !target.schema2 && DependentUnder(ledger, target.id, id)
  {
    BlockerListed(target, ledger, to, blockers, Blocker(ChildDisposition, id));
    BlockerListed(target, ledger, to, blockers, Blocker(DependentDisposition, id));
    BlockerListed(target, ledger, to, blockers, Blocker(DependentCleanup, id));
  }

  lemma BlockerListed(target: Item, ledger: seq<Item>, to: Status, blockers: seq<Blocker>, b: Blocker)
    requires blockers == Sorted(DependentBlockers(target, ledger, to) + ChildBlockers(target, ledger, to), Precedes)
    ensures b in blockers
            <==> || (&& (Drops(to) || (to.Done? && !target.schema2))
                     && b.code == (if to.Done? then DependentCleanup else DependentDisposition)
                     && DependentUnder(ledger, target.id, b.item))
                 || (target.kind.Epic? && Drops(to) && b.code.ChildDisposition? && OpenUnder(ledger, target.id, b.item))
  {
    SortedIs(DependentBlockers(target, ledger, to) + ChildBlockers(target, ledger, to), Precedes, b);
    DependentsListed(target, ledger, to, b);
    ChildrenListed(target, ledger, to, b);
  }

  lemma FoundOnce(target: Item, ledger: seq<Item>, to: Status)
    requires DistinctIds(ledger)
    ensures DistinctBy(DependentBlockers(target, ledger, to) + ChildBlockers(target, ledger, to), Itself)
  {
    DependentsOnce(target, ledger, to);
    ChildrenOnce(target, ledger, to);
    var dependents, children := DependentBlockers(target, ledger, to), ChildBlockers(target, ledger, to);
    forall i, k | 0 <= i < |dependents| && 0 <= k < |children| ensures dependents[i] != children[k] {
      DependentsListed(target, ledger, to, dependents[i]);
      ChildrenListed(target, ledger, to, children[k]);
    }
  }

  lemma BlockersOrdered(target: Item, ledger: seq<Item>, to: Status, found: seq<Blocker>, blockers: seq<Blocker>)
    requires found == DependentBlockers(target, ledger, to) + ChildBlockers(target, ledger, to)
    requires blockers == Sorted(found, Precedes)
    ensures BlockersInOrder(ledger, blockers)
  {
    SortedInOrder(found, Precedes);
    if DistinctIds(ledger) {
      FoundOnce(target, ledger, to);
      SortedDistinct(found, Precedes, Itself);
    }
    forall i, k | 0 <= i < k < |blockers|
      ensures blockers[k].code.ChildDisposition? ==> blockers[i].code.ChildDisposition?
      ensures blockers[i].code == blockers[k].code ==> blockers[i].item <= blockers[k].item
      ensures DistinctIds(ledger) ==> blockers[i] != blockers[k]
    {
      assert !Precedes(blockers[k], blockers[i]);
      assert DistinctIds(ledger) ==> Itself(blockers[i]) != Itself(blockers[k]);
    }
  }

  method TransitionBlockers(target: Item, ledger: seq<Item>, to: Status) returns (blockers: seq<Blocker>)
    ensures BlockersAre(target, ledger, to, blockers)
    ensures BlockersInOrder(ledger, blockers)
  {
    var found: seq<Blocker> := [];
    for i := 0 to |ledger|
      invariant found == DependentBlockers(target, ledger[..i], to)
    {
      assert ledger[..i + 1][..i] == ledger[..i];
      if BlocksAsDependent(target, to, ledger[i]) {
        found := found + [DependentBlocker(to, ledger[i])];
      }
    }
    assert ledger[..|ledger|] == ledger;
    ghost var dependents := found;
    for i := 0 to |ledger|
      invariant found == dependents + ChildBlockers(target, ledger[..i], to)
    {
      assert ledger[..i + 1][..i] == ledger[..i];
      if BlocksAsChild(target, to, ledger[i]) {
        found := found + [Blocker(ChildDisposition, ledger[i].id)];
      }
    }
    blockers := Sorted(found, Precedes);
    BlockersOrdered(target, ledger, to, found, blockers);
    forall id {
      BlockersListed(target, ledger, to, blockers, id);
    }
  }

  // ----- one transition -----

  predicate DecisionFits(target: Item, request: Request) {
    if ActionOf(target.kind, target.status, request.to).Some? then request.decision.Given? else request.decision.Absent?
  }

  /** What an accepted transition has to satisfy, clause by clause. */
  predicate Acceptable(target: Item, ledger: seq<Item>, request: Request) {
    && request.date >= target.created && request.date >= target.updated
    && EdgeAllowed(target.kind, target.status, request.to)
    && (request.to.Done? ==> forall i :: 0 <= i < |target.dependsOn| ==> target.schema2 && IsDone(ledger, target.dependsOn[i]))
    && (request.to.Done? && target.kind.Epic? ==>
          forall i :: 0 <= i < |ledger| && ledger[i].parent == Some(target.id) ==> Terminal(ledger[i].status))
    && (Drops(request.to) || (request.to.Done? && !target.schema2) ==>
          forall i :: 0 <= i < |ledger| && target.id in ledger[i].dependsOn ==> ledger[i].id == target.id)
    && (Drops(request.to) && target.kind.Epic? ==>
          forall i :: 0 <= i < |ledger| && ledger[i].parent == Some(target.id) ==>
            ledger[i].status !in {Triage, Backlog, InProgress})
    && DecisionFits(target, request)
  }

  function Successor(target: Item, request: Request): Item {
    target.(status := request.to, updated := request.date)
  }

  lemma {:induction false} NoLiveDependencies(target: Item, ledger: seq<Item>, dependencies: seq<Id>)
    ensures UnmetDependencies(target, ledger, dependencies) == []
            <==> (forall i :: 0 <= i < |dependencies| ==> target.schema2 && IsDone(ledger, dependencies[i]))
  {
    if dependencies == [] {
    } else {
      NoLiveDependencies(target, ledger, dependencies[..|dependencies| - 1]);
    }
  }

  lemma {:induction false} NoOpenChildren(target: Item, ledger: seq<Item>)
    ensures OpenChildren(target, ledger) == []
            <==> (forall i :: 0 <= i < |ledger| && ledger[i].parent == Some(target.id) ==> Terminal(ledger[i].status))
  {
    if ledger == [] {
    } else {
      NoOpenChildren(target, ledger[..|ledger| - 1]);
    }
  }

  /** Another item stands in the way: a dependent that would be left behind, or
      an open child of an epic being dropped. */
  ghost predicate SomethingBlocks(target: Item, ledger: seq<Item>, to: Status) {
    || ((Drops(to) || (to.Done? && !target.schema2)) && exists id :: DependentUnder(ledger, target.id, id))
    || (Drops(to) && target.kind.Epic? && exists id :: OpenUnder(ledger, target.id, id))
  }

  lemma NothingBlocks(target: Item, ledger: seq<Item>, to: Status, blockers: seq<Blocker>)
    requires BlockersAre(target, ledger, to, blockers)
    ensures blockers == [] <==> !SomethingBlocks(target, ledger, to)
  {
    if blockers != [] {
      var b := blockers[0];
      assert b in blockers;
      match b.code
      case ChildDisposition => assert b == Blocker(ChildDisposition, b.item);
      case DependentCleanup => assert b == Blocker(DependentCleanup, b.item);
      case DependentDisposition => assert b == Blocker(DependentDisposition, b.item);
    }
    if SomethingBlocks(target, ledger, to) {
      if Drops(to) && target.kind.Epic? && exists id :: OpenUnder(ledger, target.id, id) {
        var id :| OpenUnder(ledger, target.id, id);
        assert Blocker(ChildDisposition, id) in blockers;
      } else {
        var id :| DependentUnder(ledger, target.id, id);
        assert Blocker(DependentDisposition, id) in blockers || Blocker(DependentCleanup, id) in blockers;
      }
    }
  }

  lemma AcceptableUnless(target: Item, ledger: seq<Item>, request: Request)
    ensures Acceptable(target, ledger, request)
            <==> && !SomethingBlocks(target, ledger, request.to)
                 && Issues(target, ledger, request) == []
                 && DecisionFits(target, request)
  {
    NoLiveDependencies(target, ledger, target.dependsOn);
    NoOpenChildren(target, ledger);
    if !SomethingBlocks(target, ledger, request.to) {
      forall i | 0 <= i < |ledger| && target.id in ledger[i].dependsOn && ledger[i].id != target.id
        ensures DependentUnder(ledger, target.id, ledger[i].id)
      {
      }
      forall i | 0 <= i < |ledger| && ledger[i].parent == Some(target.id) && ledger[i].status in {Triage, Backlog, InProgress}
        ensures OpenUnder(ledger, target.id, ledger[i].id)
      {
      }
    }
  }

  /** Blockers are reported before issues, and issues before a decision that does
      not fit; what is left is accepted. */
  method BuildTransition(target: Item, ledger: seq<Item>, request: Request) returns (outcome: Outcome)
    ensures outcome.Accepted? <==> Acceptable(target, ledger, request)
    ensures outcome.Accepted? ==> outcome.successor == target.(status := request.to, updated := request.date)
    ensures outcome.AtomicScopeRequired? <==> SomethingBlocks(target, ledger, request.to)
    ensures outcome.AtomicScopeRequired? ==>
              && outcome.issues == Issues(target, ledger, request)
              && BlockersAre(target, ledger, request.to, outcome.blockers) && BlockersInOrder(ledger, outcome.blockers)
    ensures outcome.PreconditionFailed?
            <==> !SomethingBlocks(target, ledger, request.to) && Issues(target, ledger, request) != []
    ensures outcome.PreconditionFailed? ==> outcome.issues == Issues(target, ledger, request)
  {
    var issues := TransitionPreconditions(target, ledger, request);
    var blockers := TransitionBlockers(target, ledger, request.to);
    NothingBlocks(target, ledger, request.to, blockers);
    AcceptableUnless(target, ledger, request);
    if blockers != [] {
      return AtomicScopeRequired(blockers, issues);
    }
    if issues != [] {
      return PreconditionFailed(issues);
    }
    if !DecisionFits(target, request) {
      return InvalidDecision;
    }
    return Accepted(Successor(target, request));
  }

  /** The minimum date is exactly the bound the two date checks enforce. */
  lemma MinimumDateIsExact(target: Item, ledger: seq<Item>, request: Request)
    ensures (DateBeforeCreated in Issues(target, ledger, request) || DateBeforeUpdated in Issues(target, ledger, request))
            <==> request.date < MinimumTransitionDate(target)
  {
    var issues := Issues(target, ledger, request);
    if request.date < target.created {
      assert issues[0] == DateBeforeCreated;
    } else if request.date < target.updated {
      assert issues[0] == DateBeforeUpdated;
    }
  }

  // ----- runs -----

  function Transition(ledger: seq<Item>, request: Request): seq<Item> {
    var target := FindItem(ledger, request.id);
    if target.Some? && Acceptable(target.value, ledger, request)
    then Replaced(ledger, target.value, Successor(target.value, request)) else ledger
  }

  /** The ledger with the first listing under the item's ID replaced. */
  function Replaced(ledger: seq<Item>, target: Item, successor: Item): (r: seq<Item>)
    ensures |r| == |ledger|
  {
    if ledger == [] then []
    else if ledger[0].id == target.id then [successor] + ledger[1..]
    else [ledger[0]] + Replaced(ledger[1..], target, successor)
  }

  function Transitions(ledger: seq<Item>, requests: seq<Request>): (r: seq<Item>)
    ensures |r| == |ledger|
  {
    if requests == [] then ledger
    else Transition(Transitions(ledger, requests[..|requests| - 1]), requests[|requests| - 1])
  }

  /** What one transition may do to each position. */
  lemma TransitionAt(ledger: seq<Item>, request: Request, i: nat)
    requires DistinctIds(ledger) && i < |ledger|
    ensures var r := Transition(ledger, request);
            r[i] == if ledger[i].id == request.id && Acceptable(ledger[i], ledger, request)
                    then Successor(ledger[i], request) else ledger[i]
  {
    FoundAt(ledger, request.id, i);
    var target := FindItem(ledger, request.id);
    if target.Some? {
      ReplacedAt(ledger, target.value, Successor(target.value, request), i);
    }
  }

  lemma {:induction false} FoundAt(ledger: seq<Item>, id: Id, i: nat)
    requires DistinctIds(ledger) && i < |ledger|
    ensures ledger[i].id == id ==> FindItem(ledger, id) == Some(ledger[i])
  {
    if i == 0 {
    } else {
      FoundAt(ledger[1..], id, i - 1);
    }
  }

  lemma {:induction false} ReplacedAt(ledger: seq<Item>, target: Item, successor: Item, i: nat)
    requires DistinctIds(ledger) && i < |ledger|
    ensures Replaced(ledger, target, successor)[i] == if ledger[i].id == target.id then successor else ledger[i]
  {
    if i > 0 && ledger[0].id != target.id {
      ReplacedAt(ledger[1..], target, successor, i - 1);
    }
  }

  /** A step changes only status and update date, along an allowed edge, never
      out of done or killed, and never backward in time. */
  lemma StepAt(ledger: seq<Item>, request: Request, i: nat)
    requires DistinctIds(ledger) && i < |ledger|
    ensures var before, after := ledger[i], Transition(ledger, request)[i];
            && after == before.(status := after.status, updated := after.updated)
            && before.updated <= after.updated
            && (Terminal(before.status) ==> after == before)
            && (after.status != before.status ==> Acceptable(before, ledger, request) && after.status == request.to)
  {
    TransitionAt(ledger, request, i);
  }

  lemma StepKeepsIds(ledger: seq<Item>, request: Request)
    requires DistinctIds(ledger)
    ensures DistinctIds(Transition(ledger, request))
  {
    forall i | 0 <= i < |ledger| ensures Transition(ledger, request)[i].id == ledger[i].id {
      StepAt(ledger, request, i);
    }
  }

  /** Over any run of requests, accepted or refused, done and killed are
      absorbing and no item's update date falls. */
  lemma {:induction false} TerminalAbsorbs(ledger: seq<Item>, requests: seq<Request>, i: nat)
    requires DistinctIds(ledger) && i < |ledger|
    ensures DistinctIds(Transitions(ledger, requests))
    ensures Terminal(ledger[i].status) ==> Transitions(ledger, requests)[i] == ledger[i]
    ensures ledger[i].updated <= Transitions(ledger, requests)[i].updated
    ensures Transitions(ledger, requests)[i].id == ledger[i].id
  {
    if requests == [] {
    } else {
      var k := |requests| - 1;
      TerminalAbsorbs(ledger, requests[..k], i);
      var before := Transitions(ledger, requests[..k]);
      StepAt(before, requests[k], i);
      StepKeepsIds(before, requests[k]);
    }
  }

  // ----- facts every run preserves -----

  /** Every dependency of a done schema 2 item is done. */
  ghost predicate DoneDependsOnDone(ledger: seq<Item>) {
    forall i :: 0 <= i < |ledger| && ledger[i].schema2 && ledger[i].status.Done? ==>
      forall d :: d in ledger[i].dependsOn ==> IsDone(ledger, d)
  }

  /** A done epic has only done or killed children. */
  ghost predicate DoneEpicsAreClosed(ledger: seq<Item>) {
    forall i, k :: 0 <= i < |ledger| && 0 <= k < |ledger|
                   && ledger[i].kind.Epic? && ledger[i].status.Done? && ledger[k].parent == Some(ledger[i].id) ==>
      Terminal(ledger[k].status)
  }

  /** Nothing else depends on a killed or archived item. */
  ghost predicate DroppedHasNoDependents(ledger: seq<Item>) {
    forall i, k :: 0 <= i < |ledger| && 0 <= k < |ledger| && ledger[k].id != ledger[i].id
                   && (ledger[i].status.Killed? || ledger[i].status.Archived?) ==>
      ledger[i].id !in ledger[k].dependsOn
  }

  /** Done items are still found done after a step. */
  lemma DoneStays(ledger: seq<Item>, request: Request, d: Id)
    requires DistinctIds(ledger) && IsDone(ledger, d)
    ensures IsDone(Transition(ledger, request), d)
  {
    var i :| 0 <= i < |ledger| && ledger[i] == FindItem(ledger, d).value;
    StepAt(ledger, request, i);
    StepKeepsIds(ledger, request);
    FoundAt(Transition(ledger, request), d, i);
  }

  lemma StepKeepsDependencies(ledger: seq<Item>, request: Request)
    requires DistinctIds(ledger) && DoneDependsOnDone(ledger)
    ensures DoneDependsOnDone(Transition(ledger, request))
  {
    var after := Transition(ledger, request);
    forall i, d | 0 <= i < |after| && after[i].schema2 && after[i].status.Done? && d in after[i].dependsOn
      ensures IsDone(after, d)
    {
      StepAt(ledger, request, i);
      DoneStays(ledger, request, d);
    }
  }

  lemma StepKeepsEpics(ledger: seq<Item>, request: Request)
    requires DistinctIds(ledger) && DoneEpicsAreClosed(ledger)
    ensures DoneEpicsAreClosed(Transition(ledger, request))
  {
    var after := Transition(ledger, request);
    forall i, k | 0 <= i < |after| && 0 <= k < |after|
                  && after[i].kind.Epic? && after[i].status.Done? && after[k].parent == Some(after[i].id)
      ensures Terminal(after[k].status)
    {
      StepAt(ledger, request, i);
      StepAt(ledger, request, k);
    }
  }

  lemma StepKeepsDropped(ledger: seq<Item>, request: Request)
    requires DistinctIds(ledger) && DroppedHasNoDependents(ledger)
    ensures DroppedHasNoDependents(Transition(ledger, request))
  {
    var after := Transition(ledger, request);
    forall i, k | 0 <= i < |after| && 0 <= k < |after| && after[k].id != after[i].id
                  && (after[i].status.Killed? || after[i].status.Archived?)
      ensures after[i].id !in after[k].dependsOn
    {
      StepAt(ledger, request, i);
      StepAt(ledger, request, k);
      if after[i].status != ledger[i].status {
        assert ledger[i].id !in ledger[k].dependsOn;
      }
    }
  }

  /** Whatever is transitioned, in whatever order, the three facts survive. */
  lemma {:induction false} RunsKeepFacts(ledger: seq<Item>, requests: seq<Request>)
    requires DistinctIds(ledger)
    requires DoneDependsOnDone(ledger) && DoneEpicsAreClosed(ledger) && DroppedHasNoDependents(ledger)
    ensures var after := Transitions(ledger, requests);
            DistinctIds(after) && DoneDependsOnDone(after) && DoneEpicsAreClosed(after) && DroppedHasNoDependents(after)
  {
    if requests == [] {
    } else {
      var k := |requests| - 1;
      RunsKeepFacts(ledger, requests[..k]);
      var before := Transitions(ledger, requests[..k]);
      StepKeepsIds(before, requests[k]);
      StepKeepsDependencies(before, requests[k]);
      StepKeepsEpics(before, requests[k]);
      StepKeepsDropped(before, requests[k]);
    }
  }
}
