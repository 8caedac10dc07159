/** What src/lifecycle.js promises, said of ledgers and requests alone: which
    edges there are and which action each takes, what each refusal lists, and what
    becomes of dropped items in one step and over runs. */
module LifecycleLaws {
  import opened Options
  import opened Seqs
  import opened Ledger
  import opened Lifecycle

  // ----- edges and actions -----

  /** The edges of the action table, and the two that take no action. */
  ghost predicate Edge(kind: Kind, from: Status, to: Status) {
    || (from, to) in {(Triage, Backlog), (Triage, Killed), (Backlog, Deferred), (Backlog, Archived), (Backlog, Killed),
                      (Deferred, Backlog), (Archived, Backlog)}
    || (kind.Task? && (from, to) in {(Backlog, InProgress), (InProgress, Backlog), (InProgress, Done), (InProgress, Killed)})
    || (kind.Epic? && (from, to) == (Backlog, Done))
  }

  /** A task taken up or put back. */
  ghost predicate Moves(from: Status, to: Status) {
    (from == Backlog && to == InProgress) || (from == InProgress && to == Backlog)
  }

  /** A decision is due on every edge but a task's moves in and out of progress,
      and the action it records is the one its target, or its origin, names. */
  lemma EdgesExactly(kind: Kind, from: Status, to: Status)
    ensures EdgeAllowed(kind, from, to) <==> Edge(kind, from, to)
    ensures var action := ActionOf(kind, from, to);
            && (action.Some? <==> Edge(kind, from, to) && !Moves(from, to))
            && (action == Some(Kill) <==> Edge(kind, from, to) && to == Killed)
            && (action == Some(Complete) <==> Edge(kind, from, to) && to == Done)
            && (action == Some(Archive) <==> Edge(kind, from, to) && to == Archived)
            && (action == Some(Defer) <==> Edge(kind, from, to) && to == Deferred)
            && (action == Some(Accept) <==> Edge(kind, from, to) && from == Triage && to == Backlog)
            && (action == Some(Undefer) <==> Edge(kind, from, to) && from == Deferred)
            && (action == Some(Restore) <==> Edge(kind, from, to) && from == Archived)
  {
  }

  // ----- what the issues list -----

  /** The first item listed under `id`, which is the one a search finds, is done. */
  ghost predicate FirstIsDone(ledger: seq<Item>, id: Id) {
    exists i :: 0 <= i < |ledger| && ledger[i].id == id && ledger[i].status == Done
                && forall k :: 0 <= k < i ==> ledger[k].id != id
  }

  lemma {:induction false} IsDoneExactly(ledger: seq<Item>, id: Id)
    ensures IsDone(ledger, id) <==> FirstIsDone(ledger, id)
  {
    if ledger == [] {
    } else if ledger[0].id == id {
      assert FirstIsDone(ledger, id) <==> ledger[0].status == Done;
    } else {
      IsDoneExactly(ledger[1..], id);
      if FirstIsDone(ledger[1..], id) {
        var i :| 0 <= i < |ledger| - 1 && ledger[1..][i].id == id && ledger[1..][i].status == Done
                 && forall k :: 0 <= k < i ==> ledger[1..][k].id != id;
        assert ledger[i + 1].id == id && forall k :: 0 < k < i + 1 ==> ledger[k].id == ledger[1..][k - 1].id;
      }
      if FirstIsDone(ledger, id) {
        var i :| 0 <= i < |ledger| && ledger[i].id == id && ledger[i].status == Done
                 && forall k :: 0 <= k < i ==> ledger[k].id != id;
        assert ledger[1..][i - 1] == ledger[i];
      }
    }
  }

  /** The live dependencies are those of the list that are not done, in the order
      and as often as listed; all of them on schema 1. */
  lemma {:induction false} LiveDependenciesAre(target: Item, ledger: seq<Item>, dependencies: seq<Id>, d: Id)
    ensures var live := UnmetDependencies(target, ledger, dependencies);
            multiset(live)[d] == if target.schema2 && FirstIsDone(ledger, d) then 0 else multiset(dependencies)[d]
  {
    if dependencies == [] {
    } else {
      var k := |dependencies| - 1;
      assert dependencies == dependencies[..k] + [dependencies[k]];
      LiveDependenciesAre(target, ledger, dependencies[..k], d);
      IsDoneExactly(ledger, dependencies[k]);
    }
  }

  /** A child of the target that is neither done nor killed is listed at `i`. */
  ghost predicate OpenAt(target: Item, ledger: seq<Item>, i: nat) {
    i < |ledger| && ledger[i].parent == Some(target.id) && ledger[i].status !in {Done, Killed}
  }

  /** Every such child is listed, in ledger order and once for each listing: one
      item gives its ID or nothing, and listing goes through concatenation. */
  lemma {:induction false} OpenChildrenAre(target: Item, ledger: seq<Item>, x: Item, rest: seq<Item>)
    ensures OpenChildren(target, [x])
            == if x.parent == Some(target.id) && x.status !in {Done, Killed} then [x.id] else []
    ensures OpenChildren(target, ledger + rest) == OpenChildren(target, ledger) + OpenChildren(target, rest)
  {
    assert [x][..0] == [];
    if rest == [] {
      assert ledger + rest == ledger;
    } else {
      var k := |rest| - 1;
      OpenChildrenAre(target, ledger, x, rest[..k]);
      assert (ledger + rest)[..|ledger| + k] == ledger + rest[..k];
    }
  }

  /** Which issues a request meets, and what they name. */
  lemma IssuesExactly(target: Item, ledger: seq<Item>, request: Request, issue: Issue)
    ensures issue in Issues(target, ledger, request)
            <==> match issue
                 case DateBeforeCreated => request.date < target.created
                 case DateBeforeUpdated => request.date < target.updated
                 case InvalidEdge => !Edge(target.kind, target.status, request.to)
                 case LiveDependencies(ids) =>
                   && request.to == Done && ids == SortedIds(UnmetDependencies(target, ledger, target.dependsOn))
                   && exists d :: d in target.dependsOn && !(target.schema2 && FirstIsDone(ledger, d))
                 case NonterminalChildren(ids) =>
                   && request.to == Done && target.kind == Epic && ids == SortedIds(OpenChildren(target, ledger))
                   && exists i :: OpenAt(target, ledger, i)
  {
    DependenciesMet(target, ledger);
    ChildrenClosed(target, ledger);
    EdgesExactly(target.kind, target.status, request.to);
    InIssues(target, ledger, request, issue);
  }

  lemma InIssues(target: Item, ledger: seq<Item>, request: Request, issue: Issue)
    ensures issue in Issues(target, ledger, request)
            <==> || (issue == DateBeforeCreated && request.date < target.created)
                 || (issue == DateBeforeUpdated && request.date < target.updated)
                 || (issue == InvalidEdge && !EdgeAllowed(target.kind, target.status, request.to))
                 || issue in DependencyIssues(target, ledger, request) || issue in ChildIssues(target, ledger, request)
  {
    var dates, edges := DateIssues(target, request), EdgeIssues(target, request);
    var dependencies := DependencyIssues(target, ledger, request);
    InEither(dates + edges + dependencies, ChildIssues(target, ledger, request), issue);
    InEither(dates + edges, dependencies, issue);
    InEither(dates, edges, issue);
  }

  lemma DependenciesMet(target: Item, ledger: seq<Item>)
    ensures UnmetDependencies(target, ledger, target.dependsOn) == []
            <==> forall d :: d in target.dependsOn ==> target.schema2 && FirstIsDone(ledger, d)
  {
    NoLiveDependencies(target, ledger, target.dependsOn);
    forall i | 0 <= i < |target.dependsOn|
      ensures IsDone(ledger, target.dependsOn[i]) <==> FirstIsDone(ledger, target.dependsOn[i])
    {
      IsDoneExactly(ledger, target.dependsOn[i]);
    }
    if UnmetDependencies(target, ledger, target.dependsOn) == [] {
      forall d | d in target.dependsOn ensures target.schema2 && FirstIsDone(ledger, d) {
        var i :| 0 <= i < |target.dependsOn| && target.dependsOn[i] == d;
      }
    }
  }

  lemma ChildrenClosed(target: Item, ledger: seq<Item>)
    ensures OpenChildren(target, ledger) == [] <==> forall i: nat :: !OpenAt(target, ledger, i)
  {
    NoOpenChildren(target, ledger);
    forall i | 0 <= i < |ledger| && ledger[i].parent == Some(target.id) && !Terminal(ledger[i].status)
      ensures OpenAt(target, ledger, i)
    {
    }
  }

  // ----- one step -----

  /** Nothing a dropped item would leave behind: no dependents and, of an epic, no
      open children. Completing on schema 1 leaves no dependents either. */
  ghost predicate LeavesNothing(ledger: seq<Item>, target: Item, to: Status) {
    && (to in {Killed, Archived} || (to == Done && !target.schema2) ==>
          forall x :: x in ledger && x.id != target.id ==> target.id !in x.dependsOn)
    && (to in {Killed, Archived} && target.kind == Epic ==>
          forall x :: x in ledger && x.parent == Some(target.id) ==> x.status !in {Triage, Backlog, InProgress})
  }

  /** Everything a completed item waited for: its dependencies, of which schema 1
      allows none, and the children of an epic. */
  ghost predicate WaitsForNothing(ledger: seq<Item>, target: Item) {
    && (forall d :: d in target.dependsOn ==> target.schema2 && FirstIsDone(ledger, d))
    && (target.kind == Epic ==> forall x :: x in ledger && x.parent == Some(target.id) ==> x.status in {Done, Killed})
  }

  /** When a step moves an item, exactly: the request names it, is not dated before
      it, follows an edge, brings a decision if the edge takes one and none if
      not, and leaves nothing behind or waiting. It then changes status and update
      date as requested and nothing else. */
  lemma StepExactly(ledger: seq<Item>, request: Request, i: nat)
    requires DistinctIds(ledger) && i < |ledger|
    ensures var before, after := ledger[i], Transition(ledger, request)[i];
            && (after.status != before.status
                <==> && before.id == request.id
                     && request.date >= before.created && request.date >= before.updated
                     && Edge(before.kind, before.status, request.to)
                     && request.decision == (if Moves(before.status, request.to) then Absent else Given)
                     && (request.to == Done ==> WaitsForNothing(ledger, before))
                     && LeavesNothing(ledger, before, request.to))
            && after == if after.status == before.status then before
                        else before.(status := request.to, updated := request.date)
  {
    TransitionAt(ledger, request, i);
    AcceptedExactly(ledger[i], ledger, request);
  }

  lemma AcceptedExactly(target: Item, ledger: seq<Item>, request: Request)
    ensures Acceptable(target, ledger, request)
            <==> && request.date >= target.created && request.date >= target.updated
                 && Edge(target.kind, target.status, request.to)
                 && request.decision == (if Moves(target.status, request.to) then Absent else Given)
                 && (request.to == Done ==> WaitsForNothing(ledger, target))
                 && LeavesNothing(ledger, target, request.to)
  {
    EdgesExactly(target.kind, target.status, request.to);
    WaitsExactly(target, ledger);
    LeavesExactly(target, ledger, request.to);
    AcceptableUnless(target, ledger, request);
    NoIssues(target, ledger, request);
  }

  lemma NoIssues(target: Item, ledger: seq<Item>, request: Request)
    ensures Issues(target, ledger, request) == []
            <==> && request.date >= target.created && request.date >= target.updated
                 && EdgeAllowed(target.kind, target.status, request.to)
                 && (request.to == Done ==>
                       && UnmetDependencies(target, ledger, target.dependsOn) == []
                       && (target.kind == Epic ==> OpenChildren(target, ledger) == []))
  {
  }

  lemma WaitsExactly(target: Item, ledger: seq<Item>)
    ensures WaitsForNothing(ledger, target)
            <==> && UnmetDependencies(target, ledger, target.dependsOn) == []
                 && (target.kind == Epic ==> OpenChildren(target, ledger) == [])
  {
    DependenciesMet(target, ledger);
    ChildrenClosed(target, ledger);
    if forall i: nat :: !OpenAt(target, ledger, i) {
      forall x | x in ledger && x.parent == Some(target.id) ensures x.status in {Done, Killed} {
        var i :| 0 <= i < |ledger| && ledger[i] == x;
        assert !OpenAt(target, ledger, i);
      }
    } else {
      var i: nat :| OpenAt(target, ledger, i);
      assert ledger[i] in ledger;
    }
  }

  lemma LeavesExactly(target: Item, ledger: seq<Item>, to: Status)
    ensures LeavesNothing(ledger, target, to) <==> !SomethingBlocks(target, ledger, to)
  {
    if id :| DependentUnder(ledger, target.id, id) {
      var i :| 0 <= i < |ledger| && ledger[i].id == id && target.id in ledger[i].dependsOn;
      assert ledger[i] in ledger;
    } else {
      forall x | x in ledger && x.id != target.id ensures target.id !in x.dependsOn {
        assert !DependentUnder(ledger, target.id, x.id);
      }
    }
    if id :| OpenUnder(ledger, target.id, id) {
      var i :| 0 <= i < |ledger| && ledger[i].id == id && ledger[i].parent == Some(target.id)
               && ledger[i].status in {Triage, Backlog, InProgress};
      assert ledger[i] in ledger;
    } else {
      forall x | x in ledger && x.parent == Some(target.id) ensures x.status !in {Triage, Backlog, InProgress} {
        var i :| 0 <= i < |ledger| && ledger[i] == x;
        assert !OpenUnder(ledger, target.id, ledger[i].id);
      }
    }
  }

  // ----- dropped epics over runs -----

  ghost predicate DroppedEpic(x: Item) {
    x.kind == Epic && x.status in {Killed, Archived}
  }

  ghost predicate Open(x: Item) {
    x.status in {Triage, Backlog, InProgress}
  }

  /** No child of a dropped epic is open: what the ledger validator demands. */
  ghost predicate DroppedEpicsAreQuiet(ledger: seq<Item>) {
    forall i, k :: 0 <= i < |ledger| && 0 <= k < |ledger|
                   && DroppedEpic(ledger[i]) && ledger[k].parent == Some(ledger[i].id) ==>
      !Open(ledger[k])
  }

  /** A step takes a child of another, dropped epic back to the backlog. */
  ghost predicate Reopens(ledger: seq<Item>, request: Request, k: nat)
    requires k < |ledger|
  {
    && Transition(ledger, request)[k] != ledger[k] && ledger[k].status in {Deferred, Archived}
    && exists i :: 0 <= i < |ledger| && i != k && DroppedEpic(ledger[i]) && ledger[k].parent == Some(ledger[i].id)
  }

  /** The lifecycle's own checks keep this in every step but one that reopens a child
      of a dropped epic: dropping an epic never breaks it, undeferring or restoring
      a child is for the validation of the successor to refuse. */
  lemma StepKeepsQuiet(ledger: seq<Item>, request: Request)
    requires DistinctIds(ledger) && DroppedEpicsAreQuiet(ledger)
    ensures DroppedEpicsAreQuiet(Transition(ledger, request))
            <==> forall k :: 0 <= k < |ledger| ==> !Reopens(ledger, request, k)
  {
    var after := Transition(ledger, request);
    forall i | 0 <= i < |ledger|
      ensures after[i] == ledger[i] || MovedAs(ledger, request, i)
    {
      StepExactly(ledger, request, i);
    }
    forall i, k | && 0 <= i < |ledger| && 0 <= k < |ledger| && DroppedEpic(after[i])
                  && after[k].parent == Some(after[i].id) && Open(after[k])
      ensures Reopens(ledger, request, k)
    {
      OnlyOneMoves(ledger, request, i, k);
    }
    forall k | 0 <= k < |ledger| && Reopens(ledger, request, k) ensures !DroppedEpicsAreQuiet(after) {
      var i :| 0 <= i < |ledger| && i != k && DroppedEpic(ledger[i]) && ledger[k].parent == Some(ledger[i].id);
      OnlyOneMoves(ledger, request, i, k);
    }
  }

  /** How an item that a step changes is changed. */
  ghost predicate MovedAs(ledger: seq<Item>, request: Request, i: nat)
    requires i < |ledger|
  {
    && ledger[i].id == request.id && Edge(ledger[i].kind, ledger[i].status, request.to)
    && Transition(ledger, request)[i] == ledger[i].(status := request.to, updated := request.date)
    && LeavesNothing(ledger, ledger[i], request.to)
  }

  lemma OnlyOneMoves(ledger: seq<Item>, request: Request, i: nat, k: nat)
    requires DistinctIds(ledger) && i < |ledger| && k < |ledger|
    ensures Transition(ledger, request)[i] == ledger[i] || MovedAs(ledger, request, i)
    ensures Transition(ledger, request)[k] == ledger[k] || MovedAs(ledger, request, k)
    ensures i == k || Transition(ledger, request)[i] == ledger[i] || Transition(ledger, request)[k] == ledger[k]
  {
    StepExactly(ledger, request, i);
    StepExactly(ledger, request, k);
  }

  /** Without that validation it is lost: kill an epic whose one child is deferred,
      then undefer the child, and a killed epic has a child in the backlog. */
  lemma KilledEpicGetsOpenChild()
    returns (ledger: seq<Item>, requests: seq<Request>)
    ensures DistinctIds(ledger) && DroppedEpicsAreQuiet(ledger)
    ensures var after := Transitions(ledger, requests);
            |after| == 2 && after[0].kind == Epic && after[0].status == Killed
            && after[1].parent == Some(after[0].id) && after[1].status == Backlog
  {
    var epic := Item(1, true, Epic, Backlog, 0, 0, [], None, None, None);
    var child := Item(2, true, Task, Deferred, 0, 0, [], Some(1), None, None);
    ledger := [epic, child];
    var kill, undefer := Request(1, Killed, 5, Given), Request(2, Backlog, 6, Given);
    requests := [kill, undefer];
    assert requests[..1] == [kill] && [kill][..0] == [];
    assert DistinctIds(ledger);
    StepExactly(ledger, kill, 0);
    StepExactly(ledger, kill, 1);
    var middle := Transition(ledger, kill);
    assert middle == [epic.(status := Killed, updated := 5), child];
    StepKeepsIds(ledger, kill);
    StepExactly(middle, undefer, 0);
    StepExactly(middle, undefer, 1);
    assert Transitions(ledger, [kill]) == middle;
  }
}
