/** The report's dependency impact of src/report-impact.js: what becomes ready
    when one retained item is done, found by a bounded scan, and the memoised
    downstream reach.

    ID lists are sets here; the source sorts them for output. */
module ReportImpact {
  import opened Options
  import opened Ledger
  import opened Readiness

  type Edges = map<Id, seq<Id>>

  predicate Edge(g: Edges, x: Id, y: Id) {
    x in g && y in g[x]
  }

  // ----- the retained graph -----

  /** `y` depends on `x`, by any listing of `y`, and both are retained. */
  predicate DependsOn(items: seq<Item>, retained: set<Id>, x: Id, y: Id) {
    x in retained && y in retained && exists i :: 0 <= i < |items| && items[i].id == y && x in items[i].dependsOn
  }

  predicate ChildOf(items: seq<Item>, retained: set<Id>, x: Id, y: Id) {
    x in retained && y in retained && exists i :: 0 <= i < |items| && items[i].id == y && items[i].parent == Some(x)
  }

  ghost predicate LinksDependents(g: Edges, items: seq<Item>, retained: set<Id>) {
    g.Keys == retained && forall x: Id, y: Id :: Edge(g, x, y) <==> DependsOn(items, retained, x, y)
  }

  ghost predicate LinksChildren(g: Edges, items: seq<Item>, retained: set<Id>) {
    g.Keys == retained && forall x: Id, y: Id :: Edge(g, x, y) <==> ChildOf(items, retained, x, y)
  }

  /** An entry with no neighbours for each retained item. */
  function Unlinked(retained: set<Id>): Edges {
    map id | id in retained :: []
  }

  /** Add one listing's dependencies. */
  method LinkDependencies(g: Edges, ghost items: seq<Item>, retained: set<Id>, item: Item) returns (linked: Edges)
    requires LinksDependents(g, items, retained)
    ensures LinksDependents(linked, items + [item], retained)
  {
    linked := g;
    for i := 0 to |item.dependsOn|
      invariant linked.Keys == retained
      invariant forall x: Id, y: Id :: Edge(linked, x, y) <==>
                  Edge(g, x, y) || (y == item.id && x in item.dependsOn[..i] && x in retained && y in retained)
    {
      var d := item.dependsOn[i];
      assert item.dependsOn[..i + 1] == item.dependsOn[..i] + [d];
      if d in linked && item.id in retained {
        linked := linked[d := linked[d] + [item.id]];
      }
    }
    assert item.dependsOn[..|item.dependsOn|] == item.dependsOn;
    forall x: Id, y: Id ensures Edge(linked, x, y) <==> DependsOn(items + [item], retained, x, y) {
      DependsOneMore(items, item, retained, x, y);
    }
  }

  /** Add one listing's parent. */
  method LinkParent(g: Edges, ghost items: seq<Item>, retained: set<Id>, item: Item) returns (linked: Edges)
    requires LinksChildren(g, items, retained)
    ensures LinksChildren(linked, items + [item], retained)
  {
    linked := g;
    if item.parent.Some? && item.parent.value in g && item.id in retained {
      linked := linked[item.parent.value := linked[item.parent.value] + [item.id]];
    }
    forall x: Id, y: Id ensures Edge(linked, x, y) <==> ChildOf(items + [item], retained, x, y) {
      ChildOneMore(items, item, retained, x, y);
    }
  }

  lemma DependsOneMore(items: seq<Item>, item: Item, retained: set<Id>, x: Id, y: Id)
    ensures DependsOn(items + [item], retained, x, y) <==>
              DependsOn(items, retained, x, y) || (y == item.id && x in item.dependsOn && x in retained && y in retained)
  {
    var b := items + [item];
    assert forall k :: 0 <= k < |items| ==> items[k] == b[k];
    assert b[|items|] == item;
  }

  lemma ChildOneMore(items: seq<Item>, item: Item, retained: set<Id>, x: Id, y: Id)
    ensures ChildOf(items + [item], retained, x, y) <==>
              ChildOf(items, retained, x, y) || (y == item.id && item.parent == Some(x) && x in retained && y in retained)
  {
    var b := items + [item];
    assert forall k :: 0 <= k < |items| ==> items[k] == b[k];
    assert b[|items|] == item;
  }

  method LinkRetained(items: seq<Item>, retained: set<Id>) returns (dependents: Edges, children: Edges)
    ensures LinksDependents(dependents, items, retained) && LinksChildren(children, items, retained)
  {
    dependents := Unlinked(retained);
    children := Unlinked(retained);
    for i := 0 to |items|
      invariant LinksDependents(dependents, items[..i], retained)
      invariant LinksChildren(children, items[..i], retained)
    {
      assert items[..i + 1] == items[..i] + [items[i]];
      dependents := LinkDependencies(dependents, items[..i], retained, items[i]);
      children := LinkParent(children, items[..i], retained, items[i]);
    }
    assert items[..|items|] == items;
  }

  // ----- reach -----

  ghost predicate Path(g: Edges, x: Id, y: Id, n: nat)
    decreases n
  {
    n > 0 && ((Edge(g, x, y) && n == 1) || exists z: Id :: Edge(g, x, z) && Path(g, z, y, n - 1))
  }

  ghost predicate Reaches(g: Edges, x: Id, y: Id) {
    exists n: nat :: Path(g, x, y, n)
  }

  ghost predicate Acyclic(g: Edges) {
    forall x: Id :: !Reaches(g, x, x)
  }

  lemma EdgeReaches(g: Edges, x: Id, y: Id)
    requires Edge(g, x, y)
    ensures Reaches(g, x, y)
  {
    assert Path(g, x, y, 1);
  }

  lemma ReachesOn(g: Edges, x: Id, z: Id, y: Id)
    requires Edge(g, x, z) && Reaches(g, z, y)
    ensures Reaches(g, x, y)
  {
    var n: nat :| Path(g, z, y, n);
    assert Path(g, x, y, n + 1);
  }

  lemma ReachesFrom(g: Edges, x: Id, y: Id)
    requires Reaches(g, x, y)
    ensures Edge(g, x, y) || exists z: Id :: Edge(g, x, z) && Reaches(g, z, y)
  {
    var n: nat :| Path(g, x, y, n);
    if !Edge(g, x, y) {
      var z :| Edge(g, x, z) && Path(g, z, y, n - 1);
      assert Reaches(g, z, y);
    }
  }

  lemma {:induction false} ReachesThen(g: Edges, x: Id, y: Id, z: Id, n: nat)
    requires Path(g, x, y, n) && Edge(g, y, z)
    ensures Reaches(g, x, z)
    decreases n
  {
    if n == 1 && Edge(g, x, y) {
      EdgeReaches(g, y, z);
      ReachesOn(g, x, y, z);
    } else {
      var m :| Edge(g, x, m) && Path(g, m, y, n - 1);
      ReachesThen(g, m, y, z, n - 1);
      ReachesOn(g, x, m, z);
    }
  }

  lemma ReachesEdge(g: Edges, x: Id, y: Id, z: Id)
    requires Reaches(g, x, y) && Edge(g, y, z)
    ensures Reaches(g, x, z)
  {
    var n: nat :| Path(g, x, y, n);
    ReachesThen(g, x, y, z, n);
  }

  /** A set holds only what `x` reaches; on acyclic graphs it holds all of it. */
  ghost predicate IsReach(g: Edges, x: Id, found: set<Id>) {
    && (forall y: Id :: y in found ==> Reaches(g, x, y))
    && (Acyclic(g) ==> forall y: Id :: Reaches(g, x, y) ==> y in found)
  }

  // ----- the memo -----

  class Traversal {
    const dependents: Edges
    var downstreamCache: map<Id, set<Id>>
    var onStack: set<Id>

    constructor (dependents: Edges)
      requires forall x: Id, y: Id :: Edge(dependents, x, y) ==> y in dependents
      ensures this.dependents == dependents && Valid() && onStack == {}
    {
      this.dependents := dependents;
      downstreamCache := map[];
      onStack := {};
    }

    ghost predicate Valid()
      reads this
    {
      && (forall x: Id, y: Id :: Edge(dependents, x, y) ==> y in dependents)
      && (forall x :: x in downstreamCache ==> IsReach(dependents, x, downstreamCache[x]))
    }

    /** Everything that transitively depends on `id`, each answer remembered. */
    method Downstream(id: Id) returns (collected: set<Id>)
      requires Valid() && id in dependents && onStack <= dependents.Keys
      requires forall s: Id :: s in onStack ==> Reaches(dependents, s, id)
      modifies this`downstreamCache, this`onStack
      ensures Valid() && onStack == old(onStack)
      ensures IsReach(dependents, id, collected)
      decreases |dependents.Keys - onStack|, 0
    {
      if id in downstreamCache {
        return downstreamCache[id];
      }
      if id in onStack {
        return {};
      }
      OneFewer(dependents.Keys, onStack, id);
      onStack := onStack + {id};
      collected := CollectNexts(id, old(onStack));
      onStack := onStack - {id};
      assert onStack == old(onStack);
      downstreamCache := downstreamCache[id := collected];
    }

    /** The loop over the direct dependents of an item on the stack. */
    method CollectNexts(id: Id, ghost below: set<Id>) returns (collected: set<Id>)
      requires Valid() && id in dependents && id !in below && onStack == below + {id} && onStack <= dependents.Keys
      requires forall s: Id :: s in below ==> Reaches(dependents, s, id)
      modifies this`downstreamCache, this`onStack
      ensures Valid() && onStack == old(onStack)
      ensures IsReach(dependents, id, collected)
      decreases |dependents.Keys - onStack|, 1
    {
      collected := {};
      var nexts := dependents[id];
      for i := 0 to |nexts|
        invariant Valid() && onStack == old(onStack)
        invariant CollectedSoFar(dependents, id, i, collected)
      {
        assert Edge(dependents, id, nexts[i]);
        StackReaches(dependents, below, id, nexts[i]);
        var more := Downstream(nexts[i]);
        CollectedOneMore(dependents, id, i, collected, more);
        collected := collected + {nexts[i]} + more;
      }
      AllNextsCollected(dependents, id, collected);
    }
  }

  /** What the first `i` direct dependents contribute. */
  ghost predicate CollectedSoFar(g: Edges, id: Id, i: nat, collected: set<Id>)
    requires id in g && i <= |g[id]|
  {
    && (forall y: Id :: y in collected ==> Reaches(g, id, y))
    && (forall k: nat :: k < i ==> g[id][k] in collected)
    && (Acyclic(g) ==> forall k: nat, y: Id :: k < i && Reaches(g, g[id][k], y) ==> y in collected)
  }

  lemma CollectedOneMore(g: Edges, id: Id, i: nat, collected: set<Id>, more: set<Id>)
    requires id in g && i < |g[id]| && CollectedSoFar(g, id, i, collected) && IsReach(g, g[id][i], more)
    ensures CollectedSoFar(g, id, i + 1, collected + {g[id][i]} + more)
  {
    assert Edge(g, id, g[id][i]);
    ReachThrough(g, id, g[id][i], more);
  }

  lemma StackReaches(g: Edges, stack: set<Id>, id: Id, next: Id)
    requires Edge(g, id, next) && forall s: Id :: s in stack ==> Reaches(g, s, id)
    ensures forall s: Id :: s in stack + {id} ==> Reaches(g, s, next)
  {
    EdgeReaches(g, id, next);
    forall s | s in stack ensures Reaches(g, s, next) {
      ReachesEdge(g, s, id, next);
    }
  }

  lemma ReachThrough(g: Edges, id: Id, next: Id, more: set<Id>)
    requires Edge(g, id, next) && forall y: Id :: y in more ==> Reaches(g, next, y)
    ensures Reaches(g, id, next) && forall y: Id :: y in more ==> Reaches(g, id, y)
  {
    EdgeReaches(g, id, next);
    forall y | y in more ensures Reaches(g, id, y) {
      ReachesOn(g, id, next, y);
    }
  }

  lemma AllNextsCollected(g: Edges, id: Id, collected: set<Id>)
    requires id in g && CollectedSoFar(g, id, |g[id]|, collected)
    ensures IsReach(g, id, collected)
  {
    if Acyclic(g) {
      forall y | Reaches(g, id, y) ensures y in collected {
        ReachesFrom(g, id, y);
        if !Edge(g, id, y) {
          var z :| Edge(g, id, z) && Reaches(g, z, y);
          var k: nat :| k < |g[id]| && g[id][k] == z;
        }
      }
    }
  }

  // ----- the affected items -----

  predicate Next(dependents: Edges, children: Edges, x: Id, y: Id) {
    Edge(dependents, x, y) || Edge(children, x, y)
  }

  ghost predicate NextPath(dependents: Edges, children: Edges, x: Id, y: Id, n: nat)
    decreases n
  {
    if n == 0 then x == y else exists z: Id :: Next(dependents, children, z, y) && NextPath(dependents, children, x, z, n - 1)
  }

  ghost predicate Affects(dependents: Edges, children: Edges, x: Id, y: Id) {
    exists n: nat :: NextPath(dependents, children, x, y, n)
  }

  /** Queue every neighbour not seen before. */
  method PushUnseen(nexts: seq<Id>, seen: set<Id>, queue: seq<Id>) returns (seen': set<Id>, queue': seq<Id>)
    ensures forall y: Id :: y in seen' <==> y in seen || y in nexts
    ensures forall y: Id :: y in queue' <==> y in queue || (y in nexts && y !in seen)
    ensures seen' == seen ==> queue' == queue
  {
    seen', queue' := seen, queue;
    for i := 0 to |nexts|
      invariant forall y: Id :: y in seen' <==> y in seen || y in nexts[..i]
      invariant forall y: Id :: y in queue' <==> y in queue || (y in nexts[..i] && y !in seen)
      invariant seen' == seen ==> queue' == queue
    {
      assert nexts[..i + 1] == nexts[..i] + [nexts[i]];
      if nexts[i] !in seen' {
        seen' := seen' + {nexts[i]};
        queue' := queue' + [nexts[i]];
      }
    }
    assert nexts[..|nexts|] == nexts;
  }

  function Neighbours(g: Edges, x: Id): seq<Id> {
    if x in g then g[x] else []
  }

  /** Exactly the items the candidate affects, itself excepted. */
  ghost predicate IsAffected(dependents: Edges, children: Edges, candidate: Id, affected: set<Id>) {
    forall y: Id :: y in affected <==> y != candidate && Affects(dependents, children, candidate, y)
  }

  /** What the queue has found: only affected items, and everything next to an
      item no longer queued. */
  ghost predicate Searching(dependents: Edges, children: Edges, candidate: Id, seen: set<Id>, queue: seq<Id>) {
    && candidate in seen && seen <= dependents.Keys
    && (forall y: Id :: y in queue ==> y in seen)
    && (forall y: Id :: y in seen ==> Affects(dependents, children, candidate, y))
    && (forall x: Id, y: Id :: x in seen && x !in queue && Next(dependents, children, x, y) ==> y in seen)
  }

  /** Visit the last queued item. */
  method VisitNext(dependents: Edges, children: Edges, ghost candidate: Id, seen: set<Id>, queue: seq<Id>)
    returns (seen': set<Id>, queue': seq<Id>)
    requires queue != [] && Searching(dependents, children, candidate, seen, queue)
    requires forall x: Id, y: Id :: Next(dependents, children, x, y) ==> y in dependents
    ensures Searching(dependents, children, candidate, seen', queue')
    ensures seen <= seen' && (seen' == seen ==> |queue'| < |queue|)
  {
    var current := queue[|queue| - 1];
    var rest := queue[..|queue| - 1];
    assert queue == rest + [current];
    AffectsNexts(dependents, children, candidate, current);
    var middle, pushed := PushUnseen(Neighbours(dependents, current), seen, rest);
    seen', queue' := PushUnseen(Neighbours(children, current), middle, pushed);
    assert seen <= middle <= seen';
    assert seen' == seen ==> middle == seen;
    forall y: Id ensures y in seen' <==> y in seen || Next(dependents, children, current, y) {
    }
  }

  /** Reverse dependency and ancestor reach, by a work queue. */
  method AffectedIds(dependents: Edges, children: Edges, candidate: Id) returns (seen: set<Id>)
    requires dependents.Keys == children.Keys && candidate in dependents
    requires forall x: Id, y: Id :: Next(dependents, children, x, y) ==> y in dependents
    ensures IsAffected(dependents, children, candidate, seen)
  {
    seen := {candidate};
    var queue := [candidate];
    assert NextPath(dependents, children, candidate, candidate, 0);
    while queue != []
      invariant Searching(dependents, children, candidate, seen, queue)
      decreases |dependents.Keys - seen|, |queue|
    {
      ghost var before := seen;
      seen, queue := VisitNext(dependents, children, candidate, seen, queue);
      Grows(dependents.Keys, before, seen);
    }
    ClosedIsAffected(dependents, children, candidate, seen);
    seen := seen - {candidate};
  }

  lemma Grows(all: set<Id>, before: set<Id>, after: set<Id>)
    requires before <= after <= all
    ensures |all - after| <= |all - before|
    ensures |all - after| == |all - before| ==> before == after
  {
    assert all - before == (all - after) + (after - before);
    if after - before == {} {
      assert before == after;
    }
  }

  lemma AffectsNexts(dependents: Edges, children: Edges, candidate: Id, x: Id)
    requires Affects(dependents, children, candidate, x)
    ensures forall y: Id :: Next(dependents, children, x, y) ==> Affects(dependents, children, candidate, y)
  {
    var n: nat :| NextPath(dependents, children, candidate, x, n);
    forall y | Next(dependents, children, x, y) ensures Affects(dependents, children, candidate, y) {
      assert NextPath(dependents, children, candidate, y, n + 1);
    }
  }

  lemma ClosedIsAffected(dependents: Edges, children: Edges, candidate: Id, seen: set<Id>)
    requires candidate in seen
    requires forall x: Id, y: Id :: x in seen && Next(dependents, children, x, y) ==> y in seen
    ensures forall y: Id :: Affects(dependents, children, candidate, y) ==> y in seen
  {
    forall y | Affects(dependents, children, candidate, y) ensures y in seen {
      var n: nat :| NextPath(dependents, children, candidate, y, n);
      PathStaysIn(dependents, children, candidate, y, n, seen);
    }
  }

  lemma {:induction false} PathStaysIn(dependents: Edges, children: Edges, candidate: Id, y: Id, n: nat, seen: set<Id>)
    requires candidate in seen && NextPath(dependents, children, candidate, y, n)
    requires forall x: Id, z: Id :: x in seen && Next(dependents, children, x, z) ==> z in seen
    ensures y in seen
    decreases n
  {
    if n == 0 {
    } else {
      var z :| Next(dependents, children, z, y) && NextPath(dependents, children, candidate, z, n - 1);
      PathStaysIn(dependents, children, candidate, z, n - 1, seen);
    }
  }

  // ----- ready if done -----

  /** The ledger with only the candidate done: the last item listed under its ID. */
  function MarkDone(items: seq<Item>, candidate: Id): seq<Item> {
    if items == [] then []
    else
      var k := |items| - 1;
      if items[k].id == candidate then items[..k] + [items[k].(status := Done)]
      else MarkDone(items[..k], candidate) + [items[k]]
  }

  /** The effective items once the candidate is done. */
  function DoneIn(byId: map<Id, Item>, candidate: Id): map<Id, Item> {
    if candidate in byId then byId[candidate := byId[candidate].(status := Done)] else byId
  }

  lemma DoneThenOther(byId: map<Id, Item>, candidate: Id, x: Item)
    ensures if x.id == candidate then DoneIn(byId[x.id := x], candidate) == byId[candidate := x.(status := Done)]
            else DoneIn(byId[x.id := x], candidate) == DoneIn(byId, candidate)[x.id := x]
  {
  }

  lemma {:induction false} MarkedLookup(items: seq<Item>, candidate: Id)
    ensures Lookup(MarkDone(items, candidate)) == DoneIn(Lookup(items), candidate)
  {
    if items == [] {
    } else {
      var k := |items| - 1;
      var marked := MarkDone(items, candidate);
      DoneThenOther(Lookup(items[..k]), candidate, items[k]);
      if items[k].id == candidate {
        assert marked[..|marked| - 1] == items[..k];
      } else {
        MarkedLookup(items[..k], candidate);
        assert marked[..|marked| - 1] == MarkDone(items[..k], candidate);
      }
    }
  }

  /** A chain that is in backlog once the candidate is done never met it. */
  lemma {:induction false} ChainAvoidsDone(byId: map<Id, Item>, candidate: Id, start: Option<Id>, n: nat)
    requires candidate in byId
    requires ChainInBacklog(DoneIn(byId, candidate), start, n)
    ensures ChainInBacklog(byId, start, n)
    decreases n
  {
    if start.Some? {
      ChainAvoidsDone(byId, candidate, byId[start.value].parent, n - 1);
    }
  }

  /** An item the candidate's completion makes ready was blocked by it alone. */
  lemma NewlyReady(o: Id, byId: map<Id, Item>, candidate: Id, asOf: Date)
    requires candidate in byId && o in byId
    requires var after := DoneIn(byId, candidate);
             IsReady(after[o], after, asOf) && !IsReady(byId[o], byId, asOf)
    ensures o != candidate && candidate in byId[o].dependsOn
    ensures OwnReasons(byId[o], asOf) == [] && ChainReady(byId, byId[o].parent)
    ensures forall i :: 0 <= i < |byId[o].dependsOn| ==>
              Satisfied(byId[o], byId, byId[o].dependsOn[i]) || byId[o].dependsOn[i] == candidate
  {
    var after := DoneIn(byId, candidate);
    assert o != candidate;
    var n: nat :| ChainInBacklog(after, byId[o].parent, n);
    ChainAvoidsDone(byId, candidate, byId[o].parent, n);
    forall i | 0 <= i < |byId[o].dependsOn|
      ensures Satisfied(byId[o], byId, byId[o].dependsOn[i]) || byId[o].dependsOn[i] == candidate
    {
      assert Satisfied(after[o], after, byId[o].dependsOn[i]);
    }
    var i :| 0 <= i < |byId[o].dependsOn| && !Satisfied(byId[o], byId, byId[o].dependsOn[i]);
  }

  /** Whether `o` reads as ready; an item the projection lacks does not. */
  predicate ReadsReady(projection: map<Id, Readiness>, o: Id) {
    o in projection && projection[o].state.Ready?
  }

  /** The difference of two whole projections, over every retained item. */
  function LedgerDiff(retained: set<Id>, baseline: map<Id, Readiness>, after: map<Id, Readiness>): set<Id> {
    set o | o in retained && !ReadsReady(baseline, o) && ReadsReady(after, o)
  }

  /** A counterfactual projection, or the baseline for an unknown candidate. */
  ghost predicate IfDone(items: seq<Item>, candidate: Id, after: map<Id, Readiness>, asOf: Date) {
    var done := DoneIn(Lookup(items), candidate);
    ProjectsAll(after, done, done, asOf)
  }

  method ReadinessIfDone(items: seq<Item>, baseline: map<Id, Readiness>, candidate: Id, asOf: Date)
    returns (after: map<Id, Readiness>)
    requires ProjectsAll(baseline, Lookup(items), Lookup(items), asOf)
    ensures IfDone(items, candidate, after, asOf)
    ensures candidate !in Lookup(items) ==> after == baseline
  {
    if candidate !in Lookup(items) {
      return baseline;
    }
    MarkedLookup(items, candidate);
    after := ProjectReadiness(MarkDone(items, candidate), asOf);
  }

  /** Only a direct dependent can become ready, and its baseline reasons are
      all the candidate. */
  lemma HitIsDirectDependent(items: seq<Item>, retained: set<Id>, baseline: map<Id, Readiness>,
                             after: map<Id, Readiness>, candidate: Id, o: Id, asOf: Date)
    requires ProjectsAll(baseline, Lookup(items), Lookup(items), asOf) && IfDone(items, candidate, after, asOf)
    requires candidate in retained && candidate in Lookup(items) && o in LedgerDiff(retained, baseline, after)
    ensures DependsOn(items, retained, candidate, o) && o != candidate
    ensures baseline[o].reasons != []
    ensures forall r :: r in baseline[o].reasons ==> r == DependencyUnsatisfied(candidate)
  {
    var byId := Lookup(items);
    var done := DoneIn(byId, candidate);
    ReadyMeans(baseline[o], byId[o], byId, asOf);
    ReadyMeans(after[o], done[o], done, asOf);
    NewlyReady(o, byId, candidate, asOf);
    LookupListed(items, o);
    OnlyCandidateReasons(baseline[o], byId[o], byId, candidate, asOf);
  }

  lemma OnlyCandidateReasons(r: Readiness, item: Item, byId: map<Id, Item>, candidate: Id, asOf: Date)
    requires Projects(r, item, byId, asOf) && OwnReasons(item, asOf) == [] && ChainReady(byId, item.parent)
    requires forall i :: 0 <= i < |item.dependsOn| ==> Satisfied(item, byId, item.dependsOn[i]) || item.dependsOn[i] == candidate
    ensures forall reason :: reason in r.reasons ==> reason == DependencyUnsatisfied(candidate)
  {
    var chain :| Answers(byId, item.parent, chain)
                 && r.reasons == OwnReasons(item, asOf) + DependencyReasons(item, byId, item.dependsOn) + chain
                 && r.state == StateOf(OwnReasons(item, asOf), r.reasons);
    EmptyMeansChainReady(byId, item.parent, chain);
    OnlyTheCandidate(item, byId, item.dependsOn, candidate);
    assert r.reasons == DependencyReasons(item, byId, item.dependsOn);
  }

  lemma {:induction false} OnlyTheCandidate(item: Item, byId: map<Id, Item>, dependencies: seq<Id>, candidate: Id)
    requires forall i :: 0 <= i < |dependencies| ==> Satisfied(item, byId, dependencies[i]) || dependencies[i] == candidate
    ensures forall r :: r in DependencyReasons(item, byId, dependencies) ==> r == DependencyUnsatisfied(candidate)
  {
    if dependencies == [] {
    } else {
      OnlyTheCandidate(item, byId, dependencies[..|dependencies| - 1], candidate);
    }
  }

  datatype Impact = Impact(downstream: set<Id>, readyIfDone: set<Id>)

  /** A direct dependent whose only baseline reasons are the candidate. */
  ghost predicate BlockedOnlyBy(items: seq<Item>, retained: set<Id>, baseline: map<Id, Readiness>, candidate: Id, o: Id) {
    && DependsOn(items, retained, candidate, o) && o in baseline
    && baseline[o].reasons != []
    && forall r :: r in baseline[o].reasons ==> r == DependencyUnsatisfied(candidate)
  }

  /** The bounded scan loses nothing: any set with every direct dependent of the
      candidate finds the whole-ledger difference. */
  lemma BoundedIsWhole(items: seq<Item>, retained: set<Id>, dependents: Edges, children: Edges, affected: set<Id>,
                       baseline: map<Id, Readiness>, after: map<Id, Readiness>, candidate: Id, asOf: Date)
    requires LinksDependents(dependents, items, retained) && IsAffected(dependents, children, candidate, affected)
    requires ProjectsAll(baseline, Lookup(items), Lookup(items), asOf) && IfDone(items, candidate, after, asOf)
    requires candidate in retained && (candidate !in Lookup(items) ==> after == baseline)
    ensures forall o :: o in LedgerDiff(retained, baseline, after) ==>
              o in affected && BlockedOnlyBy(items, retained, baseline, candidate, o)
  {
    forall o | o in LedgerDiff(retained, baseline, after)
      ensures o in affected && BlockedOnlyBy(items, retained, baseline, candidate, o)
    {
      assert candidate in Lookup(items);
      HitIsDirectDependent(items, retained, baseline, after, candidate, o, asOf);
      DependentIsAffected(dependents, children, candidate, o);
    }
  }

  /** The bounded scan: only affected items are compared. */
  method ReadyIfDone(items: seq<Item>, retained: set<Id>, dependents: Edges, children: Edges,
                     baseline: map<Id, Readiness>, candidate: Id, asOf: Date) returns (hits: set<Id>, ghost after: map<Id, Readiness>)
    requires LinksDependents(dependents, items, retained) && LinksChildren(children, items, retained)
    requires ProjectsAll(baseline, Lookup(items), Lookup(items), asOf) && candidate in retained
    ensures IfDone(items, candidate, after, asOf) && hits == LedgerDiff(retained, baseline, after)
    ensures forall o: Id :: o in hits <==> BecomesReady(items, retained, candidate, o, asOf)
    ensures forall o :: o in hits ==> BlockedOnlyBy(items, retained, baseline, candidate, o)
  {
    var counterfactual := ReadinessIfDone(items, baseline, candidate, asOf);
    var affected := AffectedIds(dependents, children, candidate);
    after := counterfactual;
    hits := set o | o in affected && o in retained && !ReadsReady(baseline, o) && ReadsReady(counterfactual, o);
    BoundedIsWhole(items, retained, dependents, children, affected, baseline, after, candidate, asOf);
    ScanIsDiff(affected, retained, baseline, after, hits);
    forall o: Id ensures o in hits <==> BecomesReady(items, retained, candidate, o, asOf) {
      DiffIsReadied(items, retained, baseline, after, candidate, o, asOf);
    }
  }

  lemma ScanIsDiff(affected: set<Id>, retained: set<Id>, baseline: map<Id, Readiness>, after: map<Id, Readiness>, hits: set<Id>)
    requires forall o :: o in LedgerDiff(retained, baseline, after) ==> o in affected
    requires hits == set o | o in affected && o in retained && !ReadsReady(baseline, o) && ReadsReady(after, o)
    ensures hits == LedgerDiff(retained, baseline, after)
  {
  }

  lemma DependentIsAffected(dependents: Edges, children: Edges, candidate: Id, o: Id)
    requires Edge(dependents, candidate, o)
    ensures Affects(dependents, children, candidate, o)
  {
    assert NextPath(dependents, children, candidate, candidate, 0);
    assert Next(dependents, children, candidate, o);
    assert NextPath(dependents, children, candidate, o, 1);
  }

  /** The item is retained, is not ready, and would be if the candidate's effective
      listing were done and all else as it is. */
  ghost predicate BecomesReady(items: seq<Item>, retained: set<Id>, candidate: Id, o: Id, asOf: Date) {
    var byId := Lookup(items);
    && o in retained && o in byId && candidate in byId && !IsReady(byId[o], byId, asOf)
    && var done := byId[candidate := byId[candidate].(status := Done)];
       IsReady(done[o], done, asOf)
  }

  /** The difference of the two projections is what completion makes ready. */
  lemma DiffIsReadied(items: seq<Item>, retained: set<Id>, baseline: map<Id, Readiness>, after: map<Id, Readiness>,
                      candidate: Id, o: Id, asOf: Date)
    requires ProjectsAll(baseline, Lookup(items), Lookup(items), asOf) && IfDone(items, candidate, after, asOf)
    requires candidate !in Lookup(items) ==> after == baseline
    ensures o in LedgerDiff(retained, baseline, after) <==> BecomesReady(items, retained, candidate, o, asOf)
  {
    var byId := Lookup(items);
    var done := DoneIn(byId, candidate);
    if o in byId {
      ReadyMeans(baseline[o], byId[o], byId, asOf);
      ReadyMeans(after[o], done[o], done, asOf);
    }
  }

  /** What the report says of one retained item. */
  ghost predicate IsImpact(items: seq<Item>, retained: set<Id>, dependents: Edges, baseline: map<Id, Readiness>,
                           id: Id, impact: Impact, asOf: Date) {
    && (forall y: Id :: y in impact.downstream ==> y != id && Reaches(dependents, id, y))
    && (Acyclic(dependents) ==> forall y: Id :: Reaches(dependents, id, y) ==> y in impact.downstream)
    && (forall o: Id :: o in impact.readyIfDone <==> BecomesReady(items, retained, id, o, asOf))
    && (forall o :: o in impact.readyIfDone ==> BlockedOnlyBy(items, retained, baseline, id, o))
  }

  method ImpactOf(items: seq<Item>, retained: set<Id>, traversal: Traversal, children: Edges,
                  baseline: map<Id, Readiness>, id: Id, asOf: Date) returns (impact: Impact)
    requires LinksDependents(traversal.dependents, items, retained) && LinksChildren(children, items, retained)
    requires ProjectsAll(baseline, Lookup(items), Lookup(items), asOf) && id in retained
    requires traversal.Valid() && traversal.onStack == {}
    modifies traversal`downstreamCache, traversal`onStack
    ensures traversal.Valid() && traversal.onStack == {}
    ensures IsImpact(items, retained, traversal.dependents, baseline, id, impact, asOf)
  {
    var downstream := traversal.Downstream(id);
    DownstreamIsClosure(traversal.dependents, id, downstream);
    var hits, _ := ReadyIfDone(items, retained, traversal.dependents, children, baseline, id, asOf);
    impact := Impact(downstream - {id}, hits);
  }

  /** The whole report: on every ledger the bounded scan loses nothing, and on
      acyclic ones the downstream reach is the transitive closure. */
  method BuildReportImpact(items: seq<Item>, retained: set<Id>, asOf: Date)
    returns (impacts: map<Id, Impact>, ghost dependents: Edges, ghost baseline: map<Id, Readiness>)
    ensures LinksDependents(dependents, items, retained) && ProjectsAll(baseline, Lookup(items), Lookup(items), asOf)
    ensures impacts.Keys == retained
    ensures forall id :: id in retained ==> IsImpact(items, retained, dependents, baseline, id, impacts[id], asOf)
  {
    var projected := ProjectReadiness(items, asOf);
    var linked, children := LinkRetained(items, retained);
    dependents, baseline := linked, projected;
    var traversal := new Traversal(linked);
    impacts := map[];
    var todo := retained;
    while todo != {}
      invariant todo <= retained && impacts.Keys == retained - todo
      invariant fresh(traversal) && traversal.Valid() && traversal.onStack == {} && traversal.dependents == linked
      invariant forall id :: id in impacts ==> IsImpact(items, retained, linked, projected, id, impacts[id], asOf)
      decreases |todo|
    {
      var id :| id in todo;
      var impact := ImpactOf(items, retained, traversal, children, projected, id, asOf);
      impacts := impacts[id := impact];
      todo := todo - {id};
    }
  }

  lemma DownstreamIsClosure(g: Edges, id: Id, found: set<Id>)
    requires IsReach(g, id, found)
    ensures forall y: Id :: y in found - {id} ==> y != id && Reaches(g, id, y)
    ensures Acyclic(g) ==> forall y: Id :: Reaches(g, id, y) ==> y in found - {id}
  {
  }
}
