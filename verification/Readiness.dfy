/** The readiness projection of src/ready.js: own-item checks, dependencies and
    the memoised walk up the parent chain. */
module Readiness {
  import opened Options
  import opened Seqs
  import opened Sorting
  import opened Ledger

  datatype Reason =
    | KindNotTask
    | StatusNotBacklog
    | Snoozed
    | DependencyUnsatisfied(item: Id)
    | AncestorNotBacklog(item: Id)

  datatype State = Ineligible | Blocked | Ready

  datatype Readiness = Readiness(state: State, reasons: seq<Reason>)

  // ----- the parent chain -----

  /** The chain from `start` ends, at no parent or at a missing item, within `n`
      items. On a parent cycle it ends within no number of them. */
  predicate ChainEnds(byId: map<Id, Item>, start: Option<Id>, n: nat)
    decreases n
  {
    match start
    case None => true
    case Some(id) => n > 0 && (id !in byId || ChainEnds(byId, byId[id].parent, n - 1))
  }

  /** Reasons of a plain walk up the chain, one per missing or non-backlog
      ancestor, nearest first. */
  function NaiveReasons(byId: map<Id, Item>, start: Option<Id>, n: nat): seq<Reason>
    decreases n
  {
    match start
    case None => []
    case Some(id) =>
      if n == 0 then []
      else if id !in byId then [AncestorNotBacklog(id)]
      else if !byId[id].status.Backlog? then [AncestorNotBacklog(id)] + NaiveReasons(byId, byId[id].parent, n - 1)
      else NaiveReasons(byId, byId[id].parent, n - 1)
  }

  /** Every ancestor is present and in backlog, and there are finitely many. */
  predicate ChainInBacklog(byId: map<Id, Item>, start: Option<Id>, n: nat)
    decreases n
  {
    match start
    case None => true
    case Some(id) => n > 0 && id in byId && byId[id].status.Backlog? && ChainInBacklog(byId, byId[id].parent, n - 1)
  }

  ghost predicate ChainReady(byId: map<Id, Item>, start: Option<Id>) {
    exists n: nat :: ChainInBacklog(byId, start, n)
  }

  /** What any answer about a chain must be: the plain walk's on a chain that
      ends, and never empty on one that does not. */
  ghost predicate Answers(byId: map<Id, Item>, start: Option<Id>, reasons: seq<Reason>) {
    && (forall n: nat :: ChainEnds(byId, start, n) ==> reasons == NaiveReasons(byId, start, n))
    && (reasons == [] ==> exists n: nat :: ChainEnds(byId, start, n))
  }

  ghost predicate Sound(byId: map<Id, Item>, cache: map<Id, seq<Reason>>) {
    forall id :: id in cache ==> Answers(byId, Some(id), cache[id])
  }

  /** One item's own contribution in front of what its parent's chain answers. */
  function Extended(byId: map<Id, Item>, id: Id, suffix: seq<Reason>): seq<Reason> {
    if id !in byId || !byId[id].status.Backlog? then [AncestorNotBacklog(id)] + suffix else suffix
  }

  function ParentOf(byId: map<Id, Item>, id: Id): Option<Id> {
    if id in byId then byId[id].parent else None
  }

  lemma AnswerExtends(byId: map<Id, Item>, id: Id, suffix: seq<Reason>)
    requires Answers(byId, ParentOf(byId, id), suffix)
    ensures Answers(byId, Some(id), Extended(byId, id, suffix))
  {
    var reasons := Extended(byId, id, suffix);
    if id !in byId {
      assert ChainEnds(byId, None, 0);
      assert suffix == NaiveReasons(byId, None, 0);
      assert ChainEnds(byId, Some(id), 1);
    } else {
      forall n: nat | ChainEnds(byId, Some(id), n) ensures reasons == NaiveReasons(byId, Some(id), n) {
        assert ChainEnds(byId, byId[id].parent, n - 1);
      }
      if reasons == [] {
        var n: nat :| ChainEnds(byId, byId[id].parent, n);
        assert ChainEnds(byId, Some(id), n + 1);
      }
    }
  }

  /** Consecutive parents, all present. */
  ghost predicate Linked(byId: map<Id, Item>, path: seq<Id>) {
    forall i :: 0 <= i < |path| - 1 ==> path[i] in byId && byId[path[i]].parent == Some(path[i + 1])
  }

  /** A chain that comes back to itself never ends. */
  lemma {:induction false} CycleNeverEnds(byId: map<Id, Item>, path: seq<Id>, m: nat, i: nat, n: nat)
    requires Linked(byId, path) && m <= i < |path|
    requires path[|path| - 1] in byId && byId[path[|path| - 1]].parent == Some(path[m])
    ensures !ChainEnds(byId, Some(path[i]), n)
    decreases n
  {
    if n == 0 {
    } else {
      CycleNeverEnds(byId, path, m, if i + 1 < |path| then i + 1 else m, n - 1);
    }
  }

  lemma RepeatAnswers(byId: map<Id, Item>, path: seq<Id>, id: Id)
    requires Linked(byId, path) && id in path
    requires path[|path| - 1] in byId && byId[path[|path| - 1]].parent == Some(id)
    ensures Answers(byId, Some(id), [AncestorNotBacklog(id)])
  {
    var m :| 0 <= m < |path| && path[m] == id;
    forall n: nat ensures !ChainEnds(byId, Some(id), n) {
      CycleNeverEnds(byId, path, m, m, n);
    }
  }

  /** A walk from `start` has passed `path` and stands before `ancestor`. */
  ghost predicate Walking(byId: map<Id, Item>, start: Id, path: seq<Id>, ancestor: Option<Id>) {
    && Linked(byId, path)
    && (path == [] ==> ancestor == Some(start))
    && (path != [] ==> path[0] == start && path[|path| - 1] in byId && ancestor == byId[path[|path| - 1]].parent)
  }

  lemma WalkOn(byId: map<Id, Item>, start: Id, path: seq<Id>, id: Id)
    requires Walking(byId, start, path, Some(id))
    ensures Linked(byId, path + [id]) && (path + [id])[0] == start
    ensures id in byId ==> Walking(byId, start, path + [id], byId[id].parent)
  {
  }

  ghost predicate SameMembers(visited: set<Id>, path: seq<Id>) {
    forall id :: id in visited <==> id in path
  }

  lemma OneMoreMember(visited: set<Id>, path: seq<Id>, id: Id)
    requires SameMembers(visited, path)
    ensures SameMembers(visited + {id}, path + [id])
  {
  }

  lemma OneFewer(all: set<Id>, visited: set<Id>, id: Id)
    requires id in all && id !in visited
    ensures |all - (visited + {id})| < |all - visited|
  {
    assert all - visited == all - (visited + {id}) + {id};
  }

  /** Walk up to a cached answer, a repeat, a missing item or the top. */
  method WalkUp(byId: map<Id, Item>, start: Id, cache: map<Id, seq<Reason>>) returns (path: seq<Id>, suffix: seq<Reason>)
    requires Sound(byId, cache) && start !in cache
    ensures |path| > 0 && path[0] == start && Linked(byId, path)
    ensures Answers(byId, ParentOf(byId, path[|path| - 1]), suffix)
  {
    path := [];
    suffix := [];
    TopAnswers(byId);
    var visited: set<Id> := {};
    var ancestor := Some(start);
    while ancestor.Some?
      invariant Walking(byId, start, path, ancestor)
      invariant SameMembers(visited, path)
      invariant suffix == []
      decreases |byId.Keys - visited|, ancestor.Some?
    {
      var id := ancestor.value;
      if id in cache {
        return path, cache[id];
      }
      if id in visited {
        RepeatAnswers(byId, path, id);
        return path, [AncestorNotBacklog(id)];
      }
      WalkOn(byId, start, path, id);
      ghost var passed := path;
      path := path + [id];
      if id !in byId {
        return;
      }
      OneFewer(byId.Keys, visited, id);
      OneMoreMember(visited, passed, id);
      visited := visited + {id};
      ancestor := byId[id].parent;
    }
  }

  lemma TopAnswers(byId: map<Id, Item>)
    ensures Answers(byId, None, [])
  {
    assert ChainEnds(byId, None, 0);
  }

  /** The reasons a parent chain gives, filling the cache for every item passed. */
  method AncestorReasons(start: Option<Id>, byId: map<Id, Item>, cache: map<Id, seq<Reason>>)
    returns (reasons: seq<Reason>, filled: map<Id, seq<Reason>>)
    requires Sound(byId, cache)
    ensures Answers(byId, start, reasons)
    ensures Sound(byId, filled)
  {
    filled := cache;
    if start.None? {
      TopAnswers(byId);
      return [], cache;
    }
    if start.value in cache {
      return cache[start.value], cache;
    }
    var path, suffix := WalkUp(byId, start.value, cache);
    var index := |path|;
    while index > 0
      invariant 0 <= index <= |path|
      invariant Sound(byId, filled)
      invariant index > 0 ==> Answers(byId, ParentOf(byId, path[index - 1]), suffix)
      invariant index == 0 ==> Answers(byId, start, suffix)
    {
      index := index - 1;
      AnswerExtends(byId, path[index], suffix);
      suffix := Extended(byId, path[index], suffix);
      filled := filled[path[index] := suffix];
    }
    reasons := suffix;
  }

  // ----- the projection -----

  function OwnReasons(item: Item, asOf: Date): seq<Reason> {
    (if item.kind.Task? then [] else [KindNotTask])
    + (if item.status.Backlog? then [] else [StatusNotBacklog])
    + (if item.snoozedUntil.Some? && item.snoozedUntil.value > asOf then [Snoozed] else [])
  }

  predicate Satisfied(item: Item, byId: map<Id, Item>, dependency: Id) {
    item.schema2 && dependency in byId && byId[dependency].status.Done?
  }

  function DependencyReasons(item: Item, byId: map<Id, Item>, dependencies: seq<Id>): seq<Reason> {
    if dependencies == [] then []
    else
      var k := |dependencies| - 1;
      DependencyReasons(item, byId, dependencies[..k])
      + (if Satisfied(item, byId, dependencies[k]) then [] else [DependencyUnsatisfied(dependencies[k])])
  }

  function StateOf(own: seq<Reason>, reasons: seq<Reason>): State {
    if own != [] then Ineligible else if reasons != [] then Blocked else Ready
  }

  /** What a projection must say of an item. */
  ghost predicate Projects(r: Readiness, item: Item, byId: map<Id, Item>, asOf: Date) {
    exists chain: seq<Reason> ::
      && Answers(byId, item.parent, chain)
      && r.reasons == OwnReasons(item, asOf) + DependencyReasons(item, byId, item.dependsOn) + chain
      && r.state == StateOf(OwnReasons(item, asOf), r.reasons)
  }

  method ProjectItem(item: Item, byId: map<Id, Item>, cache: map<Id, seq<Reason>>, asOf: Date)
    returns (r: Readiness, filled: map<Id, seq<Reason>>)
    requires Sound(byId, cache)
    ensures Projects(r, item, byId, asOf) && Sound(byId, filled)
  {
    var reasons := OwnReasons(item, asOf);
    var own := reasons;
    for i := 0 to |item.dependsOn|
      invariant reasons == own + DependencyReasons(item, byId, item.dependsOn[..i])
    {
      assert item.dependsOn[..i + 1][..i] == item.dependsOn[..i];
      if !Satisfied(item, byId, item.dependsOn[i]) {
        reasons := reasons + [DependencyUnsatisfied(item.dependsOn[i])];
      }
    }
    assert item.dependsOn[..|item.dependsOn|] == item.dependsOn;
    var chain;
    chain, filled := AncestorReasons(item.parent, byId, cache);
    r := Readiness(StateOf(own, reasons + chain), reasons + chain);
  }

  ghost predicate ProjectsAll(projection: map<Id, Readiness>, latest: map<Id, Item>, byId: map<Id, Item>, asOf: Date) {
    projection.Keys == latest.Keys && forall id :: id in latest ==> Projects(projection[id], latest[id], byId, asOf)
  }

  lemma ProjectsOneMore(projection: map<Id, Readiness>, latest: map<Id, Item>, x: Item, r: Readiness,
                        byId: map<Id, Item>, asOf: Date)
    requires ProjectsAll(projection, latest, byId, asOf) && Projects(r, x, byId, asOf)
    ensures ProjectsAll(projection[x.id := r], latest[x.id := x], byId, asOf)
  {
  }

  /** One pass over the items, sharing one cache. */
  method ProjectReadiness(items: seq<Item>, asOf: Date) returns (projection: map<Id, Readiness>)
    ensures ProjectsAll(projection, Lookup(items), Lookup(items), asOf)
  {
    var byId := Lookup(items);
    var cache: map<Id, seq<Reason>> := map[];
    projection := map[];
    for i := 0 to |items|
      invariant Sound(byId, cache)
      invariant ProjectsAll(projection, Lookup(items[..i]), byId, asOf)
    {
      assert items[..i + 1][..i] == items[..i];
      var r;
      r, cache := ProjectItem(items[i], byId, cache, asOf);
      ProjectsOneMore(projection, Lookup(items[..i]), items[i], r, byId, asOf);
      projection := projection[items[i].id := r];
    }
    assert items[..|items|] == items;
  }

  // ----- what ready means -----

  /** Ready: a backlog task, awake, every dependency done, and every ancestor
      present and in backlog. */
  ghost predicate IsReady(item: Item, byId: map<Id, Item>, asOf: Date) {
    && item.kind.Task? && item.status.Backlog?
    && (item.snoozedUntil.Some? ==> item.snoozedUntil.value <= asOf)
    && (forall d :: d in item.dependsOn ==> item.schema2 && d in byId && byId[d].status.Done?)
    && ChainReady(byId, item.parent)
  }

  lemma {:induction false} NoDependencyReasons(item: Item, byId: map<Id, Item>, dependencies: seq<Id>)
    ensures DependencyReasons(item, byId, dependencies) == []
            <==> forall d :: d in dependencies ==> Satisfied(item, byId, d)
  {
    if dependencies == [] {
    } else {
      var k := |dependencies| - 1;
      NoDependencyReasons(item, byId, dependencies[..k]);
      InEither(dependencies[..k], [dependencies[k]], dependencies[k]);
      assert dependencies == dependencies[..k] + [dependencies[k]];
    }
  }

  /** The dependencies that give a reason are those not done in the ledger, on
      schema 1 all of them; each gives it as often as it is listed. */
  lemma {:induction false} DependencyReasonsAre(item: Item, byId: map<Id, Item>, dependencies: seq<Id>, d: Id)
    ensures var reasons := DependencyReasons(item, byId, dependencies);
            && multiset(reasons)[DependencyUnsatisfied(d)]
               == (if item.schema2 && d in byId && byId[d].status == Done then 0 else multiset(dependencies)[d])
            && forall r :: r in reasons ==> r.DependencyUnsatisfied?
  {
    if dependencies == [] {
    } else {
      var k := |dependencies| - 1;
      assert dependencies == dependencies[..k] + [dependencies[k]];
      DependencyReasonsAre(item, byId, dependencies[..k], d);
    }
  }

  lemma {:induction false} AnswersNameAncestors(byId: map<Id, Item>, start: Option<Id>, n: nat)
    ensures AncestorNotBacklogOnly(NaiveReasons(byId, start, n))
    decreases n
  {
    if n > 0 && start.Some? && start.value in byId {
      AnswersNameAncestors(byId, byId[start.value].parent, n - 1);
    }
  }

  /** What a projection says of an item whose parent chain ends: which of its own
      three checks fail, which dependencies are not done, and that it is
      ineligible if one of the three fails, blocked if only other reasons are
      given, and otherwise ready. */
  lemma ProjectedExactly(r: Readiness, item: Item, byId: map<Id, Item>, asOf: Date, n: nat)
    requires Projects(r, item, byId, asOf) && ChainEnds(byId, item.parent, n)
    ensures KindNotTask in r.reasons <==> item.kind == Epic
    ensures StatusNotBacklog in r.reasons <==> item.status != Backlog
    ensures Snoozed in r.reasons <==> item.snoozedUntil.Some? && item.snoozedUntil.value > asOf
    ensures forall d :: DependencyUnsatisfied(d) in r.reasons
                        <==> d in item.dependsOn && !(item.schema2 && d in byId && byId[d].status == Done)
    ensures r.state == Ineligible
            <==> KindNotTask in r.reasons || StatusNotBacklog in r.reasons || Snoozed in r.reasons
    ensures r.state == Ready <==> r.reasons == []
  {
    var own, chain := OwnReasons(item, asOf), NaiveReasons(byId, item.parent, n);
    var dependencies := DependencyReasons(item, byId, item.dependsOn);
    MemoisedIsNaive(r, item, byId, asOf, n);
    AnswersNameAncestors(byId, item.parent, n);
    OwnReasonsAre(item, asOf);
    InReasons(item, byId, own, chain, KindNotTask);
    InReasons(item, byId, own, chain, StatusNotBacklog);
    InReasons(item, byId, own, chain, Snoozed);
    forall d {
      InReasons(item, byId, own, chain, DependencyUnsatisfied(d));
    }
    assert own != [] ==> own[0] in own;
  }

  /** Where a reason among all of an item's comes from. */
  lemma InReasons(item: Item, byId: map<Id, Item>, own: seq<Reason>, chain: seq<Reason>, reason: Reason)
    requires !reason.AncestorNotBacklog? && AncestorNotBacklogOnly(chain)
    requires forall r :: r in own ==> !r.DependencyUnsatisfied?
    ensures reason in own + DependencyReasons(item, byId, item.dependsOn) + chain
            <==> if !reason.DependencyUnsatisfied? then reason in own
                 else && reason.item in item.dependsOn
                      && !(item.schema2 && reason.item in byId && byId[reason.item].status == Done)
  {
    var dependencies := DependencyReasons(item, byId, item.dependsOn);
    InEither(own + dependencies, chain, reason);
    InEither(own, dependencies, reason);
    var d := if reason.DependencyUnsatisfied? then reason.item else item.id;
    DependencyReasonsAre(item, byId, item.dependsOn, d);
    assert DependencyUnsatisfied(d) in dependencies <==> DependencyUnsatisfied(d) in multiset(dependencies);
    assert d in item.dependsOn <==> d in multiset(item.dependsOn);
  }

  ghost predicate AncestorNotBacklogOnly(reasons: seq<Reason>) {
    forall r :: r in reasons ==> r.AncestorNotBacklog?
  }

  lemma OwnReasonsAre(item: Item, asOf: Date)
    ensures var own := OwnReasons(item, asOf);
            && (KindNotTask in own <==> item.kind == Epic)
            && (StatusNotBacklog in own <==> item.status != Backlog)
            && (Snoozed in own <==> item.snoozedUntil.Some? && item.snoozedUntil.value > asOf)
            && forall r :: r in own ==> r in {KindNotTask, StatusNotBacklog, Snoozed}
  {
  }

  lemma {:induction false} NaiveIsEmpty(byId: map<Id, Item>, start: Option<Id>, n: nat)
    requires ChainEnds(byId, start, n)
    ensures NaiveReasons(byId, start, n) == [] <==> ChainInBacklog(byId, start, n)
    decreases n
  {
    if start.Some? && start.value in byId {
      NaiveIsEmpty(byId, byId[start.value].parent, n - 1);
    }
  }

  lemma {:induction false} BacklogChainEnds(byId: map<Id, Item>, start: Option<Id>, n: nat)
    requires ChainInBacklog(byId, start, n)
    ensures ChainEnds(byId, start, n)
    decreases n
  {
    if start.Some? {
      BacklogChainEnds(byId, byId[start.value].parent, n - 1);
    }
  }

  /** On every ledger, cycles and missing parents included, an answer is empty
      exactly when the whole chain is finite, present and in backlog. */
  lemma EmptyMeansChainReady(byId: map<Id, Item>, start: Option<Id>, reasons: seq<Reason>)
    requires Answers(byId, start, reasons)
    ensures reasons == [] <==> ChainReady(byId, start)
  {
    if reasons == [] {
      var n: nat :| ChainEnds(byId, start, n);
      NaiveIsEmpty(byId, start, n);
    }
    if ChainReady(byId, start) {
      var n: nat :| ChainInBacklog(byId, start, n);
      BacklogChainEnds(byId, start, n);
      NaiveIsEmpty(byId, start, n);
    }
  }

  lemma ReadyMeans(r: Readiness, item: Item, byId: map<Id, Item>, asOf: Date)
    requires Projects(r, item, byId, asOf)
    ensures r.state.Ready? <==> IsReady(item, byId, asOf)
    ensures r.state.Ready? <==> r.reasons == []
  {
    var chain :| Answers(byId, item.parent, chain)
                 && r.reasons == OwnReasons(item, asOf) + DependencyReasons(item, byId, item.dependsOn) + chain
                 && r.state == StateOf(OwnReasons(item, asOf), r.reasons);
    NoDependencyReasons(item, byId, item.dependsOn);
    EmptyMeansChainReady(byId, item.parent, chain);
  }

  /** Whatever order the items come in, memoisation gives the plain walk's
      reasons on every chain that ends. */
  lemma MemoisedIsNaive(r: Readiness, item: Item, byId: map<Id, Item>, asOf: Date, n: nat)
    requires Projects(r, item, byId, asOf) && ChainEnds(byId, item.parent, n)
    ensures r.reasons == OwnReasons(item, asOf) + DependencyReasons(item, byId, item.dependsOn)
                         + NaiveReasons(byId, item.parent, n)
  {
  }

  // ----- selection -----

  predicate Before(x: Item, y: Item) {
    if x.priority.Some? != y.priority.Some? then x.priority.Some?
    else if x.priority.Some? && x.priority.value != y.priority.value then x.priority.value < y.priority.value
    else if x.created != y.created then x.created < y.created
    else x.id < y.id
  }

  /** No item without a priority is ahead of one with, priorities do not fall,
      among equals creation dates do not, and among those IDs rise. */
  ghost predicate InSelectionOrder(s: seq<Item>) {
    forall i, k :: 0 <= i < k < |s| ==>
      && (s[k].priority.Some? ==> s[i].priority.Some? && s[i].priority.value <= s[k].priority.value)
      && (s[i].priority == s[k].priority ==> s[i].created <= s[k].created)
      && (s[i].priority == s[k].priority && s[i].created == s[k].created ==> s[i].id < s[k].id)
  }

  ghost predicate Ascending(s: seq<Item>) {
    forall i, k :: 0 <= i < k < |s| ==> Before(s[i], s[k])
  }

  /** That order is what sorting by the comparison gives. */
  lemma AscendingMeans(s: seq<Item>)
    ensures Ascending(s) <==> InSelectionOrder(s)
  {
  }

  lemma SortedAscends(items: seq<Item>)
    requires DistinctIds(items)
    ensures Ascending(Sorted(items, Before))
  {
    SortedInOrder(items, Before);
    SortedDistinct(items, Before, IdOf);
  }

  /** An ascending list is determined by its members. */
  lemma {:induction false} AscendingIsUnique(a: seq<Item>, b: seq<Item>)
    requires Ascending(a) && Ascending(b) && forall x :: x in a <==> x in b
    ensures a == b
  {
    BothEmpty(a, b);
    if a != [] && b != [] {
      var k, m := |a| - 1, |b| - 1;
      assert a[k] in b && b[m] in a;
      LastIsLast(a, b);
      forall x ensures x in a[..k] <==> x in b[..m] {
        AllButLast(a, x);
        AllButLast(b, x);
      }
      AscendingIsUnique(a[..k], b[..m]);
      assert a == a[..k] + [a[k]] && b == b[..m] + [b[m]];
    }
  }

  lemma BothEmpty(a: seq<Item>, b: seq<Item>)
    requires forall x :: x in a <==> x in b
    ensures a == [] <==> b == []
  {
    assert |b| > 0 ==> b[0] in a;
    assert |a| > 0 ==> a[0] in b;
  }

  lemma AllButLast(a: seq<Item>, x: Item)
    requires Ascending(a) && a != []
    ensures x in a[..|a| - 1] <==> x in a && x != a[|a| - 1]
  {
    assert a == a[..|a| - 1] + [a[|a| - 1]];
  }

  lemma LastIsLast(a: seq<Item>, b: seq<Item>)
    requires Ascending(a) && Ascending(b) && |a| > 0 && |b| > 0
    requires a[|a| - 1] in b && b[|b| - 1] in a
    ensures a[|a| - 1] == b[|b| - 1]
  {
    var x, y := a[|a| - 1], b[|b| - 1];
    var i :| 0 <= i < |b| && b[i] == x;
    var k :| 0 <= k < |a| && a[k] == y;
    assert i < |b| - 1 ==> Before(x, y);
    assert k < |a| - 1 ==> Before(y, x);
  }

  function Ids(items: seq<Item>): seq<Id> {
    seq(|items|, i requires 0 <= i < |items| => items[i].id)
  }

  /** The items whose projected state is ready, in input order. */
  function KeepReady(items: seq<Item>, projection: map<Id, Readiness>): seq<Item>
    requires forall i :: 0 <= i < |items| ==> items[i].id in projection
  {
    if items == [] then []
    else
      var k := |items| - 1;
      KeepReady(items[..k], projection) + (if projection[items[k].id].state.Ready? then [items[k]] else [])
  }

  lemma {:induction false} KeptIs(items: seq<Item>, projection: map<Id, Readiness>, x: Item)
    requires forall i :: 0 <= i < |items| ==> items[i].id in projection
    ensures x in KeepReady(items, projection) <==> x in items && projection[x.id].state.Ready?
  {
    if items == [] {
    } else {
      var k := |items| - 1;
      KeptIs(items[..k], projection, x);
      assert items == items[..k] + [items[k]];
    }
  }

  lemma {:induction false} KeptDistinct(items: seq<Item>, projection: map<Id, Readiness>)
    requires DistinctIds(items) && forall i :: 0 <= i < |items| ==> items[i].id in projection
    ensures DistinctIds(KeepReady(items, projection))
  {
    if items == [] {
    } else {
      var k := |items| - 1;
      KeptDistinct(items[..k], projection);
      forall y | y in KeepReady(items[..k], projection) ensures y.id != items[k].id {
        KeptIs(items[..k], projection, y);
      }
    }
  }

  /** The selection lists exactly the ready items, in selection order. */
  ghost predicate Selects(selection: seq<Id>, items: seq<Item>, asOf: Date) {
    exists sorted: seq<Item> ::
      && selection == Ids(sorted) && InSelectionOrder(sorted)
      && forall x :: x in sorted <==> x in items && IsReady(x, Lookup(items), asOf)
  }

  method SelectReady(items: seq<Item>, asOf: Date) returns (selection: seq<Id>)
    ensures DistinctIds(items) ==> Selects(selection, items, asOf)
  {
    var projection := ProjectReadiness(items, asOf);
    var ready := KeepReady(items, projection);
    selection := Ids(Sorted(ready, Before));
    if DistinctIds(items) {
      KeptDistinct(items, projection);
      SortedAscends(ready);
      AscendingMeans(Sorted(ready, Before));
      forall x ensures x in Sorted(ready, Before) <==> x in items && IsReady(x, Lookup(items), asOf) {
        SortedIs(ready, Before, x);
        KeptIs(items, projection, x);
        if x in items {
          ProjectedReady(items, projection, x, asOf);
        }
      }
    }
  }

  lemma ProjectedReady(items: seq<Item>, projection: map<Id, Readiness>, x: Item, asOf: Date)
    requires DistinctIds(items) && ProjectsAll(projection, Lookup(items), Lookup(items), asOf) && x in items
    ensures x.id in projection && (projection[x.id].state.Ready? <==> IsReady(x, Lookup(items), asOf))
  {
    var i :| 0 <= i < |items| && items[i] == x;
    LookupDistinct(items, i);
    ReadyMeans(projection[x.id], x, Lookup(items), asOf);
  }

  /** With distinct IDs the selection does not depend on the input order. */
  lemma SelectionIgnoresOrder(a: seq<Item>, b: seq<Item>, asOf: Date, s: seq<Id>, t: seq<Id>)
    requires DistinctIds(a) && DistinctIds(b) && forall x :: x in a <==> x in b
    requires Selects(s, a, asOf) && Selects(t, b, asOf)
    ensures s == t
  {
    LookupOfSet(a, b);
    var p :| s == Ids(p) && InSelectionOrder(p) && forall x :: x in p <==> x in a && IsReady(x, Lookup(a), asOf);
    var q :| t == Ids(q) && InSelectionOrder(q) && forall x :: x in q <==> x in b && IsReady(x, Lookup(b), asOf);
    AscendingMeans(p);
    AscendingMeans(q);
    AscendingIsUnique(p, q);
  }
}
