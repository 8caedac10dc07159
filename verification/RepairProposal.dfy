/** Which numbers a duplicate-number repair moves, and to what: the proposal and
    the apply checks of src/ledger-repair.js.

    Item IDs are an opaque totally ordered identity; an item's revision stands
    for its bytes, and a ledger for its own snapshot revision. */
module RepairProposal {
  import opened Decimal
  import opened Options
  import opened Sorting

  type Id = nat

  /** Schema 1 items may carry no number; 0 stands for any invalid one. */
  datatype Item = Item(id: Id, revision: nat, number: Option<nat>)

  type Ledger = seq<Item>

  datatype Change = Change(id: Id, expectedRevision: nat, expectedNumber: nat, replacement: nat)

  datatype Request = Request(snapshot: Ledger, changes: seq<Change>)

  datatype Refusal =
    | InvalidRequest
    | NotApplicable
    | SnapshotConflict
    | WitnessConflict(id: Id)
    | MappingIncomplete(missing: set<Id>, unexpected: set<Id>)
    | NumberCollision(id: Id, replacement: nat)
    | SuccessorInvalid

  // ----- the ledgers a repair applies to -----

  function IdOf(x: Item): Id {
    x.id
  }

  predicate DistinctIds(items: seq<Item>) {
    DistinctBy(items, IdOf)
  }

  predicate DistinctNumbers(items: seq<Item>) {
    forall i, k :: 0 <= i < k < |items| && items[i].number.Some? ==> items[i].number != items[k].number
  }

  predicate NumbersInRange(items: seq<Item>) {
    forall i :: 0 <= i < |items| && items[i].number.Some? ==> 1 <= items[i].number.value <= MAX_SAFE_INTEGER
  }

  /** Valid but for duplicate numbers, and blocked by at least one. */
  predicate Applicable(ledger: Ledger) {
    DistinctIds(ledger) && NumbersInRange(ledger) && !DistinctNumbers(ledger)
  }

  /** No two items share an ID, every number is a positive safe integer, and two
      items share a number. */
  ghost predicate Repairable(ledger: Ledger) {
    && (forall i, k :: 0 <= i < |ledger| && 0 <= k < |ledger| && ledger[i].id == ledger[k].id ==> i == k)
    && (forall x, n :: x in ledger && x.number == Some(n) ==> 0 < n < 0x20_0000_0000_0000)
    && exists x, y :: x in ledger && y in ledger && x.id < y.id && x.number.Some? && x.number == y.number
  }

  lemma RepairableExactly(ledger: Ledger)
    ensures Applicable(ledger) <==> Repairable(ledger)
  {
    if Applicable(ledger) {
      var i, k :| 0 <= i < k < |ledger| && ledger[i].number.Some? && ledger[i].number == ledger[k].number;
      assert IdOf(ledger[i]) != IdOf(ledger[k]);
      assert ledger[i] in ledger && ledger[k] in ledger;
    }
    if Repairable(ledger) {
      var x, y :| x in ledger && y in ledger && x.id < y.id && x.number.Some? && x.number == y.number;
      var i :| 0 <= i < |ledger| && ledger[i] == x;
      var k :| 0 <= k < |ledger| && ledger[k] == y;
      assert i < k || k < i;
    }
  }

  /** Some item with the same number has a smaller ID. */
  predicate Moves(ledger: Ledger, x: Item) {
    x.number.Some? && exists i :: 0 <= i < |ledger| && ledger[i].number == x.number && ledger[i].id < x.id
  }

  /** Every holder of a duplicated number but the one with the least ID. */
  function MovableIds(ledger: Ledger): set<Id> {
    set x | x in ledger && Moves(ledger, x) :: x.id
  }

  function Highest(ledger: Ledger): nat {
    if ledger == [] then 0
    else
      var before := Highest(ledger[..|ledger| - 1]);
      var number := ledger[|ledger| - 1].number;
      if number.Some? && number.value > before then number.value else before
  }

  // ----- grouping by number -----

  function Holders(ledger: Ledger, number: nat): seq<Item> {
    if ledger == [] then []
    else
      var k := |ledger| - 1;
      Holders(ledger[..k], number) + (if ledger[k].number == Some(number) then [ledger[k]] else [])
  }

  lemma {:induction false} HolderIs(ledger: Ledger, number: nat, x: Item)
    ensures x in Holders(ledger, number) <==> x in ledger && x.number == Some(number)
  {
    if ledger == [] {
    } else {
      var k := |ledger| - 1;
      HolderIs(ledger[..k], number, x);
      assert ledger == ledger[..k] + [ledger[k]];
    }
  }

  ghost predicate Groups(groups: map<nat, seq<Item>>, ledger: Ledger) {
    forall n :: Holders(ledger, n) == if n in groups then groups[n] else []
  }

  method GroupByNumber(ledger: Ledger) returns (groups: map<nat, seq<Item>>)
    ensures Groups(groups, ledger)
    ensures forall n :: n in groups ==> groups[n] != []
  {
    groups := map[];
    for i := 0 to |ledger|
      invariant Groups(groups, ledger[..i])
      invariant forall n :: n in groups ==> groups[n] != []
    {
      assert ledger[..i + 1][..i] == ledger[..i];
      if ledger[i].number.Some? {
        var n := ledger[i].number.value;
        var members := if n in groups then groups[n] else [];
        assert members == Holders(ledger[..i], n);
        groups := groups[n := members + [ledger[i]]];
      }
    }
    assert ledger[..|ledger|] == ledger;
  }

  /** The least ID of a group. */
  method LeastId(members: seq<Item>) returns (least: Id)
    requires members != []
    ensures exists i :: 0 <= i < |members| && members[i].id == least
    ensures forall i :: 0 <= i < |members| ==> least <= members[i].id
  {
    least := members[0].id;
    for i := 1 to |members|
      invariant exists k :: 0 <= k < |members| && members[k].id == least
      invariant forall k :: 0 <= k < i ==> least <= members[k].id
    {
      if members[i].id < least {
        least := members[i].id;
      }
    }
  }

  /** The IDs after the first of each group, in ID order. */
  method ExpectedChangedIds(ledger: Ledger) returns (ids: set<Id>)
    ensures ids == MovableIds(ledger)
  {
    var groups := GroupByNumber(ledger);
    forall x | x in ledger && x.number.Some? ensures x.number.value in groups {
      HolderIs(ledger, x.number.value, x);
      assert Holders(ledger, x.number.value) == if x.number.value in groups then groups[x.number.value] else [];
    }
    ids := {};
    var todo := groups.Keys;
    while todo != {}
      invariant todo <= groups.Keys
      invariant ids == set x | x in ledger && Moves(ledger, x) && x.number.value !in todo :: x.id
      decreases |todo|
    {
      var n :| n in todo;
      var members := groups[n];
      assert members == Holders(ledger, n);
      var least := LeastId(members);
      var rest := set x | x in members && x.id != least :: x.id;
      forall x | x in ledger && x.number == Some(n)
        ensures x in members && (Moves(ledger, x) <==> x.id != least)
      {
        MovesUnlessLeast(ledger, n, least, x);
      }
      forall x | x in members ensures x in ledger && x.number == Some(n) { HolderIs(ledger, n, x); }
      ids := ids + rest;
      todo := todo - {n};
    }
  }

  lemma MovesUnlessLeast(ledger: Ledger, n: nat, least: Id, x: Item)
    requires x in ledger && x.number == Some(n)
    requires exists i :: 0 <= i < |Holders(ledger, n)| && Holders(ledger, n)[i].id == least
    requires forall i :: 0 <= i < |Holders(ledger, n)| ==> least <= Holders(ledger, n)[i].id
    ensures x in Holders(ledger, n)
    ensures Moves(ledger, x) <==> x.id != least
  {
    var h := Holders(ledger, n);
    HolderIs(ledger, n, x);
    var k :| 0 <= k < |h| && h[k].id == least;
    HolderIs(ledger, n, h[k]);
    var i :| 0 <= i < |ledger| && ledger[i] == h[k];
    if Moves(ledger, x) {
      var j :| 0 <= j < |ledger| && ledger[j].number == x.number && ledger[j].id < x.id;
      HolderIs(ledger, n, ledger[j]);
    }
  }

  // ----- the proposal -----

  predicate LesserId(x: Item, y: Item) {
    x.id < y.id
  }

  /** The items whose IDs are in `ids`, in ledger order. */
  function Those(ledger: Ledger, ids: set<Id>): seq<Item> {
    if ledger == [] then []
    else
      var k := |ledger| - 1;
      Those(ledger[..k], ids) + (if ledger[k].id in ids then [ledger[k]] else [])
  }

  /** The same in ID order. */
  function Picked(ledger: Ledger, ids: set<Id>): seq<Item> {
    Sorted(Those(ledger, ids), LesserId)
  }

  function NumberOf(x: Item): nat {
    if x.number.Some? then x.number.value else 0
  }

  /** Each moved item takes the next number above every number in the ledger. */
  function Suggested(ledger: Ledger): seq<Change> {
    ChangesAbove(Highest(ledger), Picked(ledger, MovableIds(ledger)))
  }

  function ChangesAbove(highest: nat, moved: seq<Item>): seq<Change> {
    seq(|moved|, i requires 0 <= i < |moved| =>
      Change(moved[i].id, moved[i].revision, NumberOf(moved[i]), highest + i + 1))
  }

  method NumberRepairProposal(ledger: Ledger) returns (r: Option<Request>)
    ensures r.Some? <==> Repairable(ledger)
    ensures r == if Applicable(ledger) then Some(Request(ledger, Suggested(ledger))) else None
  {
    RepairableExactly(ledger);
    if !Applicable(ledger) {
      return None;
    }
    var ids := ExpectedChangedIds(ledger);
    var highest := FindHighest(ledger);
    return Some(Request(ledger, ChangesAbove(highest, Picked(ledger, ids))));
  }

  method FindHighest(ledger: Ledger) returns (highest: nat)
    ensures highest == Highest(ledger)
  {
    highest := 0;
    for i := 0 to |ledger|
      invariant highest == Highest(ledger[..i])
    {
      assert ledger[..i + 1][..i] == ledger[..i];
      if ledger[i].number.Some? && ledger[i].number.value > highest {
        highest := ledger[i].number.value;
      }
    }
    assert ledger[..|ledger|] == ledger;
  }

  // ----- the apply checks -----

  predicate WellFormed(changes: seq<Change>) {
    && changes != []
    && (forall i :: 0 <= i < |changes| ==>
          1 <= changes[i].expectedNumber <= MAX_SAFE_INTEGER && 1 <= changes[i].replacement <= MAX_SAFE_INTEGER)
    && (forall i, k :: 0 <= i < k < |changes| ==>
          changes[i].id != changes[k].id && changes[i].replacement != changes[k].replacement)
  }

  predicate Witnesses(c: Change, x: Item) {
    x.id == c.id && x.revision == c.expectedRevision && x.number == Some(c.expectedNumber)
  }

  predicate Matched(c: Change, ledger: Ledger) {
    exists k :: 0 <= k < |ledger| && Witnesses(c, ledger[k])
  }

  predicate Witnessed(changes: seq<Change>, ledger: Ledger) {
    forall i :: 0 <= i < |changes| ==> Matched(changes[i], ledger)
  }

  function ChangedIds(changes: seq<Change>): set<Id> {
    set c | c in changes :: c.id
  }

  /** The last item listed with this number: how the check's map is filled. */
  function Occupant(ledger: Ledger, number: nat): Option<Id> {
    if ledger == [] then None
    else
      var k := |ledger| - 1;
      if ledger[k].number == Some(number) then Some(ledger[k].id) else Occupant(ledger[..k], number)
  }

  predicate Collides(ledger: Ledger, changed: set<Id>, c: Change) {
    var occupant := Occupant(ledger, c.replacement);
    occupant.Some? && (occupant.value == c.id || occupant.value !in changed)
  }

  predicate CollisionFree(changes: seq<Change>, ledger: Ledger) {
    forall i :: 0 <= i < |changes| ==> !Collides(ledger, ChangedIds(changes), changes[i])
  }

  /** The number an item has after the changes. */
  function Renumbered(x: Item, changes: seq<Change>): Option<nat> {
    if changes == [] then x.number
    else
      var k := |changes| - 1;
      if changes[k].id == x.id then Some(changes[k].replacement) else Renumbered(x, changes[..k])
  }

  /** The successor holds pairwise distinct numbers. */
  predicate SuccessorValid(changes: seq<Change>, ledger: Ledger) {
    forall i, k :: 0 <= i < k < |ledger| && Renumbered(ledger[i], changes).Some? ==>
      Renumbered(ledger[i], changes) != Renumbered(ledger[k], changes)
  }

  predicate Accepted(request: Request, ledger: Ledger) {
    && WellFormed(request.changes)
    && Applicable(ledger)
    && request.snapshot == ledger
    && Witnessed(request.changes, ledger)
    && ChangedIds(request.changes) == MovableIds(ledger)
    && CollisionFree(request.changes, ledger)
    && SuccessorValid(request.changes, ledger)
  }

  method CheckChanges(changes: seq<Change>) returns (ok: bool)
    ensures ok == WellFormed(changes)
  {
    if changes == [] {
      return false;
    }
    var seenIds: set<Id> := {};
    var seenReplacements: set<nat> := {};
    for i := 0 to |changes|
      invariant seenIds == set k | 0 <= k < i :: changes[k].id
      invariant seenReplacements == set k | 0 <= k < i :: changes[k].replacement
      invariant forall k :: 0 <= k < i ==>
                  1 <= changes[k].expectedNumber <= MAX_SAFE_INTEGER && 1 <= changes[k].replacement <= MAX_SAFE_INTEGER
      invariant forall k, m :: 0 <= k < m < i ==>
                  changes[k].id != changes[m].id && changes[k].replacement != changes[m].replacement
    {
      var c := changes[i];
      if c.id in seenIds || !(1 <= c.expectedNumber <= MAX_SAFE_INTEGER)
         || !(1 <= c.replacement <= MAX_SAFE_INTEGER) || c.replacement in seenReplacements {
        return false;
      }
      seenIds := seenIds + {c.id};
      seenReplacements := seenReplacements + {c.replacement};
    }
    return true;
  }

  method CheckWitnesses(changes: seq<Change>, ledger: Ledger) returns (refusal: Option<Refusal>)
    requires DistinctIds(ledger)
    ensures refusal.None? <==> Witnessed(changes, ledger)
    ensures refusal.Some? ==>
              exists i :: && 0 <= i < |changes| && refusal == Some(WitnessConflict(changes[i].id))
                          && !Matched(changes[i], ledger) && forall k :: 0 <= k < i ==> Matched(changes[k], ledger)
  {
    var itemsById: map<Id, Item> := map[];
    for i := 0 to |ledger|
      invariant forall id :: id in itemsById ==> exists k :: 0 <= k < i && ledger[k] == itemsById[id] && ledger[k].id == id
      invariant forall k :: 0 <= k < i ==> ledger[k].id in itemsById && itemsById[ledger[k].id] == ledger[k]
    {
      itemsById := itemsById[ledger[i].id := ledger[i]];
    }
    for i := 0 to |changes|
      invariant forall k :: 0 <= k < i ==> Matched(changes[k], ledger)
    {
      var c := changes[i];
      if c.id !in itemsById || !Witnesses(c, itemsById[c.id]) {
        assert !Matched(changes[i], ledger);
        return Some(WitnessConflict(c.id));
      }
    }
    return None;
  }

  /** No replacement is the number of an item that stays, as the map sees it. The
      source also refuses two changes that share a replacement; CheckChanges
      already has. */
  method CheckCollisions(changes: seq<Change>, ledger: Ledger) returns (refusal: Option<Refusal>)
    ensures refusal.None? <==> CollisionFree(changes, ledger)
    ensures refusal.Some? ==> refusal.value.NumberCollision?
  {
    var changed := ChangedIds(changes);
    var occupied: map<nat, Id> := map[];
    for i := 0 to |ledger|
      invariant forall n :: Occupant(ledger[..i], n) == if n in occupied then Some(occupied[n]) else None
    {
      assert ledger[..i + 1][..i] == ledger[..i];
      if ledger[i].number.Some? {
        occupied := occupied[ledger[i].number.value := ledger[i].id];
      }
    }
    assert ledger[..|ledger|] == ledger;
    for i := 0 to |changes|
      invariant forall k :: 0 <= k < i ==> !Collides(ledger, changed, changes[k])
    {
      var c := changes[i];
      assert Occupant(ledger, c.replacement) == if c.replacement in occupied then Some(occupied[c.replacement]) else None;
      if c.replacement in occupied && (occupied[c.replacement] == c.id || occupied[c.replacement] !in changed) {
        assert Collides(ledger, changed, changes[i]);
        return Some(NumberCollision(c.id, c.replacement));
      }
    }
    return None;
  }

  /** The whole check sequence, in the order the source refuses. */
  method CheckNumberRepair(request: Request, ledger: Ledger) returns (refusal: Option<Refusal>)
    ensures refusal.None? <==> MayRepair(request, ledger)
    ensures refusal == Some(InvalidRequest) <==> !WellFormed(request.changes)
    ensures refusal == Some(NotApplicable) <==> WellFormed(request.changes) && !Repairable(ledger)
    ensures refusal == Some(SnapshotConflict)
            <==> WellFormed(request.changes) && Repairable(ledger) && request.snapshot != ledger
    ensures refusal.Some? && refusal.value.WitnessConflict? ==> !Witnessed(request.changes, ledger)
    ensures refusal.Some? && refusal.value.MappingIncomplete? ==>
              && refusal.value.missing == MovableIds(ledger) - ChangedIds(request.changes)
              && refusal.value.unexpected == ChangedIds(request.changes) - MovableIds(ledger)
              && refusal.value.missing + refusal.value.unexpected != {}
  {
    AcceptedExactly(request, ledger);
    RepairableExactly(ledger);
    var wellFormed := CheckChanges(request.changes);
    if !wellFormed {
      return Some(InvalidRequest);
    }
    if !Applicable(ledger) {
      return Some(NotApplicable);
    }
    if request.snapshot != ledger {
      return Some(SnapshotConflict);
    }
    refusal := CheckWitnesses(request.changes, ledger);
    if refusal.Some? {
      return;
    }
    var expected := ExpectedChangedIds(ledger);
    var requested := ChangedIds(request.changes);
    if requested != expected {
      return Some(MappingIncomplete(expected - requested, requested - expected));
    }
    refusal := CheckCollisions(request.changes, ledger);
    if refusal.Some? {
      return;
    }
    if !SuccessorValid(request.changes, ledger) {
      return Some(SuccessorInvalid);
    }
  }

  // ----- the proposal satisfies the repair -----

  lemma {:induction false} ThoseAre(ledger: Ledger, ids: set<Id>, x: Item)
    ensures x in Those(ledger, ids) <==> x in ledger && x.id in ids
  {
    if ledger == [] {
    } else {
      var k := |ledger| - 1;
      ThoseAre(ledger[..k], ids, x);
      assert ledger == ledger[..k] + [ledger[k]];
    }
  }

  lemma {:induction false} ThoseDistinct(ledger: Ledger, ids: set<Id>)
    requires DistinctIds(ledger)
    ensures DistinctIds(Those(ledger, ids))
  {
    if ledger == [] {
    } else {
      var k := |ledger| - 1;
      ThoseDistinct(ledger[..k], ids);
      forall y | y in Those(ledger[..k], ids) ensures y.id != ledger[k].id {
        ThoseAre(ledger[..k], ids, y);
      }
    }
  }

  lemma PickedIs(ledger: Ledger, ids: set<Id>, x: Item)
    ensures x in Picked(ledger, ids) <==> x in ledger && x.id in ids
  {
    ThoseAre(ledger, ids, x);
    SortedIs(Those(ledger, ids), LesserId, x);
  }

  lemma PickedDistinct(ledger: Ledger, ids: set<Id>)
    requires DistinctIds(ledger)
    ensures DistinctIds(Picked(ledger, ids))
  {
    ThoseDistinct(ledger, ids);
    SortedDistinct(Those(ledger, ids), LesserId, IdOf);
  }

  lemma {:induction false} HighestBounds(ledger: Ledger, i: nat)
    requires i < |ledger| && ledger[i].number.Some?
    ensures ledger[i].number.value <= Highest(ledger)
  {
    if i < |ledger| - 1 {
      HighestBounds(ledger[..|ledger| - 1], i);
    }
  }

  lemma {:induction false} HighestInRange(ledger: Ledger)
    requires NumbersInRange(ledger)
    ensures 0 <= Highest(ledger) <= MAX_SAFE_INTEGER
  {
    if ledger == [] {
    } else {
      HighestInRange(ledger[..|ledger| - 1]);
    }
  }

  /** What the suggested changes are, one by one. */
  lemma SuggestedIs(ledger: Ledger, i: nat)
    requires Applicable(ledger) && i < |Suggested(ledger)|
    ensures exists x :: x in ledger && Moves(ledger, x) && Witnesses(Suggested(ledger)[i], x)
    ensures Suggested(ledger)[i].replacement == Highest(ledger) + i + 1
  {
    var moved := Picked(ledger, MovableIds(ledger));
    PickedIs(ledger, MovableIds(ledger), moved[i]);
    var y :| y in ledger && Moves(ledger, y) && y.id == moved[i].id;
    SameIdSameItem(ledger, moved[i], y);
  }

  /** The items are moved in the order of their IDs. */
  lemma SuggestedInOrder(ledger: Ledger)
    requires Applicable(ledger)
    ensures forall i, k :: 0 <= i < k < |Suggested(ledger)| ==> Suggested(ledger)[i].id < Suggested(ledger)[k].id
  {
    var moved := Picked(ledger, MovableIds(ledger));
    PickedDistinct(ledger, MovableIds(ledger));
    SortedInOrder(Those(ledger, MovableIds(ledger)), LesserId);
    assert forall i, k :: 0 <= i < k < |moved| ==> IdOf(moved[i]) != IdOf(moved[k]) && !LesserId(moved[k], moved[i]);
  }

  lemma SameIdSameItem(ledger: Ledger, x: Item, y: Item)
    requires DistinctIds(ledger) && x in ledger && y in ledger && x.id == y.id
    ensures x == y
  {
    var i :| 0 <= i < |ledger| && ledger[i] == x;
    var k :| 0 <= k < |ledger| && ledger[k] == y;
    assert i == k;
  }

  lemma SuggestedIdsAreMovable(ledger: Ledger)
    requires Applicable(ledger)
    ensures ChangedIds(Suggested(ledger)) == MovableIds(ledger)
  {
    var moved := Picked(ledger, MovableIds(ledger));
    forall id | id in MovableIds(ledger) ensures id in ChangedIds(Suggested(ledger)) {
      var x :| x in ledger && Moves(ledger, x) && x.id == id;
      PickedIs(ledger, MovableIds(ledger), x);
      var i :| 0 <= i < |moved| && moved[i] == x;
      assert Suggested(ledger)[i].id == id;
      assert Suggested(ledger)[i] in Suggested(ledger);
    }
    forall id | id in ChangedIds(Suggested(ledger)) ensures id in MovableIds(ledger) {
      var i :| 0 <= i < |Suggested(ledger)| && Suggested(ledger)[i].id == id;
      SuggestedIs(ledger, i);
    }
  }

  /** A ledger with a duplicate number has something to move. */
  lemma SomethingMoves(ledger: Ledger)
    requires Applicable(ledger)
    ensures |Suggested(ledger)| > 0
  {
    var i, k :| 0 <= i < k < |ledger| && ledger[i].number.Some? && ledger[i].number == ledger[k].number;
    var x := if ledger[i].id < ledger[k].id then ledger[k] else ledger[i];
    assert Moves(ledger, x);
    PickedIs(ledger, MovableIds(ledger), x);
  }

  lemma SuggestedIsWellFormed(ledger: Ledger)
    requires Applicable(ledger)
    ensures WellFormed(Suggested(ledger)) <==> Highest(ledger) + |Suggested(ledger)| <= MAX_SAFE_INTEGER
  {
    var changes := Suggested(ledger);
    SomethingMoves(ledger);
    HighestInRange(ledger);
    PickedDistinct(ledger, MovableIds(ledger));
    forall i | 0 <= i < |changes| ensures 1 <= changes[i].expectedNumber <= MAX_SAFE_INTEGER {
      SuggestedIs(ledger, i);
    }
    assert changes[|changes| - 1].replacement == Highest(ledger) + |changes|;
  }

  lemma {:induction false} RenumberedIs(x: Item, changes: seq<Change>)
    requires forall i, k :: 0 <= i < k < |changes| ==> changes[i].id != changes[k].id
    ensures x.id !in ChangedIds(changes) ==> Renumbered(x, changes) == x.number
    ensures forall i :: 0 <= i < |changes| && changes[i].id == x.id ==> Renumbered(x, changes) == Some(changes[i].replacement)
  {
    if changes == [] {
    } else {
      var k := |changes| - 1;
      RenumberedIs(x, changes[..k]);
      assert changes[k] in changes;
      assert forall c :: c in changes[..k] ==> c in changes;
    }
  }

  /** Two items that both stay never share a number. */
  lemma StayersAreDistinct(ledger: Ledger, i: nat, k: nat)
    requires DistinctIds(ledger) && i < k < |ledger|
    requires ledger[i].number.Some? && ledger[i].number == ledger[k].number
    ensures Moves(ledger, ledger[i]) || Moves(ledger, ledger[k])
    ensures ledger[i].id in MovableIds(ledger) || ledger[k].id in MovableIds(ledger)
  {
  }

  /** The replacement is not the number of an item that stays. */
  predicate AvoidsStayers(changes: seq<Change>, ledger: Ledger) {
    forall i, k :: 0 <= i < |changes| && 0 <= k < |ledger| && ledger[k].number == Some(changes[i].replacement) ==>
      ledger[k].id in ChangedIds(changes)
  }

  lemma StayerKeepsNumber(changes: seq<Change>, ledger: Ledger, i: nat, k: nat)
    requires WellFormed(changes) && DistinctIds(ledger) && ChangedIds(changes) == MovableIds(ledger)
    requires AvoidsStayers(changes, ledger)
    requires i < |ledger| && k < |ledger| && i != k && Renumbered(ledger[i], changes).Some?
    ensures Renumbered(ledger[i], changes) != Renumbered(ledger[k], changes)
  {
    RenumberedIs(ledger[i], changes);
    RenumberedIs(ledger[k], changes);
    var a, b := ledger[i].id in ChangedIds(changes), ledger[k].id in ChangedIds(changes);
    if a {
      var c :| 0 <= c < |changes| && changes[c].id == ledger[i].id;
      if b {
        var d :| 0 <= d < |changes| && changes[d].id == ledger[k].id;
        assert c != d;
      }
    } else if b {
      var d :| 0 <= d < |changes| && changes[d].id == ledger[k].id;
    } else if ledger[i].number == ledger[k].number {
      if i < k { StayersAreDistinct(ledger, i, k); } else { StayersAreDistinct(ledger, k, i); }
    }
  }

  /** For a complete mapping, the successor's numbers are distinct exactly when
      no replacement is the number of an item that stays. */
  lemma SuccessorExactly(changes: seq<Change>, ledger: Ledger)
    requires WellFormed(changes) && DistinctIds(ledger) && ChangedIds(changes) == MovableIds(ledger)
    ensures SuccessorValid(changes, ledger) <==> AvoidsStayers(changes, ledger)
  {
    if AvoidsStayers(changes, ledger) {
      forall i, k | 0 <= i < k < |ledger| && Renumbered(ledger[i], changes).Some?
        ensures Renumbered(ledger[i], changes) != Renumbered(ledger[k], changes)
      {
        StayerKeepsNumber(changes, ledger, i, k);
      }
    } else {
      var i, k :| 0 <= i < |changes| && 0 <= k < |ledger| && ledger[k].number == Some(changes[i].replacement)
                  && ledger[k].id !in ChangedIds(changes);
      assert changes[i] in changes && changes[i].id in MovableIds(ledger);
      var x :| x in ledger && Moves(ledger, x) && x.id == changes[i].id;
      var m :| 0 <= m < |ledger| && ledger[m] == x;
      RenumberedIs(ledger[k], changes);
      RenumberedIs(ledger[m], changes);
      assert m != k;
    }
  }

  /** The suggested mapping, applied verbatim to the unchanged ledger, passes
      every check exactly when its numbers stay safe integers. */
  lemma ProposalSatisfiesRepair(ledger: Ledger)
    requires Applicable(ledger)
    ensures Accepted(Request(ledger, Suggested(ledger)), ledger) <==> Highest(ledger) + |Suggested(ledger)| <= MAX_SAFE_INTEGER
  {
    var changes := Suggested(ledger);
    SuggestedIsWellFormed(ledger);
    SuggestedIdsAreMovable(ledger);
    forall i | 0 <= i < |changes| ensures Matched(changes[i], ledger) {
      SuggestedIs(ledger, i);
    }
    forall i, k | 0 <= i < |changes| && 0 <= k < |ledger| ensures ledger[k].number != Some(changes[i].replacement) {
      if ledger[k].number.Some? { HighestBounds(ledger, k); }
    }
    forall i | 0 <= i < |changes| ensures Occupant(ledger, changes[i].replacement) == None {
      NobodyOccupies(ledger, changes[i].replacement);
    }
    if WellFormed(changes) {
      SuccessorExactly(changes, ledger);
    }
  }

  lemma {:induction false} NobodyOccupies(ledger: Ledger, n: nat)
    requires forall k :: 0 <= k < |ledger| ==> ledger[k].number != Some(n)
    ensures Occupant(ledger, n) == None
  {
    if ledger == [] {
    } else {
      NobodyOccupies(ledger[..|ledger| - 1], n);
    }
  }

  /** An item in the ledger has the change's ID, revision and number. */
  ghost predicate NamesHolder(c: Change, ledger: Ledger) {
    exists x :: x in ledger && x == Item(c.id, c.expectedRevision, Some(c.expectedNumber))
  }

  ghost predicate Changes(changes: seq<Change>, id: Id) {
    exists i :: 0 <= i < |changes| && changes[i].id == id
  }

  /** The item under that ID has the number of an item with a lesser one. */
  ghost predicate SharesWithLesser(ledger: Ledger, id: Id) {
    exists x, y :: x in ledger && y in ledger && x.id == id && y.id < id && x.number.Some? && x.number == y.number
  }

  /** A request made of this very, repairable, ledger: each change names an item by
      its ID, revision and number; the changed items are exactly those that share
      their number with a lesser ID, once each; and the replacements are safe,
      pairwise different, and no number of an item that stays. */
  ghost predicate MayRepair(request: Request, ledger: Ledger) {
    var changes := request.changes;
    && request.snapshot == ledger && Repairable(ledger)
    && (forall i :: 0 <= i < |changes| ==>
          NamesHolder(changes[i], ledger) && 0 < changes[i].replacement < 0x20_0000_0000_0000)
    && (forall i, k :: 0 <= i < k < |changes| ==>
          changes[i].id != changes[k].id && changes[i].replacement != changes[k].replacement)
    && (forall id :: Changes(changes, id) <==> SharesWithLesser(ledger, id))
    && (forall i, x :: 0 <= i < |changes| && x in ledger && x.number == Some(changes[i].replacement) ==>
          SharesWithLesser(ledger, x.id))
  }

  lemma MovableExactly(ledger: Ledger, id: Id)
    ensures id in MovableIds(ledger) <==> SharesWithLesser(ledger, id)
  {
    if SharesWithLesser(ledger, id) {
      var x, y :| x in ledger && y in ledger && x.id == id && y.id < id && x.number.Some? && x.number == y.number;
      var i :| 0 <= i < |ledger| && ledger[i] == y;
      assert Moves(ledger, x);
    }
  }

  lemma ChangedExactly(changes: seq<Change>, ledger: Ledger)
    ensures ChangedIds(changes) == MovableIds(ledger) <==> forall id :: Changes(changes, id) <==> SharesWithLesser(ledger, id)
  {
    forall id ensures id in ChangedIds(changes) <==> Changes(changes, id) {
      forall c | c in changes && c.id == id ensures Changes(changes, id) {
      }
    }
    forall id ensures id in MovableIds(ledger) <==> SharesWithLesser(ledger, id) {
      MovableExactly(ledger, id);
    }
    if forall id :: Changes(changes, id) <==> SharesWithLesser(ledger, id) {
      forall id ensures id in ChangedIds(changes) <==> id in MovableIds(ledger) {
        assert Changes(changes, id) <==> SharesWithLesser(ledger, id);
      }
    }
  }

  lemma WitnessedExactly(changes: seq<Change>, ledger: Ledger)
    ensures Witnessed(changes, ledger) <==> forall i :: 0 <= i < |changes| ==> NamesHolder(changes[i], ledger)
  {
    forall i | 0 <= i < |changes| ensures Matched(changes[i], ledger) <==> NamesHolder(changes[i], ledger) {
      var c := changes[i];
      forall k | 0 <= k < |ledger| && Witnesses(c, ledger[k])
        ensures ledger[k] in ledger && ledger[k] == Item(c.id, c.expectedRevision, Some(c.expectedNumber))
      {
      }
    }
  }

  /** Replacements that avoid the numbers of items that stay pass the collision
      check: the map's holder of such a number is neither a stayer nor, since the
      least holder stays, the changed item itself. */
  lemma AvoidingIsCollisionFree(changes: seq<Change>, ledger: Ledger)
    requires Applicable(ledger) && Witnessed(changes, ledger) && ChangedIds(changes) == MovableIds(ledger)
    requires AvoidsStayers(changes, ledger)
    ensures CollisionFree(changes, ledger)
  {
    forall i | 0 <= i < |changes| ensures !Collides(ledger, ChangedIds(changes), changes[i]) {
      var c := changes[i];
      if Occupant(ledger, c.replacement).Some? {
        var k := OccupantHolds(ledger, c.replacement);
        assert ledger[k].id in ChangedIds(changes);
        if ledger[k].id == c.id {
          var y :| y in ledger && Moves(ledger, y) && y.id == c.id;
          SameIdSameItem(ledger, ledger[k], y);
          LeastHolderStays(ledger, y);
        }
      }
    }
  }

  lemma {:induction false} OccupantHolds(ledger: Ledger, number: nat) returns (k: nat)
    requires Occupant(ledger, number).Some?
    ensures k < |ledger| && ledger[k].number == Some(number) && Occupant(ledger, number) == Some(ledger[k].id)
  {
    k := |ledger| - 1;
    if ledger[k].number != Some(number) {
      k := OccupantHolds(ledger[..k], number);
    }
  }

  lemma AvoidsExactly(changes: seq<Change>, ledger: Ledger)
    requires ChangedIds(changes) == MovableIds(ledger)
    ensures AvoidsStayers(changes, ledger)
            <==> forall i, x :: 0 <= i < |changes| && x in ledger && x.number == Some(changes[i].replacement) ==>
                   SharesWithLesser(ledger, x.id)
  {
    forall x | x in ledger {
      MovableExactly(ledger, x.id);
    }
    forall i, x | && 0 <= i < |changes| && x in ledger && x.number == Some(changes[i].replacement)
                  && AvoidsStayers(changes, ledger)
      ensures SharesWithLesser(ledger, x.id)
    {
      var k :| 0 <= k < |ledger| && ledger[k] == x;
    }
  }

  lemma NamedIsWellFormed(changes: seq<Change>, ledger: Ledger)
    requires Repairable(ledger) && forall i :: 0 <= i < |changes| ==> NamesHolder(changes[i], ledger)
    ensures forall i :: 0 <= i < |changes| ==> 1 <= changes[i].expectedNumber <= MAX_SAFE_INTEGER
    ensures (forall id :: Changes(changes, id) <==> SharesWithLesser(ledger, id)) ==> changes != []
  {
    var x, y :| x in ledger && y in ledger && x.id < y.id && x.number.Some? && x.number == y.number;
    assert SharesWithLesser(ledger, y.id);
  }

  lemma AcceptedMayRepair(request: Request, ledger: Ledger)
    requires Accepted(request, ledger)
    ensures MayRepair(request, ledger)
  {
    RepairableExactly(ledger);
    WitnessedExactly(request.changes, ledger);
    ChangedExactly(request.changes, ledger);
    SuccessorExactly(request.changes, ledger);
    AvoidsExactly(request.changes, ledger);
  }

  lemma MayRepairIsWellFormed(request: Request, ledger: Ledger)
    requires MayRepair(request, ledger)
    ensures WellFormed(request.changes)
  {
    NamedIsWellFormed(request.changes, ledger);
  }

  lemma MayRepairIsAccepted(request: Request, ledger: Ledger)
    requires MayRepair(request, ledger)
    ensures Accepted(request, ledger)
  {
    MayRepairIsWellFormed(request, ledger);
    RepairableExactly(ledger);
    WitnessedExactly(request.changes, ledger);
    ChangedExactly(request.changes, ledger);
    AvoidsExactly(request.changes, ledger);
    AvoidingIsCollisionFree(request.changes, ledger);
    SuccessorExactly(request.changes, ledger);
  }

  /** The checks accept exactly such requests. */
  lemma AcceptedExactly(request: Request, ledger: Ledger)
    ensures Accepted(request, ledger) <==> MayRepair(request, ledger)
  {
    if Accepted(request, ledger) {
      AcceptedMayRepair(request, ledger);
    }
    if MayRepair(request, ledger) {
      MayRepairIsAccepted(request, ledger);
    }
  }

  /** What any accepted repair does to the ledger: numbers end pairwise distinct,
      the least-ID holder of each keeps its number, and so does every item whose
      number nobody shares. */
  lemma AcceptedRepairKeepsStayers(request: Request, ledger: Ledger, k: nat)
    requires Accepted(request, ledger) && k < |ledger|
    ensures !Moves(ledger, ledger[k]) ==> Renumbered(ledger[k], request.changes) == ledger[k].number
    ensures Moves(ledger, ledger[k]) ==> Renumbered(ledger[k], request.changes).Some?
                                         && Renumbered(ledger[k], request.changes) != ledger[k].number
    ensures forall i :: 0 <= i < |ledger| && i != k && Renumbered(ledger[k], request.changes).Some? ==>
              Renumbered(ledger[i], request.changes) != Renumbered(ledger[k], request.changes)
  {
    var x, changes := ledger[k], request.changes;
    RenumberedIs(x, changes);
    if x.id in MovableIds(ledger) {
      var y :| y in ledger && Moves(ledger, y) && y.id == x.id;
      SameIdSameItem(ledger, x, y);
      var c :| 0 <= c < |changes| && changes[c].id == x.id;
      SuccessorExactly(changes, ledger);
      LeastHolderStays(ledger, x);
    }
  }

  lemma LeastHolderStays(ledger: Ledger, x: Item)
    requires DistinctIds(ledger) && x in ledger && Moves(ledger, x)
    ensures exists k :: 0 <= k < |ledger| && ledger[k].number == x.number && ledger[k].id !in MovableIds(ledger)
    decreases x.id
  {
    var i :| 0 <= i < |ledger| && ledger[i].number == x.number && ledger[i].id < x.id;
    if ledger[i].id in MovableIds(ledger) {
      var y :| y in ledger && Moves(ledger, y) && y.id == ledger[i].id;
      SameIdSameItem(ledger, ledger[i], y);
      LeastHolderStays(ledger, ledger[i]);
    }
  }

  // ----- where the checks and the proposal fall short -----

  const CROWDED := [Item(1, 11, Some(MAX_SAFE_INTEGER)), Item(2, 12, Some(MAX_SAFE_INTEGER))]

  /** Near the top of the safe integers the proposal is not a valid request. */
  lemma CrowdedProposalIsRefused()
    ensures Applicable(CROWDED) && !Accepted(Request(CROWDED, Suggested(CROWDED)), CROWDED)
  {
    assert CROWDED[0].number == CROWDED[1].number;
    HighestBounds(CROWDED, 0);
    SomethingMoves(CROWDED);
    ProposalSatisfiesRepair(CROWDED);
  }

  const TWO_PAIRS := [Item(1, 11, Some(5)), Item(2, 12, Some(5)), Item(3, 13, Some(7)), Item(4, 14, Some(7))]
  const ONTO_STAYER := [Change(2, 12, 5, 8), Change(4, 14, 7, 5)]

  /** The collision check alone does not protect an item that stays: its map
      keeps only the last holder of a number, and when that holder moves the
      check passes. The successor validation is what refuses. */
  lemma CollisionCheckIsNotEnough()
    ensures WellFormed(ONTO_STAYER) && Applicable(TWO_PAIRS) && Witnessed(ONTO_STAYER, TWO_PAIRS)
    ensures ChangedIds(ONTO_STAYER) == MovableIds(TWO_PAIRS) && CollisionFree(ONTO_STAYER, TWO_PAIRS)
    ensures !SuccessorValid(ONTO_STAYER, TWO_PAIRS)
  {
    PairsAreWitnessed();
    PairsPassCollisions();
    StayerIsHit();
  }

  lemma PairsAreWitnessed()
    ensures WellFormed(ONTO_STAYER) && Applicable(TWO_PAIRS) && Witnessed(ONTO_STAYER, TWO_PAIRS)
  {
    var l, c := TWO_PAIRS, ONTO_STAYER;
    assert l[0].number == l[1].number;
    assert Witnesses(c[0], l[1]) && Witnesses(c[1], l[3]);
  }

  lemma PairsPassCollisions()
    ensures ChangedIds(ONTO_STAYER) == MovableIds(TWO_PAIRS) && CollisionFree(ONTO_STAYER, TWO_PAIRS)
  {
    PairsMove();
    LastHolderMoves();
  }

  lemma StayerIsHit()
    ensures !SuccessorValid(ONTO_STAYER, TWO_PAIRS)
  {
    var l, c := TWO_PAIRS, ONTO_STAYER;
    assert Renumbered(l[0], c) == Some(5) by { assert c[..1] == [c[0]] && c[..1][..0] == []; }
    assert Renumbered(l[3], c) == Some(5);
  }

  lemma PairsMove()
    ensures MovableIds(TWO_PAIRS) == {2, 4} == ChangedIds(ONTO_STAYER)
  {
    var l, c := TWO_PAIRS, ONTO_STAYER;
    assert Moves(l, l[1]) by { assert l[0].id < l[1].id; }
    assert Moves(l, l[3]) by { assert l[2].id < l[3].id; }
    assert !Moves(l, l[0]) && !Moves(l, l[2]);
    assert c[0] in c && c[1] in c;
  }

  lemma LastHolderMoves()
    ensures Occupant(TWO_PAIRS, 5) == Some(2) && Occupant(TWO_PAIRS, 8) == None
  {
    var l := TWO_PAIRS;
    assert l[..3][..2] == l[..2];
    assert Occupant(l, 5) == Occupant(l[..3], 5) == Occupant(l[..2], 5);
    NobodyOccupies(l, 8);
  }
}
