/** Ledger items as the readiness, impact and lifecycle code reads them. Dates
    are day numbers; an item's relations are lists of IDs. */
module Ledger {
  import opened Options
  import opened Sorting

  type Id = nat
  type Date = int

  datatype Status = Triage | Backlog | InProgress | Deferred | Done | Killed | Archived

  datatype Kind = Task | Epic

  datatype Item = Item(
    id: Id, schema2: bool, kind: Kind, status: Status, created: Date, updated: Date,
    dependsOn: seq<Id>, parent: Option<Id>, snoozedUntil: Option<Date>, priority: Option<int>)

  /** `new Map(items.map(...))`: the last item listed under an ID. */
  function Lookup(items: seq<Item>): (m: map<Id, Item>)
    ensures forall id :: id in m ==> m[id].id == id
    ensures forall i :: 0 <= i < |items| ==> items[i].id in m
  {
    if items == [] then map[]
    else
      var k := |items| - 1;
      Lookup(items[..k])[items[k].id := items[k]]
  }

  lemma {:induction false} LookupListed(items: seq<Item>, id: Id)
    requires id in Lookup(items)
    ensures Lookup(items)[id] in items
  {
    var k := |items| - 1;
    if items[k].id != id {
      LookupListed(items[..k], id);
    }
  }

  function IdOf(x: Item): Id {
    x.id
  }

  predicate DistinctIds(items: seq<Item>) {
    DistinctBy(items, IdOf)
  }

  lemma {:induction false} LookupDistinct(items: seq<Item>, i: nat)
    requires DistinctIds(items) && i < |items|
    ensures Lookup(items)[items[i].id] == items[i]
  {
    var k := |items| - 1;
    if i < k {
      LookupDistinct(items[..k], i);
    }
  }

  /** With distinct IDs the map is a function of the set of items. */
  lemma LookupOfSet(a: seq<Item>, b: seq<Item>)
    requires DistinctIds(a) && DistinctIds(b) && forall x :: x in a <==> x in b
    ensures Lookup(a) == Lookup(b)
  {
    forall id | id in Lookup(a) ensures id in Lookup(b) && Lookup(b)[id] == Lookup(a)[id] {
      SharedItem(a, b, id);
    }
    forall id | id in Lookup(b) ensures id in Lookup(a) {
      SharedItem(b, a, id);
    }
  }

  lemma SharedItem(a: seq<Item>, b: seq<Item>, id: Id)
    requires DistinctIds(b) && id in Lookup(a) && forall x :: x in a ==> x in b
    ensures id in Lookup(b) && Lookup(b)[id] == Lookup(a)[id]
  {
    LookupListed(a, id);
    var x := Lookup(a)[id];
    var i :| 0 <= i < |b| && b[i] == x;
    LookupDistinct(b, i);
  }
}
