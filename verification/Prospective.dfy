/** The prospective-merge check of src/claim-prospective.js: whether a merged
    tree's items hold the bytes its merged reconciliation log authorizes. */
module Prospective {
  import opened Options
  import opened Sorting
  import opened Leases
  import opened Journal
  import opened Hydration

  /** One line of the merged log. `ns` is the namespace it names, if any. */
  datatype Line = Line(number: int, ns: Option<Namespace>, entry: Entry)

  /** One item file of the merged tree, in the order the tree lists them. */
  datatype Held = Held(item: ItemId, revision: Revision)

  datatype Ruling = Ruling(revision: Revision, number: int)

  datatype Verdict =
    | Mergeable
    | AmbiguousJournal(number: Option<int>)
    | UnauthorizedRevision(item: ItemId, actual: Revision, expected: Revision, decisive: seq<int>)

  // ----- the check as a function -----

  predicate WellNumbered(l: Line) {
    l.number >= 1 && (l.ns.Some? ==> l.ns.value == NAMESPACE)
  }

  /** Every line is well numbered and each number has one content. */
  ghost predicate Consistent(lines: seq<Line>) {
    && (forall l :: l in lines ==> l.number > 0 && (l.ns.None? || l.ns == Some(NAMESPACE)))
    && (forall l, m :: l in lines && m in lines && l.number == m.number ==> l == m)
  }

  predicate Precedes(l: Line, m: Line) {
    l.number < m.number
  }

  /** The lines by number, those of one number in the order they came. */
  function Ordered(lines: seq<Line>): seq<Line> {
    Sorted(lines, Precedes)
  }

  /** The rulings on an item, in the order of `ordered`. */
  function History(ordered: seq<Line>, item: ItemId): seq<Ruling> {
    if ordered == [] then []
    else
      var k := |ordered| - 1;
      var e := ordered[k].entry;
      History(ordered[..k], item)
      + (if Authorizes(e, item) then [Ruling(AuthorizedRevision(e), ordered[k].number)] else [])
  }

  function Numbers(history: seq<Ruling>): seq<int> {
    seq(|history|, i requires 0 <= i < |history| => history[i].number)
  }

  /** The first item, in tree order, whose bytes its last ruling does not name. */
  function JudgeItems(items: seq<Held>, ordered: seq<Line>): Verdict {
    if items == [] then Mergeable
    else
      var history := History(ordered, items[0].item);
      if history == [] || history[|history| - 1].revision == items[0].revision then JudgeItems(items[1..], ordered)
      else UnauthorizedRevision(items[0].item, items[0].revision, history[|history| - 1].revision, Numbers(history))
  }

  // ----- the check in place -----

  ghost predicate Numbered(byNumber: map<int, Line>, lines: seq<Line>) {
    && (forall l :: l in lines ==> l.number in byNumber && byNumber[l.number] == l)
    && (forall n :: n in byNumber ==> byNumber[n].number == n && byNumber[n] in lines)
  }

  /** Refuse a line out of range or a number with two contents. */
  method CheckNumbers(lines: seq<Line>) returns (refusal: Option<Verdict>)
    ensures refusal.None? <==> Consistent(lines)
    ensures refusal.Some? ==> refusal.value.AmbiguousJournal?
    ensures refusal.Some? && refusal.value.number.Some? ==>
              exists l, m :: l in lines && m in lines && l.number == m.number == refusal.value.number.value && l != m
  {
    var byNumber: map<int, Line> := map[];
    for i := 0 to |lines|
      invariant Numbered(byNumber, lines[..i])
      invariant forall l :: l in lines[..i] ==> WellNumbered(l)
    {
      var l := lines[i];
      assert lines[..i + 1] == lines[..i] + [l];
      if !WellNumbered(l) {
        return Some(AmbiguousJournal(None));
      }
      if l.number in byNumber && byNumber[l.number] != l {
        assert byNumber[l.number] in lines && l in lines;
        return Some(AmbiguousJournal(Some(l.number)));
      }
      byNumber := byNumber[l.number := l];
    }
    assert lines[..|lines|] == lines;
    return None;
  }

  /** Collect each item's rulings in sequence order. */
  method CollectRulings(ordered: seq<Line>) returns (rulings: map<ItemId, seq<Ruling>>)
    ensures forall item :: History(ordered, item) == if item in rulings then rulings[item] else []
    ensures forall item :: item in rulings ==> rulings[item] != []
  {
    rulings := map[];
    for i := 0 to |ordered|
      invariant forall item :: History(ordered[..i], item) == if item in rulings then rulings[item] else []
      invariant forall item :: item in rulings ==> rulings[item] != []
    {
      assert ordered[..i + 1][..i] == ordered[..i];
      var e := ordered[i].entry;
      if IsAuthorization(e) {
        var prior := if e.item in rulings then rulings[e.item] else [];
        rulings := rulings[e.item := prior + [Ruling(AuthorizedRevision(e), ordered[i].number)]];
      }
    }
    assert ordered[..|ordered|] == ordered;
  }

  lemma JudgeNext(items: seq<Held>, i: nat, ordered: seq<Line>)
    requires i < |items|
    ensures var history := History(ordered, items[i].item);
            JudgeItems(items[i..], ordered)
            == if history == [] || history[|history| - 1].revision == items[i].revision then JudgeItems(items[i + 1..], ordered)
               else UnauthorizedRevision(items[i].item, items[i].revision, history[|history| - 1].revision, Numbers(history))
  {
    assert items[i..][0] == items[i] && items[i..][1..] == items[i + 1..];
  }

  /** Hold each item to its last ruling. */
  method HoldItems(items: seq<Held>, ordered: seq<Line>, rulings: map<ItemId, seq<Ruling>>) returns (v: Verdict)
    requires forall item :: item in rulings ==> rulings[item] != []
    requires forall h :: h in items ==> History(ordered, h.item) == if h.item in rulings then rulings[h.item] else []
    ensures v == JudgeItems(items, ordered)
  {
    assert items[0..] == items;
    for i := 0 to |items|
      invariant JudgeItems(items, ordered) == JudgeItems(items[i..], ordered)
    {
      var h := items[i];
      JudgeNext(items, i, ordered);
      assert h in items && History(ordered, h.item) == if h.item in rulings then rulings[h.item] else [];
      if h.item in rulings {
        var history := rulings[h.item];
        var last := history[|history| - 1];
        if h.revision != last.revision {
          return UnauthorizedRevision(h.item, h.revision, last.revision, Numbers(history));
        }
      }
    }
    assert items[|items|..] == [];
    return Mergeable;
  }

  /** The verdict, but for which offending number an ambiguous journal reports. */
  ghost function Judge(lines: seq<Line>, items: seq<Held>): Verdict {
    if Consistent(lines) then JudgeItems(items, Ordered(lines)) else AmbiguousJournal(None)
  }

  method CheckProspectiveLedger(lines: seq<Line>, items: seq<Held>) returns (v: Verdict)
    ensures if Judge(lines, items).AmbiguousJournal? then v.AmbiguousJournal? else v == Judge(lines, items)
  {
    var refusal := CheckNumbers(lines);
    if refusal.Some? {
      return refusal.value;
    }
    var ordered := Ordered(lines);
    var rulings := CollectRulings(ordered);
    v := HoldItems(items, ordered, rulings);
  }

  // ----- sorting -----

  ghost predicate Ascending(s: seq<Line>) {
    forall i, k :: 0 <= i < k < |s| ==> s[i].number <= s[k].number
  }

  lemma OrderedIsSorted(lines: seq<Line>)
    ensures Ascending(Ordered(lines))
  {
    SortedInOrder(lines, Precedes);
  }

  lemma OrderedKeepsMembers(lines: seq<Line>, l: Line)
    ensures l in Ordered(lines) <==> l in lines
  {
    SortedIs(lines, Precedes, l);
  }

  // ----- the decisive ruling -----

  /** A highest-numbered ruling on the item. */
  ghost predicate Decides(lines: seq<Line>, item: ItemId, l: Line) {
    && l in lines && Authorizes(l.entry, item)
    && forall m :: m in lines && Authorizes(m.entry, item) ==> m.number <= l.number
  }

  lemma {:induction false} EmptyHistory(ordered: seq<Line>, item: ItemId)
    ensures History(ordered, item) == [] <==> forall m :: m in ordered ==> !Authorizes(m.entry, item)
  {
    if ordered == [] {
    } else {
      var k := |ordered| - 1;
      assert ordered == ordered[..k] + [ordered[k]];
      EmptyHistory(ordered[..k], item);
    }
  }

  lemma {:induction false} LastRuling(ordered: seq<Line>, item: ItemId) returns (l: Line)
    requires Ascending(ordered) && History(ordered, item) != []
    ensures Decides(ordered, item, l)
    ensures var h := History(ordered, item); h[|h| - 1] == Ruling(AuthorizedRevision(l.entry), l.number)
  {
    var k := |ordered| - 1;
    assert ordered == ordered[..k] + [ordered[k]];
    if Authorizes(ordered[k].entry, item) {
      l := ordered[k];
    } else {
      assert History(ordered, item) == History(ordered[..k], item);
      l := LastRuling(ordered[..k], item);
    }
  }

  /** A highest ruling in the sorted log is one in the log as given. */
  lemma DecidesUnsorted(lines: seq<Line>, item: ItemId, l: Line)
    ensures Decides(Ordered(lines), item, l) <==> Decides(lines, item, l)
  {
    forall m ensures m in Ordered(lines) <==> m in lines { OrderedKeepsMembers(lines, m); }
  }

  /** The last ruling of the sorted log is the highest-numbered one. */
  lemma DecisiveRuling(lines: seq<Line>, item: ItemId, l: Line)
    requires Consistent(lines) && Decides(lines, item, l)
    ensures var h := History(Ordered(lines), item);
            h != [] && h[|h| - 1] == Ruling(AuthorizedRevision(l.entry), l.number)
  {
    OrderedIsSorted(lines);
    OrderedKeepsMembers(lines, l);
    EmptyHistory(Ordered(lines), item);
    var m := LastRuling(Ordered(lines), item);
    DecidesUnsorted(lines, item, m);
    OneDecider(lines, item, l, m);
  }

  lemma OneDecider(lines: seq<Line>, item: ItemId, l: Line, m: Line)
    requires Consistent(lines) && Decides(lines, item, l)
    requires Decides(lines, item, m)
    ensures l == m
  {
    assert l.number == m.number;
  }

  lemma NoRuling(lines: seq<Line>, item: ItemId)
    ensures History(Ordered(lines), item) == [] <==> forall m :: m in lines ==> !Authorizes(m.entry, item)
    ensures History(Ordered(lines), item) != [] ==> exists l :: Decides(lines, item, l)
  {
    EmptyHistory(Ordered(lines), item);
    forall l ensures l in Ordered(lines) <==> l in lines { OrderedKeepsMembers(lines, l); }
    if History(Ordered(lines), item) != [] {
      OrderedIsSorted(lines);
      var l := LastRuling(Ordered(lines), item);
      DecidesUnsorted(lines, item, l);
    }
  }

  /** Every item the log rules on holds the bytes of a highest-numbered ruling. */
  ghost predicate HoldsRulings(lines: seq<Line>, items: seq<Held>) {
    forall h, l :: h in items && Decides(lines, h.item, l) ==> AuthorizedRevision(l.entry) == h.revision
  }

  lemma OneItem(lines: seq<Line>, h: Held)
    requires Consistent(lines)
    ensures var history := History(Ordered(lines), h.item);
            (history == [] || history[|history| - 1].revision == h.revision)
            <==> forall l :: Decides(lines, h.item, l) ==> AuthorizedRevision(l.entry) == h.revision
  {
    NoRuling(lines, h.item);
    forall l | Decides(lines, h.item, l)
      ensures var history := History(Ordered(lines), h.item);
              history != [] && history[|history| - 1].revision == AuthorizedRevision(l.entry)
    {
      DecisiveRuling(lines, h.item, l);
    }
  }

  lemma {:induction false} JudgesHoldings(lines: seq<Line>, items: seq<Held>)
    requires Consistent(lines)
    ensures JudgeItems(items, Ordered(lines)) == Mergeable <==> HoldsRulings(lines, items)
  {
    if items == [] {
    } else {
      OneItem(lines, items[0]);
      JudgesHoldings(lines, items[1..]);
      assert items == [items[0]] + items[1..];
    }
  }

  /** The merge is accepted exactly when each number of the log has one content
      and each item the log rules on has the bytes of its highest ruling. */
  lemma AcceptsExactly(lines: seq<Line>, items: seq<Held>)
    ensures Judge(lines, items) == Mergeable <==> Consistent(lines) && HoldsRulings(lines, items)
  {
    if Consistent(lines) {
      JudgesHoldings(lines, items);
    }
  }

  /** Every item before position `i` that the log rules on is at its ruling. */
  ghost predicate HeldUpTo(lines: seq<Line>, items: seq<Held>, i: nat) {
    forall k, l :: 0 <= k < i && k < |items| && Decides(lines, items[k].item, l) ==>
      AuthorizedRevision(l.entry) == items[k].revision
  }

  /** What a refusal names: the first item in tree order that is not at its
      ruling, what it holds, what it should, and the numbers of the log's rulings
      on it in order. */
  lemma {:induction false} RefusalNames(lines: seq<Line>, items: seq<Held>) returns (i: nat, l: Line)
    requires Consistent(lines) && JudgeItems(items, Ordered(lines)).UnauthorizedRevision?
    ensures var v := JudgeItems(items, Ordered(lines));
            && i < |items| && items[i] == Held(v.item, v.actual) && HeldUpTo(lines, items, i)
            && Decides(lines, v.item, l) && v.expected == AuthorizedRevision(l.entry) != v.actual
            && (forall n :: n in v.decisive <==> RuledAt(lines, v.item, n))
            && Rising(v.decisive)
  {
    var h := items[0];
    var history := History(Ordered(lines), h.item);
    if history == [] || history[|history| - 1].revision == h.revision {
      i, l := RefusalNames(lines, items[1..]);
      OneItem(lines, h);
      HeldFromRest(lines, items, i);
      i := i + 1;
    } else {
      i := 0;
      l := RefusedRuling(lines, h.item);
    }
  }

  lemma HeldFromRest(lines: seq<Line>, items: seq<Held>, i: nat)
    requires items != [] && i < |items[1..]| && HeldUpTo(lines, items[1..], i)
    requires forall l :: Decides(lines, items[0].item, l) ==> AuthorizedRevision(l.entry) == items[0].revision
    ensures items[i + 1] == items[1..][i] && HeldUpTo(lines, items, i + 1)
  {
    assert forall k :: 0 < k < |items| ==> items[k] == items[1..][k - 1];
  }

  /** The ruling that decides on an item, and the numbers of all on it. */
  lemma RefusedRuling(lines: seq<Line>, item: ItemId) returns (l: Line)
    requires Consistent(lines) && History(Ordered(lines), item) != []
    ensures var history := History(Ordered(lines), item);
            && Decides(lines, item, l) && AuthorizedRevision(l.entry) == history[|history| - 1].revision
            && (forall n :: n in Numbers(history) <==> RuledAt(lines, item, n))
            && Rising(Numbers(history))
  {
    NoRuling(lines, item);
    l :| Decides(lines, item, l);
    DecisiveRuling(lines, item, l);
    OrderedIsSorted(lines);
    HistoryRises(Ordered(lines), item);
    forall n {
      RulingNumbers(lines, item, n);
    }
  }

  /** A line of that number rules on the item. */
  ghost predicate RuledAt(lines: seq<Line>, item: ItemId, n: int) {
    exists m :: m in lines && Authorizes(m.entry, item) && m.number == n
  }

  lemma RulingNumbers(lines: seq<Line>, item: ItemId, n: int)
    ensures n in Numbers(History(Ordered(lines), item)) <==> RuledAt(lines, item, n)
  {
    HistoryNumbers(Ordered(lines), item, n);
    forall m ensures m in Ordered(lines) <==> m in lines {
      OrderedKeepsMembers(lines, m);
    }
  }

  ghost predicate Rising(s: seq<int>) {
    forall i, k :: 0 <= i < k < |s| ==> s[i] <= s[k]
  }

  /** The numbers of an item's rulings do not fall along a sorted log. */
  lemma {:induction false} HistoryRises(ordered: seq<Line>, item: ItemId)
    requires Ascending(ordered)
    ensures Rising(Numbers(History(ordered, item)))
  {
    if ordered == [] {
    } else {
      var k := |ordered| - 1;
      var before := Numbers(History(ordered[..k], item));
      HistoryRises(ordered[..k], item);
      forall i | 0 <= i < |before| ensures before[i] <= ordered[k].number {
        HistoryNumbers(ordered[..k], item, before[i]);
        var l :| l in ordered[..k] && Authorizes(l.entry, item) && l.number == before[i];
        assert l in ordered;
      }
      assert Numbers(History(ordered, item))
          == before + (if Authorizes(ordered[k].entry, item) then [ordered[k].number] else []);
    }
  }

  // ----- only the set of lines matters -----

  ghost predicate SameSet(a: seq<Line>, b: seq<Line>) {
    forall l :: l in a <==> l in b
  }

  /** Two verdicts that tell the caller the same, up to how often and in which
      order the decisive sequence numbers are listed. */
  ghost predicate SameRuling(v: Verdict, w: Verdict) {
    && (v.AmbiguousJournal? <==> w.AmbiguousJournal?)
    && (v.Mergeable? <==> w.Mergeable?)
    && (v.UnauthorizedRevision? ==>
          w.UnauthorizedRevision? && v.item == w.item && v.actual == w.actual && v.expected == w.expected
          && (set n | n in v.decisive) == (set n | n in w.decisive))
  }

  lemma SameLastRuling(a: seq<Line>, b: seq<Line>, item: ItemId)
    requires Consistent(a) && Consistent(b) && SameSet(a, b)
    ensures var h, g := History(Ordered(a), item), History(Ordered(b), item);
            (h == [] <==> g == []) && (h != [] ==> h[|h| - 1] == g[|g| - 1])
  {
    NoRuling(a, item);
    NoRuling(b, item);
    if History(Ordered(a), item) != [] {
      var l :| Decides(a, item, l);
      assert Decides(b, item, l);
      DecisiveRuling(a, item, l);
      DecisiveRuling(b, item, l);
    }
  }

  lemma {:induction false} HistoryNumbers(ordered: seq<Line>, item: ItemId, n: int)
    ensures n in Numbers(History(ordered, item)) <==> exists l :: l in ordered && Authorizes(l.entry, item) && l.number == n
  {
    if ordered == [] {
    } else {
      var k := |ordered| - 1;
      HistoryNumbers(ordered[..k], item, n);
      assert ordered == ordered[..k] + [ordered[k]];
      var before, after := History(ordered[..k], item), History(ordered, item);
      assert |after| > 0 && Authorizes(ordered[k].entry, item) ==> after[|after| - 1].number == ordered[k].number;
      assert Numbers(after) == Numbers(before) + (if Authorizes(ordered[k].entry, item) then [ordered[k].number] else []);
    }
  }

  lemma SameDecisive(a: seq<Line>, b: seq<Line>, item: ItemId)
    requires SameSet(a, b)
    ensures (set n | n in Numbers(History(Ordered(a), item))) == (set n | n in Numbers(History(Ordered(b), item)))
  {
    forall n ensures n in Numbers(History(Ordered(a), item)) <==> n in Numbers(History(Ordered(b), item)) {
      HistoryNumbers(Ordered(a), item, n);
      HistoryNumbers(Ordered(b), item, n);
      forall l ensures l in Ordered(a) <==> l in Ordered(b) {
        OrderedKeepsMembers(a, l);
        OrderedKeepsMembers(b, l);
      }
    }
  }

  lemma {:induction false} SameJudgement(a: seq<Line>, b: seq<Line>, items: seq<Held>)
    requires Consistent(a) && Consistent(b) && SameSet(a, b)
    ensures SameRuling(JudgeItems(items, Ordered(a)), JudgeItems(items, Ordered(b)))
  {
    if items == [] {
    } else {
      SameLastRuling(a, b, items[0].item);
      SameDecisive(a, b, items[0].item);
      SameJudgement(a, b, items[1..]);
    }
  }

  lemma SameSetIsAsConsistent(a: seq<Line>, b: seq<Line>)
    requires SameSet(a, b) && Consistent(a)
    ensures Consistent(b)
  {
  }

  /** The verdict depends only on the set of log lines: reordering or repeating
      them changes neither the decision, nor the error, nor the item it names,
      nor the revisions, nor which sequences decided. */
  lemma VerdictDependsOnSet(a: seq<Line>, b: seq<Line>, items: seq<Held>)
    requires SameSet(a, b)
    ensures SameRuling(Judge(a, items), Judge(b, items))
  {
    if Consistent(a) {
      SameSetIsAsConsistent(a, b);
      SameJudgement(a, b, items);
    } else if Consistent(b) {
      SameSetIsAsConsistent(b, a);
    }
  }

  // ----- agreement with live reconciliation -----

  /** A log as lines, all in the one namespace. */
  function Lines(log: seq<Logged>): seq<Line> {
    seq(|log|, i requires 0 <= i < |log| => Line(log[i].number, Some(NAMESPACE), log[i].entry))
  }

  /** The whole journal, unprojected, as a log. */
  function WholeLog(j: seq<Entry>): seq<Logged> {
    seq(|j|, i requires 0 <= i < |j| => Logged(i + 1, j[i]))
  }

  /** Lines that carry at least every projected entry of `j` under its own
      number, and nothing else. */
  ghost predicate Carries(lines: seq<Line>, j: seq<Entry>) {
    && (forall l :: l in lines ==> 1 <= l.number <= |j| && l == Line(l.number, Some(NAMESPACE), j[l.number - 1]))
    && (forall p :: 0 <= p < |j| && IsProjected(j[p]) ==> Line(p + 1, Some(NAMESPACE), j[p]) in lines)
  }

  lemma {:induction false} LatestIsHighest(j: seq<Entry>, item: ItemId) returns (p: nat)
    requires LatestAuthorization(j, item).Some?
    ensures p < |j| && Authorizes(j[p], item) && LatestAuthorization(j, item) == Some(j[p])
    ensures forall q :: p < q < |j| ==> !Authorizes(j[q], item)
  {
    p := |j| - 1;
    if !Authorizes(j[p], item) {
      p := LatestIsHighest(j[..p], item);
    }
  }

  lemma {:induction false} UnauthorizedThroughout(j: seq<Entry>, item: ItemId)
    requires LatestAuthorization(j, item).None?
    ensures forall q :: 0 <= q < |j| ==> !Authorizes(j[q], item)
  {
    if j == [] {
    } else {
      UnauthorizedThroughout(j[..|j| - 1], item);
    }
  }

  /** On a contiguous journal the check names, for every item, the same
      authorized revision live reconciliation does. */
  lemma NamesLatestAuthorized(j: seq<Entry>, lines: seq<Line>, item: ItemId)
    requires Carries(lines, j)
    ensures var h := History(Ordered(lines), item);
            LatestAuthorized(j, item) == if h == [] then None else Some(h[|h| - 1].revision)
  {
    if LatestAuthorization(j, item).Some? {
      var p := LatestIsHighest(j, item);
      CarriedDecides(j, lines, item, p);
      CarriedIsConsistent(j, lines);
      DecisiveRuling(lines, item, Line(p + 1, Some(NAMESPACE), j[p]));
    } else {
      UnauthorizedThroughout(j, item);
      NoRuling(lines, item);
    }
  }

  lemma CarriedIsConsistent(j: seq<Entry>, lines: seq<Line>)
    requires Carries(lines, j)
    ensures Consistent(lines)
  {
  }

  lemma CarriedDecides(j: seq<Entry>, lines: seq<Line>, item: ItemId, p: nat)
    requires Carries(lines, j) && p < |j| && Authorizes(j[p], item)
    requires forall q :: p < q < |j| ==> !Authorizes(j[q], item)
    ensures Decides(lines, item, Line(p + 1, Some(NAMESPACE), j[p]))
  {
    assert IsProjected(j[p]);
  }

  lemma WholeLogCarries(j: seq<Entry>)
    ensures Carries(Lines(WholeLog(j)), j)
  {
    var lines := Lines(WholeLog(j));
    forall l | l in lines ensures 1 <= l.number <= |j| && l == Line(l.number, Some(NAMESPACE), j[l.number - 1]) {
      var i :| 0 <= i < |lines| && lines[i] == l;
    }
    forall p | 0 <= p < |j| ensures Line(p + 1, Some(NAMESPACE), j[p]) in lines {
      assert lines[p] == Line(p + 1, Some(NAMESPACE), j[p]);
    }
  }

  lemma ProjectedLogCarries(j: seq<Entry>)
    ensures Carries(Lines(LogOf(j)), j)
  {
    var lines := Lines(LogOf(j));
    LogEntries(j);
    forall p | 0 <= p < |j| && IsProjected(j[p]) ensures Line(p + 1, Some(NAMESPACE), j[p]) in lines {
      var i := FoundAt(j, p);
      assert lines[i] == Line(p + 1, Some(NAMESPACE), j[p]);
    }
  }

  /** Before or after projection, a journal's log is accepted exactly when every
      item it rules on is at the revision live reconciliation authorizes. */
  lemma AgreesWithLive(j: seq<Entry>, items: seq<Held>)
    ensures var accepted := forall h :: h in items ==> LatestAuthorized(j, h.item) in {None, Some(h.revision)};
            && (Judge(Lines(WholeLog(j)), items) == Mergeable <==> accepted)
            && (Judge(Lines(LogOf(j)), items) == Mergeable <==> accepted)
  {
    WholeLogCarries(j);
    ProjectedLogCarries(j);
    CarriedIsConsistent(j, Lines(WholeLog(j)));
    CarriedIsConsistent(j, Lines(LogOf(j)));
    LiveItems(j, Lines(WholeLog(j)), items);
    LiveItems(j, Lines(LogOf(j)), items);
  }

  lemma {:induction false} LiveItems(j: seq<Entry>, lines: seq<Line>, items: seq<Held>)
    requires Carries(lines, j)
    ensures JudgeItems(items, Ordered(lines)) == Mergeable
            <==> forall h :: h in items ==> LatestAuthorized(j, h.item) in {None, Some(h.revision)}
  {
    if items == [] {
    } else {
      NamesLatestAuthorized(j, lines, items[0].item);
      LiveItems(j, lines, items[1..]);
      assert items == [items[0]] + items[1..];
    }
  }

  // ----- what does depend on order -----

  const RULED := Line(1, None, LegacyMutation(0, 0, PatchV1, 5, None, 0))

  /** The list of decisive sequences is not a function of the set: a repeated
      line repeats its number. */
  lemma RepeatedLineRepeatsNumber()
    ensures SameSet([RULED], [RULED, RULED])
    ensures JudgeItems([Held(0, 6)], Ordered([RULED])) == UnauthorizedRevision(0, 6, 5, [1])
    ensures JudgeItems([Held(0, 6)], Ordered([RULED, RULED])) == UnauthorizedRevision(0, 6, 5, [1, 1])
  {
    var once, twice := [RULED], [RULED, RULED];
    assert once[..0] == [] && twice[..1] == once;
    assert Sorted(once[..0], Precedes) == [];
    assert Ordered(once) == Insert([], RULED, Precedes) == once;
    assert Ordered(twice) == Insert(Ordered(once), RULED, Precedes);
    assert Insert(once, RULED, Precedes) == once + [RULED] == twice;
    assert History(once, 0) == [Ruling(5, 1)];
    assert History(twice, 0) == History(once, 0) + [Ruling(5, 1)];
    assert Numbers([Ruling(5, 1)]) == [1];
    assert Numbers([Ruling(5, 1), Ruling(5, 1)]) == [1, 1];
  }
}
