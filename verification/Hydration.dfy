/** Rebuilding a local journal from the reconciliation log committed at HEAD:
    hydrateClaimJournalFromHead of src/claim-publication.js.

    The log leaves out the clock and finalization entries, so a rebuilt journal
    holds stand-in clock entries where they were. These lemmas say what such a
    journal still agrees about with the one the log was projected from. */
module Hydration {
  import opened Options
  import opened Leases
  import opened Journal
  import opened LeaseSafety
  import opened Coordinator
  import opened Seqs

  const MAX_JOURNAL_ENTRIES: nat := 65536

  /** One line of the committed log: an entry under its sequence number. */
  datatype Logged = Logged(number: int, entry: Entry)

  datatype HydrationError = SequenceOutOfRange | NonContiguousSequence | LocalJournalDiverges

  datatype Hydrated = Hydrated(entries: seq<Entry>) | HydrationFailed(error: HydrationError)

  /** The log that is written for a journal. */
  function LogOf(j: seq<Entry>): seq<Logged> {
    if j == [] then []
    else
      var k := |j| - 1;
      LogOf(j[..k]) + (if IsProjected(j[k]) then [Logged(k + 1, j[k])] else [])
  }

  // ----- hydration as a function -----

  predicate InRange(log: seq<Logged>) {
    forall i :: 0 <= i < |log| ==> 1 <= log[i].number <= MAX_JOURNAL_ENTRIES
  }

  predicate DistinctNumbers(log: seq<Logged>) {
    forall i, k :: 0 <= i < k < |log| ==> log[i].number != log[k].number
  }

  predicate AgreesWith(log: seq<Logged>, local: seq<Entry>)
    requires InRange(log)
  {
    forall i :: 0 <= i < |log| && log[i].number <= |local| ==> local[log[i].number - 1] == log[i].entry
  }

  function MaxNumber(log: seq<Logged>): nat
    requires InRange(log)
  {
    if log == [] then 0
    else
      var k := |log| - 1;
      var before := MaxNumber(log[..k]);
      if log[k].number > before then log[k].number else before
  }

  function EntryAt(log: seq<Logged>, number: int): Option<Entry> {
    if log == [] then None
    else
      var k := |log| - 1;
      if log[k].number == number then Some(log[k].entry) else EntryAt(log[..k], number)
  }

  /** `observed_at ?? physical_now`: the time an entry carries at its top level. */
  function Stamp(e: Entry): Option<Instant> {
    match e
    case Claim(_, now) => Some(now)
    case LegacyIntent(_, _, _, _, _, _, at) => Some(at)
    case LegacyMutation(_, _, _, _, _, at) => Some(at)
    case LegacyAbort(_, _, _, _, at) => Some(at)
    case RepairFinal(_, _, _, at) => Some(at)
    case _ => None
  }

  /** The first stamp of the log, or the Unix epoch. */
  function Fallback(log: seq<Logged>): Instant {
    if log == [] then 0
    else if Stamp(log[0].entry).Some? then Stamp(log[0].entry).value
    else Fallback(log[1..])
  }

  function StandIn(log: seq<Logged>): Entry {
    Clock(Fallback(log), Fallback(log))
  }

  function Recovered(log: seq<Logged>, number: int): Entry {
    var e := EntryAt(log, number);
    if e.Some? then e.value else StandIn(log)
  }

  /** The entries appended after position `from`, up to position `to`. */
  function Missing(log: seq<Logged>, from: nat, to: nat): (r: seq<Entry>)
    ensures |r| == if to > from then to - from else 0
    ensures forall i :: 0 <= i < |r| ==> r[i] == Recovered(log, from + 1 + i)
  {
    if to <= from then [] else Missing(log, from, to - 1) + [Recovered(log, to)]
  }

  function Hydrate(local: seq<Entry>, log: seq<Logged>): Hydrated {
    if !InRange(log) then HydrationFailed(SequenceOutOfRange)
    else if !DistinctNumbers(log) then HydrationFailed(NonContiguousSequence)
    else if !AgreesWith(log, local) then HydrationFailed(LocalJournalDiverges)
    else Hydrated(local + Missing(log, |local|, MaxNumber(log)))
  }

  // ----- hydration in place -----

  /** `bySequence` of the source: the log as a map. */
  ghost predicate Indexes(bySequence: map<int, Entry>, log: seq<Logged>) {
    && (forall i :: 0 <= i < |log| ==> log[i].number in bySequence)
    && (forall n :: n in bySequence ==> EntryAt(log, n) == Some(bySequence[n]))
  }

  lemma IndexOneMore(bySequence: map<int, Entry>, log: seq<Logged>, i: nat)
    requires i < |log| && Indexes(bySequence, log[..i]) && log[i].number !in bySequence
    ensures Indexes(bySequence[log[i].number := log[i].entry], log[..i + 1])
  {
    assert log[..i + 1][..i] == log[..i];
  }

  lemma {:induction false} NotIndexed(log: seq<Logged>, number: int)
    requires forall i :: 0 <= i < |log| ==> log[i].number != number
    ensures EntryAt(log, number) == None
  {
    if log == [] {
    } else {
      NotIndexed(log[..|log| - 1], number);
    }
  }

  /** Number the committed log, or refuse a repeated number. */
  method IndexLog(log: seq<Logged>) returns (bySequence: map<int, Entry>, ok: bool)
    ensures ok == DistinctNumbers(log)
    ensures ok ==> Indexes(bySequence, log)
    ensures ok ==> forall n :: n !in bySequence ==> EntryAt(log, n) == None
  {
    bySequence := map[];
    for i := 0 to |log|
      invariant DistinctNumbers(log[..i])
      invariant Indexes(bySequence, log[..i])
      invariant forall n :: n in bySequence ==> exists k :: 0 <= k < i && log[k].number == n
    {
      if log[i].number in bySequence {
        var k :| 0 <= k < i && log[k].number == log[i].number;
        return bySequence, false;
      }
      IndexOneMore(bySequence, log, i);
      bySequence := bySequence[log[i].number := log[i].entry];
    }
    assert log[..|log|] == log;
    forall n | n !in bySequence ensures EntryAt(log, n) == None {
      NotIndexed(log, n);
    }
    return bySequence, true;
  }

  /** The highest number of the log and its fallback time. */
  method ScanLog(log: seq<Logged>) returns (maxSequence: nat, fallback: Instant)
    requires InRange(log)
    ensures maxSequence == MaxNumber(log) && fallback == Fallback(log)
  {
    maxSequence := 0;
    for i := 0 to |log|
      invariant maxSequence == MaxNumber(log[..i])
    {
      assert log[..i + 1][..i] == log[..i];
      if log[i].number > maxSequence {
        maxSequence := log[i].number;
      }
    }
    assert log[..|log|] == log;
    var i := 0;
    while i < |log| && Stamp(log[i].entry).None?
      invariant 0 <= i <= |log|
      invariant Fallback(log) == Fallback(log[i..])
    {
      assert log[i..][1..] == log[i + 1..];
      i := i + 1;
    }
    fallback := if i < |log| then Stamp(log[i].entry).value else 0;
  }

  /** Append what the committed log has and the local journal lacks. */
  method HydrateClaimJournal(store: Store, log: seq<Logged>) returns (r: Hydrated)
    modifies store`journal, store`trace
    ensures r == Hydrate(old(store.journal), log)
    ensures store.journal == if r.Hydrated? then r.entries else old(store.journal)
    ensures r.HydrationFailed? ==> store.trace == old(store.trace)
  {
    if !InRange(log) {
      return HydrationFailed(SequenceOutOfRange);
    }
    var bySequence, distinct := IndexLog(log);
    if !distinct {
      return HydrationFailed(NonContiguousSequence);
    }
    for i := 0 to |log|
      invariant AgreesWith(log[..i], store.journal)
    {
      if log[i].number <= |store.journal| && store.journal[log[i].number - 1] != log[i].entry {
        return HydrationFailed(LocalJournalDiverges);
      }
    }
    AppendMissing(store, log, bySequence);
    return Hydrated(store.journal);
  }

  /** The entries the local journal lacks, one durable append each. */
  method AppendMissing(store: Store, log: seq<Logged>, bySequence: map<int, Entry>)
    requires InRange(log) && Indexes(bySequence, log)
    requires forall n :: n !in bySequence ==> EntryAt(log, n) == None
    modifies store`journal, store`trace
    ensures store.journal == old(store.journal) + Missing(log, |old(store.journal)|, MaxNumber(log))
  {
    var maxSequence, fallback := ScanLog(log);
    ghost var local := store.journal;
    assert local + [] == local;
    var sequence := |store.journal| + 1;
    while sequence <= maxSequence
      invariant |local| < sequence && (maxSequence <= |local| || sequence <= maxSequence + 1)
      invariant |local| >= maxSequence ==> sequence == |local| + 1
      invariant store.journal == local + Missing(log, |local|, sequence - 1)
    {
      var e := if sequence in bySequence then bySequence[sequence] else Clock(fallback, fallback);
      store.AppendClaimEntry(e);
      Assoc(local, Missing(log, |local|, sequence - 1), [e]);
      sequence := sequence + 1;
    }
  }

  // ----- what the log of a journal says -----

  lemma {:induction false} LogEntries(j: seq<Entry>)
    ensures forall i :: 0 <= i < |LogOf(j)| ==>
              1 <= LogOf(j)[i].number <= |j| && LogOf(j)[i].entry == j[LogOf(j)[i].number - 1] && IsProjected(LogOf(j)[i].entry)
    ensures forall i, k :: 0 <= i < k < |LogOf(j)| ==> LogOf(j)[i].number < LogOf(j)[k].number
  {
    if j == [] {
    } else {
      LogEntries(j[..|j| - 1]);
    }
  }

  lemma {:induction false} LoggedAt(j: seq<Entry>, p: nat)
    ensures EntryAt(LogOf(j), p + 1) == if p < |j| && IsProjected(j[p]) then Some(j[p]) else None
  {
    if j == [] {
    } else {
      var k := |j| - 1;
      var before := LogOf(j[..k]);
      LoggedAt(j[..k], p);
      if IsProjected(j[k]) {
        assert LogOf(j)[..|before|] == before;
      } else {
        assert before + [] == before;
      }
    }
  }

  lemma {:induction false} LogMax(j: seq<Entry>)
    requires InRange(LogOf(j))
    ensures MaxNumber(LogOf(j)) <= |j|
    ensures forall p :: MaxNumber(LogOf(j)) <= p < |j| ==> !IsProjected(j[p])
  {
    if j == [] {
    } else {
      var k := |j| - 1;
      var before := LogOf(j[..k]);
      if IsProjected(j[k]) {
        assert LogOf(j)[..|before|] == before;
        InRangePrefix(LogOf(j), |before|);
      } else {
        assert before + [] == before;
      }
      LogMax(j[..k]);
    }
  }

  lemma InRangePrefix(log: seq<Logged>, n: nat)
    requires InRange(log) && n <= |log|
    ensures InRange(log[..n])
  {
  }

  /** The log's entries are exactly the projection of the journal. */
  lemma {:induction false} LogIsProjection(j: seq<Entry>)
    ensures |LogOf(j)| == |Projected(j)|
    ensures forall i :: 0 <= i < |LogOf(j)| ==> LogOf(j)[i].entry == Projected(j)[i]
  {
    if j == [] {
    } else {
      LogIsProjection(j[..|j| - 1]);
    }
  }

  // ----- the rebuilt journal -----

  /** `r` is `j` cut after its last projected entry or later, with stand-ins for
      what the log leaves out beyond `local`. */
  ghost predicate Rebuilds(r: seq<Entry>, j: seq<Entry>, local: seq<Entry>) {
    && local <= r && local <= j && |r| <= |j|
    && (forall p :: |local| <= p < |r| ==> r[p] == if IsProjected(j[p]) then j[p] else StandIn(LogOf(j)))
    && (forall p :: |r| <= p < |j| ==> !IsProjected(j[p]))
  }

  /** Hydrating a prefix of the journal the log came from succeeds, keeps that
      prefix, and disagrees with the journal nowhere the log has an entry. */
  lemma HydrationRebuilds(j: seq<Entry>, local: seq<Entry>)
    requires |j| <= MAX_JOURNAL_ENTRIES && local <= j
    ensures InRange(LogOf(j))
    ensures var h := Hydrate(local, LogOf(j));
            && h.Hydrated? && Rebuilds(h.entries, j, local)
            && |h.entries| == Max(|local|, MaxNumber(LogOf(j)))
            && forall p :: 0 <= p < |h.entries| && IsProjected(j[p]) ==> h.entries[p] == j[p]
  {
    var log := LogOf(j);
    LogEntries(j);
    LogMax(j);
    var r := local + Missing(log, |local|, MaxNumber(log));
    forall p | 0 <= p < |r|
      ensures r[p] == if p < |local| || IsProjected(j[p]) then j[p] else StandIn(log)
    {
      if p >= |local| { LoggedAt(j, p); }
    }
  }

  function Max(a: nat, b: nat): nat {
    if a < b then b else a
  }

  lemma {:induction false} SameLog(a: seq<Entry>, b: seq<Entry>)
    requires |a| <= |b|
    requires forall p :: 0 <= p < |a| ==> (IsProjected(a[p]) <==> IsProjected(b[p])) && (IsProjected(a[p]) ==> a[p] == b[p])
    requires forall p :: |a| <= p < |b| ==> !IsProjected(b[p])
    ensures LogOf(a) == LogOf(b)
  {
    if |a| < |b| {
      SameLog(a, b[..|b| - 1]);
    } else if b != [] {
      SameLog(a[..|a| - 1], b[..|b| - 1]);
    }
  }

  /** The rebuilt journal projects back to the very log it was built from. */
  lemma HydrationKeepsLog(j: seq<Entry>, local: seq<Entry>)
    requires |j| <= MAX_JOURNAL_ENTRIES && local <= j
    ensures var h := Hydrate(local, LogOf(j)); h.Hydrated? && LogOf(h.entries) == LogOf(j)
  {
    HydrationRebuilds(j, local);
    SameLog(Hydrate(local, LogOf(j)).entries, j);
  }

  /** A journal that already reaches the end of its own log is left alone; so
      hydrating twice is hydrating once, and so is hydrating any journal that
      extends the one whose log was committed. */
  lemma HydrationIsIdentity(j: seq<Entry>, local: seq<Entry>)
    requires |j| <= MAX_JOURNAL_ENTRIES && j <= local
    ensures Hydrate(local, LogOf(j)) == Hydrated(local)
  {
    LogIsWellFormed(j);
    LogAgreesWithExtension(j, local);
    LogMax(j);
    assert local + [] == local;
  }

  lemma LogIsWellFormed(j: seq<Entry>)
    requires |j| <= MAX_JOURNAL_ENTRIES
    ensures InRange(LogOf(j)) && DistinctNumbers(LogOf(j))
  {
    LogEntries(j);
  }

  lemma LogAgreesWithExtension(j: seq<Entry>, local: seq<Entry>)
    requires InRange(LogOf(j)) && j <= local
    ensures AgreesWith(LogOf(j), local)
  {
    AgreementIsEnough(j, local);
  }

  lemma LogEntryIs(j: seq<Entry>, i: nat)
    requires i < |LogOf(j)|
    ensures var l := LogOf(j)[i];
            1 <= l.number <= |j| && l.entry == j[l.number - 1] && IsProjected(l.entry)
  {
    LogEntries(j);
  }

  lemma HydrationIsIdempotent(j: seq<Entry>, local: seq<Entry>)
    requires |j| <= MAX_JOURNAL_ENTRIES && local <= j
    ensures var h := Hydrate(local, LogOf(j));
            h.Hydrated? && Hydrate(h.entries, LogOf(j)) == h
  {
    HydrationRebuilds(j, local);
    HydrationKeepsLog(j, local);
    var r := Hydrate(local, LogOf(j)).entries;
    HydrationIsIdentity(r, r);
  }

  /** Whatever the local journal is, the only refusal of a journal's own log is
      a disagreement at a logged position, and every such one is refused. */
  lemma DivergenceIsRefused(j: seq<Entry>, local: seq<Entry>)
    requires |j| <= MAX_JOURNAL_ENTRIES
    ensures var h := Hydrate(local, LogOf(j));
            && (h.HydrationFailed? <==> exists p :: 0 <= p < |local| && p < |j| && IsProjected(j[p]) && local[p] != j[p])
            && (h.HydrationFailed? ==> h.error == LocalJournalDiverges)
  {
    LogIsWellFormed(j);
    if p :| 0 <= p < |local| && p < |j| && IsProjected(j[p]) && local[p] != j[p] {
      DisagreementIsSeen(j, local, p);
    } else {
      AgreementIsEnough(j, local);
    }
  }

  lemma DisagreementIsSeen(j: seq<Entry>, local: seq<Entry>, p: nat)
    requires InRange(LogOf(j)) && p < |local| && p < |j| && IsProjected(j[p]) && local[p] != j[p]
    ensures !AgreesWith(LogOf(j), local)
  {
    var i := FoundAt(j, p);
    DisagreesAt(LogOf(j), local, i, p);
  }

  lemma DisagreesAt(log: seq<Logged>, local: seq<Entry>, i: nat, p: nat)
    requires InRange(log) && i < |log| && log[i].number == p + 1
    requires p < |local| && local[p] != log[i].entry
    ensures !AgreesWith(log, local)
  {
  }

  lemma AgreementIsEnough(j: seq<Entry>, local: seq<Entry>)
    requires InRange(LogOf(j))
    requires forall p :: 0 <= p < |local| && p < |j| && IsProjected(j[p]) ==> local[p] == j[p]
    ensures AgreesWith(LogOf(j), local)
  {
    forall i | 0 <= i < |LogOf(j)| && 1 <= LogOf(j)[i].number <= |local|
      ensures local[LogOf(j)[i].number - 1] == LogOf(j)[i].entry
    {
      LogEntryIs(j, i);
    }
  }

  /** Where the log carries a projected entry. */
  lemma {:induction false} FoundAt(j: seq<Entry>, p: nat) returns (i: nat)
    requires p < |j| && IsProjected(j[p])
    ensures i < |LogOf(j)| && LogOf(j)[i] == Logged(p + 1, j[p])
  {
    var k := |j| - 1;
    if p < k {
      i := FoundAt(j[..k], p);
    } else {
      i := |LogOf(j[..k])|;
    }
  }

  // ----- authorized revisions survive -----

  /** Every ruling is projected, so the log alone names the authorized revision. */
  lemma {:induction false} ProjectionKeepsRulings(j: seq<Entry>, item: ItemId)
    ensures LatestAuthorization(Projected(j), item) == LatestAuthorization(j, item)
  {
    if j == [] {
    } else {
      var k := |j| - 1;
      ProjectionKeepsRulings(j[..k], item);
      if IsProjected(j[k]) {
        LatestAppend(Projected(j[..k]), j[k], item);
      } else {
        assert Projected(j[..k]) + [] == Projected(j[..k]);
      }
    }
  }

  lemma {:induction false} SameLogSameProjection(a: seq<Entry>, b: seq<Entry>)
    requires LogOf(a) == LogOf(b)
    ensures Projected(a) == Projected(b)
  {
    LogIsProjection(a);
    LogIsProjection(b);
    assert forall i :: 0 <= i < |Projected(a)| ==> Projected(a)[i] == LogOf(a)[i].entry;
  }

  /** A hydrated journal authorizes the revision of every item that the journal
      behind the log did. */
  lemma HydrationKeepsRulings(j: seq<Entry>, local: seq<Entry>, item: ItemId)
    requires |j| <= MAX_JOURNAL_ENTRIES && local <= j
    ensures var h := Hydrate(local, LogOf(j));
            h.Hydrated? && LatestAuthorization(h.entries, item) == LatestAuthorization(j, item)
  {
    HydrationKeepsLog(j, local);
    var r := Hydrate(local, LogOf(j)).entries;
    SameLogSameProjection(r, j);
    ProjectionKeepsRulings(r, item);
    ProjectionKeepsRulings(j, item);
  }

  // ----- replay -----

  /** The entries that move the clock floor, and the time they move it to. */
  ghost predicate Ticks(e: Entry) {
    e.Clock? || (e.Claim? && !e.request.Read?)
  }

  ghost function Tick(e: Entry): Instant
    requires Ticks(e)
  {
    if e.Clock? then e.floor else e.physicalNow
  }

  /** The floor is the latest tick, whatever order the ticks came in. */
  lemma {:induction false} FloorIsLatestTick(j: seq<Entry>)
    ensures var floor := Replay(j).floor;
            && (forall i :: 0 <= i < |j| && Ticks(j[i]) ==> floor.Some? && Tick(j[i]) <= floor.value)
            && (floor.Some? ==> exists i :: 0 <= i < |j| && Ticks(j[i]) && Tick(j[i]) == floor.value)
  {
    if j == [] {
    } else {
      var k := |j| - 1;
      var p := j[..k];
      FloorIsLatestTick(p);
      if Replay(p).floor.Some? {
        var i :| 0 <= i < |p| && Ticks(p[i]) && Tick(p[i]) == Replay(p).floor.value;
        assert j[i] == p[i];
      }
      assert forall i :: 0 <= i < k ==> p[i] == j[i];
    }
  }

  /** The time an entry carries, whether replay reads it or not. */
  ghost function TimeOf(e: Entry): Option<Instant> {
    if e.Clock? then Some(e.floor) else Stamp(e)
  }

  /** The times of the journal never go backward. */
  ghost predicate Forward(j: seq<Entry>) {
    forall i, k :: 0 <= i <= k < |j| && TimeOf(j[i]).Some? && TimeOf(j[k]).Some? ==>
      TimeOf(j[i]).value <= TimeOf(j[k]).value
  }

  /** The stand-ins' time is the stamp of an entry no later than any stamped one. */
  lemma {:induction false} FallbackAt(log: seq<Logged>, i: nat) returns (q: nat)
    requires i < |log| && Stamp(log[i].entry).Some?
    ensures q <= i && Stamp(log[q].entry) == Some(Fallback(log))
  {
    if Stamp(log[0].entry).Some? {
      q := 0;
    } else {
      q := FallbackAt(log[1..], i - 1);
      q := q + 1;
    }
  }

  lemma FallbackIsNotAfter(j: seq<Entry>, p: nat)
    requires Forward(j) && p < |j| && j[p].Claim?
    ensures Fallback(LogOf(j)) <= j[p].physicalNow
  {
    var i := FoundAt(j, p);
    var q := FallbackAt(LogOf(j), i);
    LogEntryIs(j, q);
    LogAscends(j, q, i);
    assert TimeOf(j[LogOf(j)[q].number - 1]) == Some(Fallback(LogOf(j)));
    assert TimeOf(j[p]) == Some(j[p].physicalNow);
  }

  lemma LogAscends(j: seq<Entry>, q: nat, i: nat)
    requires q <= i < |LogOf(j)|
    ensures LogOf(j)[q].number <= LogOf(j)[i].number
  {
    LogEntries(j);
  }

  /** The clock floor the rebuilt journal has before position `p`: the local
      journal's, raised by the stand-ins' time wherever the log leaves an entry
      out and by the time of every claim it carries. */
  ghost function RebuiltFloor(j: seq<Entry>, local: seq<Entry>, p: nat): Option<Instant>
    requires |local| <= p <= |j|
  {
    if p == |local| then Replay(local).floor
    else
      var before := RebuiltFloor(j, local, p - 1);
      if !IsProjected(j[p - 1]) then Some(Effective(before, Fallback(LogOf(j))))
      else if Ticks(j[p - 1]) then Some(Effective(before, Tick(j[p - 1])))
      else before
  }

  lemma {:induction false} RebuiltFloorIs(r: seq<Entry>, j: seq<Entry>, local: seq<Entry>, p: nat)
    requires Rebuilds(r, j, local) && |local| <= p <= |r|
    ensures Replay(r[..p]).floor == RebuiltFloor(j, local, p)
  {
    if p == |local| {
      assert r[..p] == local;
    } else {
      RebuiltFloorIs(r, j, local, p - 1);
      TakeTake(r, p, p - 1);
    }
  }

  /** Whether a request leaves its record in one state whether it is decided at
      `a` or at `b`: at one instant, or refused at both, or released at both, or
      renewed at one to the very expiry it had. */
  ghost predicate SettlesAlike(record: ClaimRecord, request: Request, a: Instant, b: Instant) {
    a == b ||
    match request
    case Acquire(_, _, _, expected) =>
      || record != expected
      || record.lastEpoch >= MAX_EPOCH
      || (record.active.Some? && a < record.active.value.expiresAt && b < record.active.value.expiresAt)
    case Renew(_, owner, epoch, expiresAt, leaseMs) =>
      || !TupleMatches(record.active, owner, epoch, expiresAt)
      || (expiresAt <= a && expiresAt <= b)
      || (a < expiresAt <= b && a + leaseMs == expiresAt)
      || (b < expiresAt <= a && b + leaseMs == expiresAt)
    case Release(_, owner, epoch, expiresAt) =>
      !TupleMatches(record.active, owner, epoch, expiresAt) || (a < expiresAt <==> b < expiresAt)
    case Read(_) => true
  }

  lemma SettlesAlikeExactly(record: ClaimRecord, request: Request, a: Instant, b: Instant)
    ensures SettlesAlike(record, request, a, b)
            <==> Settle(record, Decide(record, request, a)) == Settle(record, Decide(record, request, b))
  {
  }

  /** The claim at `p` settles as it did although its floor was rebuilt. */
  ghost predicate ClaimSettlesAlike(j: seq<Entry>, local: seq<Entry>, p: nat)
    requires |local| <= p < |j| && j[p].Claim?
  {
    var before := Replay(j[..p]);
    SettlesAlike(RecordOf(before, j[p].request.item), j[p].request,
                 Effective(before.floor, j[p].physicalNow), Effective(RebuiltFloor(j, local, p), j[p].physicalNow))
  }

  ghost predicate ClaimsSettleAlike(j: seq<Entry>, local: seq<Entry>) {
    forall p :: |local| <= p < |j| && j[p].Claim? ==> ClaimSettlesAlike(j, local, p)
  }

  /** One claim from equal records under two floors. */
  lemma ClaimStep(s: ClaimState, t: ClaimState, e: Entry)
    requires s.claims == t.claims && e.Claim?
    ensures ReplayEntry(s, e).claims == ReplayEntry(t, e).claims
            <==> SettlesAlike(RecordOf(s, e.request.item), e.request,
                              Effective(s.floor, e.physicalNow), Effective(t.floor, e.physicalNow))
  {
    if !e.request.Read? {
      var item := e.request.item;
      SettlesAlikeExactly(RecordOf(s, item), e.request, Effective(s.floor, e.physicalNow), Effective(t.floor, e.physicalNow));
      assert ReplayEntry(s, e).claims[item] == Settle(RecordOf(s, item), Decide(RecordOf(s, item), e.request, Effective(s.floor, e.physicalNow)));
      assert ReplayEntry(t, e).claims[item] == Settle(RecordOf(t, item), Decide(RecordOf(t, item), e.request, Effective(t.floor, e.physicalNow)));
    }
  }

  /** From records that agree, one more position agrees exactly when its claim,
      if it holds one, settles alike. */
  lemma PositionAgrees(r: seq<Entry>, j: seq<Entry>, local: seq<Entry>, p: nat)
    requires Rebuilds(r, j, local) && |local| <= p < |r|
    requires Replay(j[..p]).claims == Replay(r[..p]).claims
    ensures Replay(j[..p + 1]).claims == Replay(r[..p + 1]).claims <==> (j[p].Claim? ==> ClaimSettlesAlike(j, local, p))
  {
    TakeTake(j, p + 1, p);
    TakeTake(r, p + 1, p);
    RebuiltFloorIs(r, j, local, p);
    if j[p].Claim? {
      ClaimStep(Replay(j[..p]), Replay(r[..p]), j[p]);
    }
  }

  lemma {:induction false} AlikeAgree(r: seq<Entry>, j: seq<Entry>, local: seq<Entry>, n: nat)
    requires Rebuilds(r, j, local) && n <= |r| && ClaimsSettleAlike(j, local)
    ensures Replay(j[..n]).claims == Replay(r[..n]).claims
  {
    if n <= |local| {
      assert j[..n] == local[..n] == r[..n];
    } else {
      AlikeAgree(r, j, local, n - 1);
      PositionAgrees(r, j, local, n - 1);
    }
  }

  lemma {:induction false} UnprojectedKeepClaims(j: seq<Entry>, n: nat)
    requires n <= |j| && forall p :: n <= p < |j| ==> !IsProjected(j[p])
    ensures Replay(j).claims == Replay(j[..n]).claims
  {
    if n == |j| {
      assert j[..n] == j;
    } else {
      var k := |j| - 1;
      assert j[..k][..n] == j[..n];
      UnprojectedKeepClaims(j[..k], n);
    }
  }

  /** The rebuilt journal has the records of the original at every prefix. */
  ghost predicate RecordsAgree(r: seq<Entry>, j: seq<Entry>) {
    forall n :: 0 <= n <= |r| && n <= |j| ==> Replay(j[..n]).claims == Replay(r[..n]).claims
  }

  lemma AlikeKeepsRecords(r: seq<Entry>, j: seq<Entry>, local: seq<Entry>)
    requires Rebuilds(r, j, local) && ClaimsSettleAlike(j, local)
    ensures RecordsAgree(r, j) && Replay(r).claims == Replay(j).claims
  {
    forall n | 0 <= n <= |r| ensures Replay(j[..n]).claims == Replay(r[..n]).claims {
      AlikeAgree(r, j, local, n);
    }
    assert r[..|r|] == r;
    UnprojectedKeepClaims(j, |r|);
  }

  lemma AgreementSettlesAlike(r: seq<Entry>, j: seq<Entry>, local: seq<Entry>)
    requires Rebuilds(r, j, local) && RecordsAgree(r, j)
    ensures ClaimsSettleAlike(j, local)
  {
    forall p | |local| <= p < |j| && j[p].Claim? ensures ClaimSettlesAlike(j, local, p) {
      assert Replay(j[..p]).claims == Replay(r[..p]).claims;
      assert Replay(j[..p + 1]).claims == Replay(r[..p + 1]).claims;
      PositionAgrees(r, j, local, p);
    }
  }

  /** For every journal and every prefix of it: the hydrated journal keeps the
      claim records at each of its positions exactly when every logged claim
      past the local ones settles alike under the rebuilt floor. Then it replays
      to the journal's own records. */
  lemma HydrationKeepsClaimsExactly(j: seq<Entry>, local: seq<Entry>)
    requires |j| <= MAX_JOURNAL_ENTRIES && local <= j
    ensures var h := Hydrate(local, LogOf(j));
            && h.Hydrated?
            && (RecordsAgree(h.entries, j) <==> ClaimsSettleAlike(j, local))
            && (ClaimsSettleAlike(j, local) ==> Replay(h.entries).claims == Replay(j).claims)
  {
    HydrationRebuilds(j, local);
    var r := Hydrate(local, LogOf(j)).entries;
    if ClaimsSettleAlike(j, local) {
      AlikeKeepsRecords(r, j, local);
    }
    if RecordsAgree(r, j) {
      AgreementSettlesAlike(r, j, local);
    }
  }

  /** In a forward journal a claim decides at its own time, stand-ins or not. */
  lemma ForwardSettlesAlike(r: seq<Entry>, j: seq<Entry>, local: seq<Entry>, p: nat)
    requires Forward(j) && Rebuilds(r, j, local) && |local| <= p < |r| && j[p].Claim?
    ensures ClaimSettlesAlike(j, local, p)
  {
    var now := j[p].physicalNow;
    FallbackIsNotAfter(j, p);
    FloorIsLatestTick(j[..p]);
    FloorIsLatestTick(r[..p]);
    RebuiltFloorIs(r, j, local, p);
    assert TimeOf(j[p]) == Some(now);
    forall i | 0 <= i < p && Ticks(j[i]) ensures Tick(j[i]) <= now {
      assert TimeOf(j[i]) == Some(Tick(j[i]));
    }
    forall i | 0 <= i < p && Ticks(r[i]) ensures Tick(r[i]) <= now {
      if i < |local| { assert r[i] == j[i]; }
    }
  }

  lemma ForwardClaimsSettle(r: seq<Entry>, j: seq<Entry>, local: seq<Entry>)
    requires Forward(j) && Rebuilds(r, j, local)
    ensures ClaimsSettleAlike(j, local)
  {
    forall p | |local| <= p < |j| && j[p].Claim? ensures ClaimSettlesAlike(j, local, p) {
      assert p < |r|;
      ForwardSettlesAlike(r, j, local, p);
    }
  }

  /** In particular it does when the journal's times never go backward. */
  lemma HydrationKeepsClaims(j: seq<Entry>, local: seq<Entry>)
    requires |j| <= MAX_JOURNAL_ENTRIES && local <= j && Forward(j)
    ensures var h := Hydrate(local, LogOf(j));
            h.Hydrated? && Replay(h.entries).claims == Replay(j).claims
  {
    HydrationRebuilds(j, local);
    ForwardClaimsSettle(Hydrate(local, LogOf(j)).entries, j, local);
    HydrationKeepsClaimsExactly(j, local);
  }

  /** The log leaves out an entry the local journal lacks, before its last one. */
  ghost predicate StandsIn(j: seq<Entry>, local: seq<Entry>)
    requires InRange(LogOf(j))
  {
    exists p :: |local| <= p < MaxNumber(LogOf(j)) && p < |j| && !IsProjected(j[p])
  }

  /** Where the rebuilt journal's ticks come from. */
  lemma RebuiltTick(r: seq<Entry>, j: seq<Entry>, local: seq<Entry>, i: nat)
    requires InRange(LogOf(j)) && Rebuilds(r, j, local) && |r| == Max(|local|, MaxNumber(LogOf(j)))
    requires i < |r| && Ticks(r[i])
    ensures NotBefore(Some(Tick(r[i])), Replay(j).floor) || (StandsIn(j, local) && Tick(r[i]) == Fallback(LogOf(j)))
  {
    FloorIsLatestTick(j);
    if |local| <= i && !IsProjected(j[i]) {
      assert r[i] == StandIn(LogOf(j));
    } else {
      assert r[i] == j[i];
    }
  }

  lemma StandInTicks(r: seq<Entry>, j: seq<Entry>, local: seq<Entry>)
    requires InRange(LogOf(j)) && Rebuilds(r, j, local) && |r| == Max(|local|, MaxNumber(LogOf(j)))
    requires StandsIn(j, local)
    ensures NotBefore(Some(Fallback(LogOf(j))), Replay(r).floor)
  {
    FloorIsLatestTick(r);
    var p :| |local| <= p < MaxNumber(LogOf(j)) && p < |j| && !IsProjected(j[p]);
    assert Ticks(r[p]) && Tick(r[p]) == Fallback(LogOf(j));
  }

  /** The hydrated clock floor is no higher than the journal's exactly when no
      stand-in was needed or the stand-ins' time is itself no higher. */
  lemma HydratedFloor(j: seq<Entry>, local: seq<Entry>)
    requires |j| <= MAX_JOURNAL_ENTRIES && local <= j
    ensures InRange(LogOf(j))
    ensures var h := Hydrate(local, LogOf(j));
            && h.Hydrated?
            && (NotBefore(Replay(h.entries).floor, Replay(j).floor)
                <==> (StandsIn(j, local) ==> NotBefore(Some(Fallback(LogOf(j))), Replay(j).floor)))
  {
    HydrationRebuilds(j, local);
    var r := Hydrate(local, LogOf(j)).entries;
    if StandsIn(j, local) {
      StandInTicks(r, j, local);
    }
    FloorIsLatestTick(r);
    if Replay(r).floor.Some? {
      var i :| 0 <= i < |r| && Ticks(r[i]) && Tick(r[i]) == Replay(r).floor.value;
      RebuiltTick(r, j, local, i);
    }
  }

  lemma {:induction false} MaxIsMost(log: seq<Logged>, i: nat)
    requires InRange(log) && i < |log|
    ensures log[i].number <= MaxNumber(log)
  {
    if i < |log| - 1 {
      MaxIsMost(log[..|log| - 1], i);
    }
  }
}
