/** The checks readJournalEntries of src/claim-journal.js makes of a whole
    journal: creates and number repairs resolve as they were opened.

    Entry shapes and sequence numbers are right by construction here; what is
    left are the two checks that relate entries to one another. */
module JournalReader {
  import opened Options
  import opened Journal
  import opened Protocol
  import opened Lawfulness
  import opened Fencing
  import opened NumberRepair

  predicate IsCreateIntent(e: Entry) {
    e.LegacyIntent? && e.command.CreateV1?
  }

  predicate IsCreateTerminal(e: Entry) {
    IsLegacyTerminal(e) && e.command.CreateV1?
  }

  /** The create attempt still open after `p`. */
  function OpenCreate(p: seq<Entry>, attempt: AttemptId): (r: Option<Entry>)
    ensures r.Some? ==> IsCreateIntent(r.value)
  {
    if p == [] then None
    else
      var e := p[|p| - 1];
      if IsCreateIntent(e) && e.attempt == attempt then Some(e)
      else if IsCreateTerminal(e) && e.attempt == attempt then None
      else OpenCreate(p[..|p| - 1], attempt)
  }

  /** A create terminal ends the open attempt of its item, and commits exactly
      the revision that attempt proposed. */
  predicate ValidCreateEntry(p: seq<Entry>, e: Entry) {
    IsCreateTerminal(e) ==>
      var intent := OpenCreate(p, e.attempt);
      && intent.Some? && intent.value.item == e.item
      && (e.LegacyMutation? ==> intent.value.candidate == e.committed)
  }

  ghost predicate ValidCreates(j: seq<Entry>) {
    forall i :: 0 <= i < |j| ==> ValidCreateEntry(j[..i], j[i])
  }

  /** `e` opens or ends a create attempt. */
  ghost predicate OfCreate(e: Entry, attempt: AttemptId) {
    (e.LegacyIntent? || e.LegacyMutation? || e.LegacyAbort?) && e.command == CreateV1 && e.attempt == attempt
  }

  /** The terminal at `t` is the first entry about its attempt after the intent at
      `i`, is of the same item and commits, if it does, what that proposed. */
  ghost predicate Resolves(j: seq<Entry>, i: nat, t: nat) {
    && i < t < |j| && j[i].LegacyIntent? && OfCreate(j[t], j[i].attempt) && OfCreate(j[i], j[i].attempt)
    && j[i].item == j[t].item && (j[t].LegacyMutation? ==> j[i].candidate == j[t].committed)
    && forall k :: i < k < t ==> !OfCreate(j[k], j[i].attempt)
  }

  ghost predicate EveryCreateResolves(j: seq<Entry>) {
    forall t :: 0 <= t < |j| && (j[t].LegacyMutation? || j[t].LegacyAbort?) && j[t].command == CreateV1 ==>
      exists i :: 0 <= i < t && Resolves(j, i, t)
  }

  /** The open attempt is the last entry about it, if that is an intent. */
  lemma {:induction false} OpenCreateIsLast(p: seq<Entry>, attempt: AttemptId)
    ensures OpenCreate(p, attempt).Some? ==>
              exists i :: && 0 <= i < |p| && p[i].LegacyIntent? && OfCreate(p[i], attempt)
                          && OpenCreate(p, attempt) == Some(p[i]) && forall k :: i < k < |p| ==> !OfCreate(p[k], attempt)
    ensures forall i :: && 0 <= i < |p| && p[i].LegacyIntent? && OfCreate(p[i], attempt)
                        && (forall k :: i < k < |p| ==> !OfCreate(p[k], attempt)) ==>
                          OpenCreate(p, attempt) == Some(p[i])
  {
    if p == [] {
    } else {
      var n := |p| - 1;
      if !OfCreate(p[n], attempt) {
        OpenCreateIsLast(p[..n], attempt);
        if OpenCreate(p, attempt).Some? {
          var i :| && 0 <= i < n && p[..n][i].LegacyIntent? && OfCreate(p[..n][i], attempt)
                   && OpenCreate(p, attempt) == Some(p[..n][i])
                   && forall k :: i < k < n ==> !OfCreate(p[..n][k], attempt);
          assert p[i] == p[..n][i] && forall k :: i < k < n ==> p[k] == p[..n][k];
        }
        forall i | && 0 <= i < |p| && p[i].LegacyIntent? && OfCreate(p[i], attempt)
                   && (forall k :: i < k < |p| ==> !OfCreate(p[k], attempt))
          ensures OpenCreate(p, attempt) == Some(p[i])
        {
          assert p[..n][i] == p[i] && forall k :: i < k < n ==> p[..n][k] == p[k];
        }
      }
    }
  }

  lemma TerminalResolves(j: seq<Entry>, t: nat)
    requires t < |j| && IsCreateTerminal(j[t])
    ensures ValidCreateEntry(j[..t], j[t]) <==> exists i :: 0 <= i < t && Resolves(j, i, t)
  {
    var p := j[..t];
    OpenCreateIsLast(p, j[t].attempt);
    if ValidCreateEntry(p, j[t]) {
      var i :| && 0 <= i < |p| && p[i].LegacyIntent? && OfCreate(p[i], j[t].attempt)
               && OpenCreate(p, j[t].attempt) == Some(p[i]) && forall k :: i < k < |p| ==> !OfCreate(p[k], j[t].attempt);
      assert forall k :: 0 <= k < t ==> p[k] == j[k];
      assert Resolves(j, i, t);
    }
    if i :| 0 <= i < t && Resolves(j, i, t) {
      assert forall k :: 0 <= k < t ==> p[k] == j[k];
      assert OpenCreate(p, j[t].attempt) == Some(p[i]);
    }
  }

  lemma ValidCreatesExactly(j: seq<Entry>)
    ensures ValidCreates(j) <==> EveryCreateResolves(j)
  {
    forall t | 0 <= t < |j| && (j[t].LegacyMutation? || j[t].LegacyAbort?) && j[t].command == CreateV1
      ensures IsCreateTerminal(j[t])
      ensures ValidCreateEntry(j[..t], j[t]) <==> exists i :: 0 <= i < t && Resolves(j, i, t)
    {
      TerminalResolves(j, t);
    }
  }

  method CheckCreateResolution(j: seq<Entry>) returns (ok: bool)
    ensures ok <==> EveryCreateResolves(j)
  {
    ValidCreatesExactly(j);
    var attempts: map<AttemptId, Entry> := map[];
    for i := 0 to |j|
      invariant forall k :: 0 <= k < i ==> ValidCreateEntry(j[..k], j[k])
      invariant forall a: AttemptId :: OpenCreate(j[..i], a) == if a in attempts then Some(attempts[a]) else None
    {
      var e := j[i];
      assert j[..i + 1][..i] == j[..i];
      if IsCreateIntent(e) {
        attempts := attempts[e.attempt := e];
      } else if IsCreateTerminal(e) {
        assert OpenCreate(j[..i], e.attempt) == if e.attempt in attempts then Some(attempts[e.attempt]) else None;
        if e.attempt !in attempts || attempts[e.attempt].item != e.item
           || (e.LegacyMutation? && attempts[e.attempt].candidate != e.committed) {
          assert !ValidCreateEntry(j[..i], j[i]);
          return false;
        }
        attempts := attempts - {e.attempt};
      }
    }
    return true;
  }

  /** What the reader has collected about the repairs of `p`. */
  ghost predicate Tracks(intents: map<nat, Entry>, finals: set<nat>, p: seq<Entry>) {
    && (forall r: nat :: FindRepairIntent(p, r) == if r in intents then Some(intents[r]) else None)
    && (forall r: nat :: r in finals <==> HasRepairFinal(p, r))
  }

  lemma TracksOneMore(intents: map<nat, Entry>, finals: set<nat>, p: seq<Entry>, e: Entry)
    requires Tracks(intents, finals, p) && ValidRepairEntry(p, e)
    ensures Tracks(if e.RepairIntent? then intents[e.repair := e] else intents,
                   if e.RepairFinal? then finals + {e.repair} else finals, p + [e])
  {
    forall r: nat
      ensures FindRepairIntent(p + [e], r)
           == if FindRepairIntent(p, r).Some? then FindRepairIntent(p, r)
              else if e.RepairIntent? && e.repair == r then Some(e) else None
      ensures HasRepairFinal(p + [e], r) <==> HasRepairFinal(p, r) || (e.RepairFinal? && e.repair == r)
    {
      FindIntentAppend(p, e, r);
      FinalAppended(p, e, r);
    }
  }

  /** One entry against what was collected before it. */
  method CheckRepairEntry(intents: map<nat, Entry>, finals: set<nat>, ghost p: seq<Entry>, e: Entry) returns (ok: bool)
    requires Tracks(intents, finals, p)
    ensures ok == ValidRepairEntry(p, e)
  {
    if e.RepairIntent? {
      assert FindRepairIntent(p, e.repair) == if e.repair in intents then Some(intents[e.repair]) else None;
      return e.repair !in intents;
    }
    if !e.RepairFinal? {
      return true;
    }
    assert FindRepairIntent(p, e.repair) == if e.repair in intents then Some(intents[e.repair]) else None;
    return e.repair in intents && e.repair !in finals && intents[e.repair].staging == e.staging
           && SameCandidates(intents[e.repair].items, e.items);
  }

  method CheckRepairResolution(j: seq<Entry>) returns (ok: bool)
    ensures ok == ValidRepairs(j)
  {
    var intents: map<nat, Entry> := map[];
    var finals: set<nat> := {};
    for i := 0 to |j|
      invariant forall k :: 0 <= k < i ==> ValidRepairEntry(j[..k], j[k])
      invariant Tracks(intents, finals, j[..i])
    {
      var e := j[i];
      assert j[..i + 1] == j[..i] + [e];
      ok := CheckRepairEntry(intents, finals, j[..i], e);
      if !ok {
        return;
      }
      TracksOneMore(intents, finals, j[..i], e);
      if e.RepairIntent? {
        intents := intents[e.repair := e];
      } else if e.RepairFinal? {
        finals := finals + {e.repair};
      }
    }
    return true;
  }

  lemma FinalAppended(p: seq<Entry>, e: Entry, repair: nat)
    ensures HasRepairFinal(p + [e], repair) <==> HasRepairFinal(p, repair) || (e.RepairFinal? && e.repair == repair)
  {
    NoFinalCountsNone(p, repair);
    NoFinalCountsNone(p + [e], repair);
    FinalsAppend(p, e, repair);
  }

  /** In a lawful journal the only create intent of an unresolved attempt is the
      open one. */
  lemma {:induction false} OpenCreateIs(p: seq<Entry>, i: nat)
    requires i < |p| && IsCreateIntent(p[i])
    requires !HasLegacyTerminal(p, p[i].attempt)
    requires forall k :: 0 <= k < |p| && p[k].LegacyIntent? && p[k].attempt == p[i].attempt ==> k == i
    ensures OpenCreate(p, p[i].attempt) == Some(p[i])
  {
    var k := |p| - 1;
    if i < k {
      var q := p[..k];
      assert forall n :: 0 <= n < k ==> q[n] == p[n];
      OpenCreateIs(q, i);
    }
  }

  lemma LawfulCreatesResolve(j: seq<Entry>)
    requires LawfulJournal(j)
    ensures ValidCreates(j)
  {
    forall t | 0 <= t < |j| && IsCreateTerminal(j[t]) ensures ValidCreateEntry(j[..t], j[t]) {
      var p := j[..t];
      assert LawfulEntry(p, j[t]);
      var i :| 0 <= i < |p| && p[i].LegacyIntent? && p[i].attempt == j[t].attempt
               && p[i].item == j[t].item && p[i].command == j[t].command
               && (j[t].LegacyMutation? ==> p[i].candidate == j[t].committed);
      forall k | 0 <= k < |p| && p[k].LegacyIntent? && p[k].attempt == p[i].attempt ensures k == i {
        if k < i { OneTerminal(j, k, i); } else if i < k { OneTerminal(j, i, k); }
      }
      OpenCreateIs(p, i);
    }
  }

  /** Every journal a run can leave, crashed anywhere, passes the reader's
      create check: no create terminal lacks its attempt or is repeated. */
  lemma ReachableCreatesResolve(w: World, actions: seq<Action>)
    requires w.journal == [] && Lawful(w, actions)
    ensures EveryCreateResolves(Run(w, actions).journal)
  {
    ReachableIsLawful(w, actions);
    LawfulCreatesResolve(Run(w, actions).journal);
    ValidCreatesExactly(Run(w, actions).journal);
  }
}
