/** Lease safety over every run: whatever the commands and however the
    physical clock jumps, epochs are issued once each in order and the lease
    windows of one item never overlap in effective time.

    A run is any sequence of journal entries, so these theorems hold of every
    journal that can be replayed. */
module LeaseSafety {
  import opened Options
  import opened Leases
  import opened Journal

  /** The effective-time window one epoch of an item held: [start, end). */
  datatype Window = Window(epoch: nat, start: Instant, end: Instant)

  /** What the entry decided about `item`, given the state it was applied to. */
  ghost function VerdictOn(s: ClaimState, e: Entry, item: ItemId): Verdict {
    if e.Claim? && e.request.item == item && !e.request.Read?
    then Operate(s, e.request, e.physicalNow).verdict
    else Observed
  }

  /** The windows of `item`, read off the verdicts alone: an acquire opens one,
      a renew moves the end of the last, a release ends it at its own time. */
  ghost function Windows(entries: seq<Entry>, item: ItemId): seq<Window> {
    if entries == [] then []
    else
      var k := |entries| - 1;
      var before := Windows(entries[..k], item);
      var s := Replay(entries[..k]);
      match VerdictOn(s, entries[k], item)
      case Acquired(lease) => before + [Window(lease.epoch, lease.issuedAt, lease.expiresAt)]
      case Renewed(lease) => EndLast(before, lease.expiresAt)
      case Released(_) => EndLast(before, Effective(s.floor, entries[k].physicalNow))
      case _ => before
  }

  ghost function EndLast(ws: seq<Window>, end: Instant): seq<Window> {
    if ws == [] then [] else ws[..|ws| - 1] + [ws[|ws| - 1].(end := end)]
  }

  ghost predicate Disjoint(ws: seq<Window>) {
    forall i, j :: 0 <= i < j < |ws| ==> ws[i].end <= ws[j].start
  }

  /** How the windows so far agree with the replayed record and floor. */
  ghost predicate Agree(ws: seq<Window>, record: ClaimRecord, floor: Option<Instant>) {
    && |ws| == record.lastEpoch <= MAX_EPOCH
    && (forall k :: 0 <= k < |ws| ==> ws[k].epoch == k + 1 && ws[k].start <= ws[k].end)
    && Disjoint(ws)
    && (ws != [] ==> floor.Some? && ws[|ws| - 1].start <= floor.value)
    && (ws != [] && record.active.None? ==> ws[|ws| - 1].end <= floor.value)
    && (record.active.Some? ==>
          ws != [] && ws[|ws| - 1] == Window(record.active.value.epoch, record.active.value.issuedAt, record.active.value.expiresAt))
  }

  lemma StepAgrees(ws: seq<Window>, s: ClaimState, e: Entry, item: ItemId)
    requires e.Claim? && e.request.item == item && !e.request.Read?
    requires Agree(ws, RecordOf(s, item), s.floor)
    ensures var o := Operate(s, e.request, e.physicalNow);
            var at := Effective(s.floor, e.physicalNow);
            Agree(match o.verdict
                  case Acquired(lease) => ws + [Window(lease.epoch, lease.issuedAt, lease.expiresAt)]
                  case Renewed(lease) => EndLast(ws, lease.expiresAt)
                  case Released(_) => EndLast(ws, at)
                  case _ => ws,
                  RecordOf(o.state, item), o.state.floor)
  {
  }

  /** The invariant of every run, by induction on its length. */
  lemma {:induction false} RunAgrees(entries: seq<Entry>, item: ItemId)
    ensures Agree(Windows(entries, item), RecordOf(Replay(entries), item), Replay(entries).floor)
  {
    if entries == [] {
    } else {
      var k := |entries| - 1;
      RunAgrees(entries[..k], item);
      var s, e := Replay(entries[..k]), entries[k];
      if e.Claim? && e.request.item == item && !e.request.Read? {
        StepAgrees(Windows(entries[..k], item), s, e, item);
      }
    }
  }

  /** Successful acquires of an item issue exactly the epochs 1, 2, 3, ..., none
      twice and none past 2^64 - 1; the last of them is the record's high-water
      mark, and an active lease always carries it. */
  lemma {:induction false} EpochsIssuedOnce(entries: seq<Entry>, item: ItemId)
    ensures var ws := Windows(entries, item);
            var record := RecordOf(Replay(entries), item);
            && |ws| == record.lastEpoch <= MAX_EPOCH
            && (forall k :: 0 <= k < |ws| ==> ws[k].epoch == k + 1)
            && (record.active.Some? ==> record.active.value.epoch == record.lastEpoch > 0)
  {
    RunAgrees(entries, item);
  }

  /** Lease windows of different epochs never overlap in effective time. */
  lemma WindowsNeverOverlap(entries: seq<Entry>, item: ItemId, i: nat, j: nat, t: Instant)
    requires i < |Windows(entries, item)| && j < |Windows(entries, item)|
    requires Windows(entries, item)[i].start <= t < Windows(entries, item)[i].end
    requires Windows(entries, item)[j].start <= t < Windows(entries, item)[j].end
    ensures i == j
  {
    RunAgrees(entries, item);
  }

  /** A lease that is live at the floor is inside the window of its own epoch. */
  lemma LiveLeaseIsInItsWindow(entries: seq<Entry>, item: ItemId)
    requires var s := Replay(entries);
             RecordOf(s, item).active.Some? && s.floor.Some?
             && s.floor.value < RecordOf(s, item).active.value.expiresAt
    ensures var s := Replay(entries);
            var epoch := RecordOf(s, item).active.value.epoch;
            var ws := Windows(entries, item);
            && 1 <= epoch <= |ws|
            && ws[epoch - 1].epoch == epoch
            && ws[epoch - 1].start <= s.floor.value < ws[epoch - 1].end
  {
    RunAgrees(entries, item);
  }

  ghost predicate NotBefore(a: Option<Instant>, b: Option<Instant>) {
    a.Some? ==> b.Some? && a.value <= b.value
  }

  /** Neither the floor nor any epoch high-water mark ever falls. */
  lemma {:induction false} NothingFalls(entries: seq<Entry>, i: nat, item: ItemId)
    requires i <= |entries|
    ensures NotBefore(Replay(entries[..i]).floor, Replay(entries).floor)
    ensures RecordOf(Replay(entries[..i]), item).lastEpoch <= RecordOf(Replay(entries), item).lastEpoch
  {
    if i == |entries| {
      assert entries[..i] == entries;
    } else {
      var k := |entries| - 1;
      assert entries[..k][..i] == entries[..i];
      NothingFalls(entries[..k], i, item);
    }
  }

  /** An acquire whose witness is right and whose item is free is refused only
      when every epoch up to 2^64 - 1 has already been issued. */
  lemma AcquireExhaustsLast(entries: seq<Entry>, request: Request, now: Instant)
    requires request.Acquire?
    requires RecordOf(Replay(entries), request.item) == request.expected
    requires request.expected.active.Some? ==>
               request.expected.active.value.expiresAt <= Effective(Replay(entries).floor, now)
    ensures var verdict := Operate(Replay(entries), request, now).verdict;
            var issued := |Windows(entries, request.item)|;
            && (verdict.Acquired? <==> issued < MAX_EPOCH)
            && (verdict.EpochExhausted? <==> issued == MAX_EPOCH)
            && (verdict.Acquired? ==> verdict.lease.epoch == issued + 1)
  {
    RunAgrees(entries, request.item);
  }

  /** A released epoch cannot come back: after a release, no request carrying
      the old tuple succeeds until an acquire has issued a greater epoch. */
  lemma {:induction false} ReleasedStaysReleased(entries: seq<Entry>, i: nat, item: ItemId, gone: Lease)
    requires i < |entries|
    requires VerdictOn(Replay(entries[..i]), entries[i], item) == Released(gone)
    ensures var record := RecordOf(Replay(entries), item);
            record.lastEpoch >= gone.epoch && (record.active.Some? ==> record.active.value.epoch > gone.epoch)
    decreases |entries|
  {
    var k := |entries| - 1;
    RunAgrees(entries[..i], item);
    if i == k {
    } else {
      assert entries[..k][..i] == entries[..i];
      ReleasedStaysReleased(entries[..k], i, item, gone);
      RunAgrees(entries[..k], item);
    }
  }
}
