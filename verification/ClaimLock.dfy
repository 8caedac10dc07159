/** The namespace file lock of src/claim-store.js: any number of processes
    interleave the file operations of withClaimLock, and may die.

    A step is one file operation: reading an owner file together with probing
    its process, one `link`, or one `rm`. A dead process stays dead and its
    files stay behind. */
module ClaimLock {
  import opened Options

  type Process = nat

  /** Where a process is inside withClaimLock: what it does next. */
  datatype Pc =
    | Outside        // not running it
    | ReadMarker     // top of the acquisition loop: read the recovery file
    | RemoveMarker   // its owner was dead: remove the recovery file
    | LinkLock       // no recovery file: try to create the lock
    | LinkMarker     // the lock exists: try to create the recovery file
    | ReadLock       // holding the recovery file: read the lock
    | RemoveLock     // its owner was dead: remove the lock
    | DropMarker     // remove the recovery file, then loop
    | DropAndFail    // remove the recovery file, then fail
    | Critical       // inside the callback
    | ReadOwn        // leaving: is the lock still mine?
    | RemoveOwn      // it is: remove it

  datatype State = State(lock: Option<Process>, marker: Option<Process>, pcs: map<Process, Pc>, dead: set<Process>)

  datatype Event = Begin(p: Process) | Move(p: Process) | Die(p: Process)

  const START := State(None, None, map[], {})

  function PcOf(s: State, p: Process): Pc {
    if p in s.pcs then s.pcs[p] else Outside
  }

  function Goto(s: State, p: Process, pc: Pc): State {
    s.(pcs := s.pcs[p := pc])
  }

  /** The next file operation of a live process. */
  function MoveOf(s: State, p: Process): State {
    match PcOf(s, p)
    case Outside => s
    case ReadMarker =>
      if s.marker.None? then Goto(s, p, LinkLock)
      else if s.marker.value in s.dead then Goto(s, p, RemoveMarker)
      else Goto(s, p, Outside)
    case RemoveMarker => Goto(s, p, ReadMarker).(marker := None)
    case LinkLock =>
      if s.lock.None? then Goto(s, p, Critical).(lock := Some(p)) else Goto(s, p, LinkMarker)
    case LinkMarker =>
      if s.marker.None? then Goto(s, p, ReadLock).(marker := Some(p)) else Goto(s, p, ReadMarker)
    case ReadLock =>
      if s.lock.Some? && s.lock.value in s.dead then Goto(s, p, RemoveLock) else Goto(s, p, DropAndFail)
    case RemoveLock => Goto(s, p, DropMarker).(lock := None)
    case DropMarker => Goto(s, p, ReadMarker).(marker := None)
    case DropAndFail => Goto(s, p, Outside).(marker := None)
    case Critical => Goto(s, p, ReadOwn)
    case ReadOwn => if s.lock == Some(p) then Goto(s, p, RemoveOwn) else Goto(s, p, Outside)
    case RemoveOwn => Goto(s, p, Outside).(lock := None)
  }

  function Step(s: State, e: Event): State {
    if e.p in s.dead then s
    else
      match e
      case Begin(p) => if PcOf(s, p).Outside? then Goto(s, p, ReadMarker) else s
      case Move(p) => MoveOf(s, p)
      case Die(p) => s.(dead := s.dead + {p})
  }

  function Run(s: State, events: seq<Event>): State {
    if events == [] then s else Step(Run(s, events[..|events| - 1]), events[|events| - 1])
  }

  predicate Lives(s: State, p: Process) {
    p !in s.dead
  }

  /** Holding the recovery file. */
  predicate Recovering(pc: Pc) {
    pc.ReadLock? || pc.RemoveLock? || pc.DropMarker? || pc.DropAndFail?
  }

  /** Holding the lock: inside the callback or on the way out of it. */
  predicate Holding(pc: Pc) {
    pc.Critical? || pc.ReadOwn? || pc.RemoveOwn?
  }

  /** Deaths happen anywhere but while holding the recovery file. */
  ghost predicate NoDeathWhileRecovering(s: State, events: seq<Event>) {
    forall i: nat :: i < |events| && events[i].Die? ==> !Recovering(PcOf(Run(s, events[..i]), events[i].p))
  }

  // ----- mutual exclusion -----

  /** The recovery file belongs to its one, living, recoverer, and so nobody
      alive ever decides to remove it. */
  ghost predicate MarkerInv(s: State) {
    && (forall p: Process :: Lives(s, p) && Recovering(PcOf(s, p)) ==> s.marker == Some(p))
    && (s.marker.Some? ==> Lives(s, s.marker.value) && Recovering(PcOf(s, s.marker.value)))
    && (forall p: Process :: Lives(s, p) ==> !PcOf(s, p).RemoveMarker?)
  }

  /** The lock belongs to whoever is inside and to nobody else alive, and a lock
      judged stale still is its dead owner's. */
  ghost predicate LockInv(s: State) {
    && (forall p: Process :: Lives(s, p) && Holding(PcOf(s, p)) ==> s.lock == Some(p))
    && (s.lock.Some? && Lives(s, s.lock.value) ==> Holding(PcOf(s, s.lock.value)))
    && (forall p: Process :: Lives(s, p) && PcOf(s, p).RemoveLock? ==> s.lock.Some? && !Lives(s, s.lock.value))
  }

  ghost predicate Inv(s: State) {
    MarkerInv(s) && LockInv(s)
  }

  /** Every file operation of a live process, by what it finds. A read leads on and
      changes no file; a `link` creates its file for the process exactly when the
      file is not there; an `rm` leaves the file gone, whosever it was; and no
      other process is moved. */
  lemma MovesExactly(s: State, p: Process)
    ensures var t, at, next := MoveOf(s, p), PcOf(s, p), PcOf(MoveOf(s, p), p);
            && t.dead == s.dead && (forall q: Process :: q != p ==> PcOf(t, q) == PcOf(s, q))
            && t.lock == (if at == LinkLock && s.lock == None then Some(p)
                          else if at in {RemoveLock, RemoveOwn} then None else s.lock)
            && t.marker == (if at == LinkMarker && s.marker == None then Some(p)
                            else if at in {RemoveMarker, DropMarker, DropAndFail} then None else s.marker)
            && (next == Critical <==> at == LinkLock && s.lock == None)
            && (next == ReadLock <==> at == LinkMarker && s.marker == None)
            && (next == LinkLock <==> at == ReadMarker && s.marker == None)
            && (next == LinkMarker <==> at == LinkLock && s.lock != None)
            && (next == RemoveMarker <==> at == ReadMarker && s.marker.Some? && s.marker.value in s.dead)
            && (next == RemoveLock <==> at == ReadLock && s.lock.Some? && s.lock.value in s.dead)
            && (next == DropAndFail <==> at == ReadLock && !(s.lock.Some? && s.lock.value in s.dead))
            && (next == DropMarker <==> at == RemoveLock)
            && (next == ReadMarker <==> at in {RemoveMarker, DropMarker} || (at == LinkMarker && s.marker != None))
            && (next == ReadOwn <==> at == Critical)
            && (next == RemoveOwn <==> at == ReadOwn && s.lock == Some(p))
  {
  }

  lemma MoveKeepsMarker(s: State, p: Process)
    requires Inv(s) && p !in s.dead
    ensures MarkerInv(MoveOf(s, p))
  {
    var t := MoveOf(s, p);
    assert forall q: Process :: q != p ==> PcOf(t, q) == PcOf(s, q);
  }

  lemma MoveKeepsLock(s: State, p: Process)
    requires Inv(s) && p !in s.dead
    ensures LockInv(MoveOf(s, p))
  {
    var t := MoveOf(s, p);
    assert forall q: Process :: q != p ==> PcOf(t, q) == PcOf(s, q);
  }

  lemma StepKeepsInv(s: State, e: Event)
    requires Inv(s) && (e.Die? ==> !Recovering(PcOf(s, e.p)))
    ensures Inv(Step(s, e))
  {
    if e.Move? && e.p !in s.dead {
      MoveKeepsMarker(s, e.p);
      MoveKeepsLock(s, e.p);
    } else {
      var t := Step(s, e);
      assert forall q: Process :: q != e.p ==> PcOf(t, q) == PcOf(s, q);
    }
  }

  lemma {:induction false} RunKeepsInv(s: State, events: seq<Event>)
    requires Inv(s) && NoDeathWhileRecovering(s, events)
    ensures Inv(Run(s, events))
  {
    if events == [] {
    } else {
      var k := |events| - 1;
      forall i | 0 <= i < k && events[..k][i].Die?
        ensures !Recovering(PcOf(Run(s, events[..k][..i]), events[..k][i].p))
      {
        assert events[..k][..i] == events[..i];
      }
      RunKeepsInv(s, events[..k]);
      StepKeepsInv(Run(s, events[..k]), events[k]);
    }
  }

  lemma ReachableInv(events: seq<Event>)
    requires NoDeathWhileRecovering(START, events)
    ensures Inv(Run(START, events))
  {
    RunKeepsInv(START, events);
  }

  /** At most one living process is inside the callback, in every interleaving
      of any number of processes, deaths inside the callback included. */
  lemma MutualExclusion(events: seq<Event>, p: Process, q: Process)
    requires NoDeathWhileRecovering(START, events)
    requires var s := Run(START, events); p !in s.dead && q !in s.dead
    requires Holding(PcOf(Run(START, events), p)) && Holding(PcOf(Run(START, events), q))
    ensures p == q
  {
    ReachableInv(events);
  }

  /** A living process leaving the callback always finds its own lock, and its
      next two operations remove it. */
  lemma ReleaseRemovesOwn(events: seq<Event>, p: Process)
    requires NoDeathWhileRecovering(START, events)
    requires var s := Run(START, events); p !in s.dead && PcOf(s, p).ReadOwn?
    ensures var s := Run(START, events);
            var t := MoveOf(MoveOf(s, p), p);
            s.lock == Some(p) && t.lock == None && PcOf(t, p).Outside?
  {
    ReachableInv(events);
    LeavingRemovesLock(Run(START, events), p);
  }

  lemma LeavingRemovesLock(s: State, p: Process)
    requires PcOf(s, p).ReadOwn?
    ensures s.lock == Some(p) ==>
              var t := MoveOf(MoveOf(s, p), p);
              t.lock == None && PcOf(t, p).Outside?
  {
    assert s.lock == Some(p) ==> PcOf(MoveOf(s, p), p).RemoveOwn?;
  }

  lemma RunTwo(s: State, events: seq<Event>, a: Event, b: Event)
    ensures Run(s, events + [a, b]) == Step(Step(Run(s, events), a), b)
  {
    var all := events + [a, b];
    assert all[..|all| - 1] == events + [a];
    assert (events + [a])[..|events|] == events;
  }

  /** A lock is taken from its owner only when that owner is dead. */
  lemma NeverStolen(events: seq<Event>, e: Event, p: Process)
    requires NoDeathWhileRecovering(START, events)
    requires var s := Run(START, events);
             s.lock == Some(p) && p !in s.dead && Step(s, e).lock != Some(p)
    ensures e == Move(p) && PcOf(Run(START, events), p).RemoveOwn?
  {
    ReachableInv(events);
  }

  // ----- recovery of a stale lock -----

  lemma {:induction false} RunConcat(s: State, a: seq<Event>, b: seq<Event>)
    ensures Run(s, a + b) == Run(Run(s, a), b)
  {
    if b == [] {
      assert a + b == a;
    } else {
      var k := |b| - 1;
      assert (a + b)[..|a + b| - 1] == a + b[..k];
      RunConcat(s, a, b[..k]);
    }
  }

  lemma RunOne(s: State, a: Event)
    ensures Run(s, [a]) == Step(s, a)
  {
    assert [a][..0] == [];
  }

  lemma RunFour(s: State, a: Event, b: Event, c: Event, d: Event)
    ensures Run(s, [a, b, c, d]) == Step(Step(Step(Step(s, a), b), c), d)
  {
    RunOne(s, a);
    RunTwo(s, [a], b, c);
    assert [a] + [b, c] == [a, b, c];
    assert [a, b, c, d][..3] == [a, b, c];
  }

  lemma RunFive(s: State, a: Event, b: Event, c: Event, d: Event, e: Event)
    ensures Run(s, [a, b, c, d, e]) == Step(Step(Step(Step(Step(s, a), b), c), d), e)
  {
    RunFour(s, a, b, c, d);
    assert [a, b, c, d, e][..4] == [a, b, c, d];
  }

  function Four(p: Process): seq<Event> {
    [Move(p), Move(p), Move(p), Move(p)]
  }

  /** With no recovery in progress, a process running alone gets past a dead
      owner's lock: eight operations later it is inside, holding the lock. */
  lemma StaleLockIsRecovered(s: State, p: Process)
    requires s.marker.None? && s.lock.Some? && s.lock.value in s.dead
    requires p !in s.dead && PcOf(s, p).ReadMarker?
    ensures var t := Run(s, Four(p) + Four(p));
            PcOf(t, p).Critical? && t.lock == Some(p) && t.marker.None?
  {
    RunConcat(s, Four(p), Four(p));
    RunFour(s, Move(p), Move(p), Move(p), Move(p));
    var t := Run(s, Four(p));
    assert PcOf(t, p).RemoveLock? && t.marker == Some(p) && t.lock == s.lock && t.dead == s.dead;
    RunFour(t, Move(p), Move(p), Move(p), Move(p));
  }

  /** A living owner's lock is never removed: the contender fails instead. */
  lemma LiveLockRefuses(s: State, p: Process)
    requires s.marker.None? && s.lock.Some? && s.lock.value !in s.dead
    requires p !in s.dead && PcOf(s, p).ReadMarker?
    ensures var t := Run(s, Four(p) + [Move(p)]);
            PcOf(t, p).Outside? && t.lock == s.lock && t.marker.None?
  {
    RunFive(s, Move(p), Move(p), Move(p), Move(p), Move(p));
    assert Four(p) + [Move(p)] == [Move(p), Move(p), Move(p), Move(p), Move(p)];
  }

  // ----- a death while recovering -----

  ghost predicate TwoInside(s: State) {
    exists p: Process, q: Process :: p != q && Lives(s, p) && Lives(s, q) && Holding(PcOf(s, p)) && Holding(PcOf(s, q))
  }

  /** Whatever happens next, short of a death while recovering, at most one
      living process is inside. */
  ghost predicate ExclusiveFrom(s: State) {
    forall more :: NoDeathWhileRecovering(s, more) ==> !TwoInside(Run(s, more))
  }

  lemma InvIsExclusive(s: State)
    requires Inv(s)
    ensures ExclusiveFrom(s)
  {
    forall more | NoDeathWhileRecovering(s, more) ensures !TwoInside(Run(s, more)) {
      RunKeepsInv(s, more);
    }
  }

  lemma NoDeathConcat(s: State, a: seq<Event>, b: seq<Event>)
    requires NoDeathWhileRecovering(s, a) && NoDeathWhileRecovering(Run(s, a), b)
    ensures NoDeathWhileRecovering(s, a + b)
  {
    var all := a + b;
    forall i: nat | i < |all| && all[i].Die? ensures !Recovering(PcOf(Run(s, all[..i]), all[i].p)) {
      if i < |a| {
        assert all[..i] == a[..i];
      } else {
        assert all[..i] == a + b[..i - |a|];
        RunConcat(s, a, b[..i - |a|]);
      }
    }
  }

  lemma NobodyDies(s: State, events: seq<Event>)
    requires forall e :: e in events ==> !e.Die?
    ensures NoDeathWhileRecovering(s, events)
  {
  }

  /** Every process but `p` is where it was, and nobody died. */
  ghost predicate OthersStay(s: State, t: State, p: Process) {
    t.dead == s.dead && forall q: Process :: q != p ==> PcOf(t, q) == PcOf(s, q)
  }

  function Five(p: Process): seq<Event> {
    [Move(p), Move(p), Move(p), Move(p), Move(p)]
  }

  /** A process that decided to remove the recovery file removes whichever is
      there, takes its place and judges the dead owner's lock. */
  lemma RemovesAndJudges(s: State, p: Process)
    requires Lives(s, p) && PcOf(s, p).RemoveMarker? && s.lock.Some? && !Lives(s, s.lock.value)
    ensures var t := Run(s, Five(p));
            PcOf(t, p).RemoveLock? && t.lock == s.lock && OthersStay(s, t, p)
  {
    RunFive(s, Move(p), Move(p), Move(p), Move(p), Move(p));
  }

  /** A process that judged a lock dead removes whichever is there and enters. */
  lemma RemovesAndEnters(s: State, p: Process)
    requires Lives(s, p) && PcOf(s, p).RemoveLock?
    ensures var t := Run(s, Four(p));
            PcOf(t, p).Critical? && t.lock == Some(p) && OthersStay(s, t, p)
  {
    RunFour(s, Move(p), Move(p), Move(p), Move(p));
  }

  /** Two living processes that both found the recovery file dead: `a` removes
      it, recovers and judges the lock stale; then `b` removes `a`'s own recovery
      file, recovers the same lock and enters; then `a` removes the lock of `b`
      and enters too. */
  lemma BothEnter(s: State, a: Process, b: Process)
    requires a != b && Lives(s, a) && Lives(s, b) && PcOf(s, a).RemoveMarker? && PcOf(s, b).RemoveMarker?
    requires s.lock.Some? && !Lives(s, s.lock.value)
    ensures TwoInside(Run(Run(Run(Run(s, Five(a)), Five(b)), Four(b)), Four(a)))
  {
    var t := Run(s, Five(a));
    RemovesAndJudges(s, a);
    var u := Run(t, Five(b));
    RemovesAndJudges(t, b);
    var v := Run(u, Four(b));
    RemovesAndEnters(u, b);
    RemovesAndEnters(v, a);
    var end := Run(v, Four(a));
    assert Lives(end, a) && PcOf(end, a).Critical?;
    assert Lives(end, b) && PcOf(end, b).Critical?;
  }

  /** Four stretches of a run, none with a death while recovering. */
  lemma RunStretches(s: State, a: seq<Event>, b: seq<Event>, c: seq<Event>, d: seq<Event>)
    requires NoDeathWhileRecovering(s, a) && NoDeathWhileRecovering(Run(s, a), b)
    requires NoDeathWhileRecovering(Run(Run(s, a), b), c) && NoDeathWhileRecovering(Run(Run(Run(s, a), b), c), d)
    ensures Run(s, a + b + c + d) == Run(Run(Run(Run(s, a), b), c), d)
    ensures NoDeathWhileRecovering(s, a + b + c + d)
  {
    RunConcat(s, a, b);
    RunConcat(s, a + b, c);
    RunConcat(s, a + b + c, d);
    NoDeathConcat(s, a, b);
    NoDeathConcat(s, a + b, c);
    NoDeathConcat(s, a + b + c, d);
  }

  function Race(a: Process, b: Process): seq<Event> {
    Five(a) + Five(b) + Four(b) + Four(a)
  }

  lemma RaceBreaksIn(s: State, a: Process, b: Process)
    requires a != b && Lives(s, a) && Lives(s, b) && PcOf(s, a).RemoveMarker? && PcOf(s, b).RemoveMarker?
    requires s.lock.Some? && !Lives(s, s.lock.value)
    ensures TwoInside(Run(s, Race(a, b))) && NoDeathWhileRecovering(s, Race(a, b))
  {
    BothEnter(s, a, b);
    NobodyDies(s, Five(a));
    NobodyDies(Run(s, Five(a)), Five(b));
    NobodyDies(Run(Run(s, Five(a)), Five(b)), Four(b));
    NobodyDies(Run(Run(Run(s, Five(a)), Five(b)), Four(b)), Four(a));
    RunStretches(s, Five(a), Five(b), Four(b), Four(a));
  }

  lemma {:induction false} Bound(used: set<Process>) returns (n: Process)
    ensures forall p :: p in used ==> p < n
  {
    if used == {} {
      n := 0;
    } else {
      var p :| p in used;
      var m := Bound(used - {p});
      n := if p < m then m else p + 1;
      assert forall q :: q in used ==> q == p || q in used - {p};
    }
  }

  /** A process that is not running it and holds nothing. */
  ghost predicate Idle(s: State, p: Process) {
    PcOf(s, p).Outside? && Lives(s, p) && s.lock != Some(p)
  }

  lemma ThreeIdle(s: State) returns (a: Process, b: Process, c: Process)
    ensures Idle(s, a) && Idle(s, b) && Idle(s, c) && a != b && b != c && a != c
  {
    var n := Bound(s.pcs.Keys + s.dead + (if s.lock.Some? then {s.lock.value} else {}));
    a, b, c := n, n + 1, n + 2;
    assert n !in s.pcs.Keys && n + 1 !in s.pcs.Keys && n + 2 !in s.pcs.Keys;
  }

  function Looks(p: Process): seq<Event> {
    [Begin(p), Move(p)]
  }

  lemma LookSeesItDead(s: State, p: Process)
    requires s.marker.Some? && !Lives(s, s.marker.value) && Idle(s, p)
    ensures var t := Run(s, Looks(p));
            PcOf(t, p).RemoveMarker? && t.lock == s.lock && t.marker == s.marker && OthersStay(s, t, p)
  {
    RunTwo(s, [], Begin(p), Move(p));
    assert [] + [Begin(p), Move(p)] == Looks(p);
  }

  /** Make the lock a dead process's: kill its owner, or let one enter and die. */
  function Orphan(s: State, c: Process): seq<Event> {
    if s.lock.None? then Looks(c) + (Four(c) + [Die(c)])
    else if Lives(s, s.lock.value) then [Die(s.lock.value)]
    else []
  }

  lemma LookerEnters(s: State, p: Process)
    requires s.lock.None? && Lives(s, p) && PcOf(s, p).RemoveMarker?
    ensures var t := Run(s, Four(p)); Holding(PcOf(t, p)) && t.lock == Some(p) && OthersStay(s, t, p)
  {
    RunFour(s, Move(p), Move(p), Move(p), Move(p));
  }

  lemma OrphanByEntering(s: State, c: Process)
    requires s.marker.Some? && !Lives(s, s.marker.value) && s.lock.None? && Idle(s, c)
    ensures var t := Run(s, Orphan(s, c));
            && t.lock == Some(c) && t.dead == s.dead + {c} && forall q: Process :: q != c ==> PcOf(t, q) == PcOf(s, q)
    ensures NoDeathWhileRecovering(s, Orphan(s, c))
  {
    var t := Run(s, Looks(c));
    var u := Run(t, Four(c));
    LookSeesItDead(s, c);
    LookerEnters(t, c);
    RunOne(u, Die(c));
    NobodyDies(s, Looks(c));
    NobodyDies(t, Four(c));
    RunConcat(t, Four(c), [Die(c)]);
    RunConcat(s, Looks(c), Four(c) + [Die(c)]);
    assert [Die(c)][..0] == [];
    NoDeathConcat(t, Four(c), [Die(c)]);
    NoDeathConcat(s, Looks(c), Four(c) + [Die(c)]);
  }

  /** The lock ends up a dead process's, and everyone but its last owner stays. */
  lemma OrphanWorks(s: State, c: Process)
    requires s.marker.Some? && !Lives(s, s.marker.value) && Idle(s, c)
    requires s.lock.Some? && Lives(s, s.lock.value) ==> Holding(PcOf(s, s.lock.value))
    ensures var t := Run(s, Orphan(s, c));
            && t.lock.Some? && !Lives(t, t.lock.value) && t.dead <= s.dead + {t.lock.value}
            && (s.lock.Some? ==> t.lock == s.lock) && (s.lock.None? ==> t.lock == Some(c))
            && forall q: Process :: q != t.lock.value ==> PcOf(t, q) == PcOf(s, q)
    ensures NoDeathWhileRecovering(s, Orphan(s, c))
  {
    if s.lock.None? {
      OrphanByEntering(s, c);
    } else if Lives(s, s.lock.value) {
      RunOne(s, Die(s.lock.value));
      assert [Die(s.lock.value)][..0] == [];
    }
  }

  /** Two more find the recovery file dead, and the lock is orphaned. */
  lemma SetUpRace(s: State, a: Process, b: Process, c: Process)
    requires s.marker.Some? && !Lives(s, s.marker.value)
    requires s.lock.Some? && Lives(s, s.lock.value) ==> Holding(PcOf(s, s.lock.value))
    requires Idle(s, a) && Idle(s, b) && Idle(s, c) && a != b && b != c && a != c
    ensures var u := Run(Run(s, Looks(a)), Looks(b));
            var v := Run(u, Orphan(u, c));
            && PcOf(v, a).RemoveMarker? && PcOf(v, b).RemoveMarker? && Lives(v, a) && Lives(v, b)
            && v.lock.Some? && !Lives(v, v.lock.value)
            && NoDeathWhileRecovering(u, Orphan(u, c))
  {
    LookSeesItDead(s, a);
    LookSeesItDead(Run(s, Looks(a)), b);
    OrphanWorks(Run(Run(s, Looks(a)), Looks(b)), c);
  }

  /** With a dead process's recovery file in place, exclusion can be violated,
      and without another death while recovering. */
  lemma DeadMarkerIsFatal(s: State)
    requires s.marker.Some? && !Lives(s, s.marker.value)
    requires s.lock.Some? && Lives(s, s.lock.value) ==> Holding(PcOf(s, s.lock.value))
    ensures !ExclusiveFrom(s)
  {
    var a, b, c := ThreeIdle(s);
    SetUpRace(s, a, b, c);
    var u := Run(Run(s, Looks(a)), Looks(b));
    RaceBreaksIn(Run(u, Orphan(u, c)), a, b);
    NobodyDies(s, Looks(a));
    NobodyDies(Run(s, Looks(a)), Looks(b));
    RunStretches(s, Looks(a), Looks(b), Orphan(u, c), Race(a, b));
  }

  lemma RunSnoc(s: State, events: seq<Event>, e: Event)
    ensures Run(s, events + [e]) == Step(Run(s, events), e)
  {
    assert (events + [e])[..|events|] == events;
  }

  /** Exclusion does need its assumption, at every state it can be broken in: in
      a run without a death while recovering, whatever happens next leaves at
      most one living process inside for good, unless it is such a death; and
      after any such death two living processes can end up inside at once. */
  lemma DeathWhileRecoveringBreaksExclusion(events: seq<Event>, e: Event)
    requires NoDeathWhileRecovering(START, events)
    ensures var s := Run(START, events);
            ExclusiveFrom(Run(START, events + [e])) <==> !(e.Die? && Lives(s, e.p) && Recovering(PcOf(s, e.p)))
  {
    var s := Run(START, events);
    ReachableInv(events);
    RunSnoc(START, events, e);
    if e.Die? && Lives(s, e.p) && Recovering(PcOf(s, e.p)) {
      DeadMarkerIsFatal(Step(s, e));
    } else {
      StepIsSafe(s, e);
      InvIsExclusive(Step(s, e));
    }
  }

  lemma StepIsSafe(s: State, e: Event)
    requires Inv(s) && !(e.Die? && Lives(s, e.p) && Recovering(PcOf(s, e.p)))
    ensures Inv(Step(s, e))
  {
    if Lives(s, e.p) {
      StepKeepsInv(s, e);
    }
  }

  /** The danger passes when one process finds the dead recovery file and removes
      it before any other looks. */
  lemma LoneRemovalRestoresExclusion(events: seq<Event>, p: Process, q: Process)
    requires NoDeathWhileRecovering(START, events) && p != q
    requires var s := Run(START, events);
             Lives(s, p) && Recovering(PcOf(s, p)) && Lives(s, q) && PcOf(s, q).Outside?
    ensures ExclusiveFrom(Run(START, events + [Die(p)] + [Begin(q), Move(q)] + [Move(q)]))
  {
    var s := Run(START, events);
    ReachableInv(events);
    RunSnoc(START, events, Die(p));
    RunTwo(START, events + [Die(p)], Begin(q), Move(q));
    RunSnoc(START, events + [Die(p)] + [Begin(q), Move(q)], Move(q));
    RemovalRestoresInv(s, p, q);
    InvIsExclusive(Step(Step(Step(Step(s, Die(p)), Begin(q)), Move(q)), Move(q)));
  }

  lemma RemovalRestoresInv(s: State, p: Process, q: Process)
    requires Inv(s) && p != q
    requires Lives(s, p) && Recovering(PcOf(s, p)) && Lives(s, q) && PcOf(s, q).Outside?
    ensures Inv(Step(Step(Step(Step(s, Die(p)), Begin(q)), Move(q)), Move(q)))
  {
    var t := Step(Step(Step(s, Die(p)), Begin(q)), Move(q));
    assert PcOf(t, q).RemoveMarker? && t.marker == Some(p) && t.lock == s.lock && t.dead == s.dead + {p};
    assert forall r: Process :: r != q ==> PcOf(t, r) == PcOf(s, r);
    var u := Step(t, Move(q));
    assert forall r: Process :: r != q ==> PcOf(u, r) == PcOf(s, r);
  }
}
