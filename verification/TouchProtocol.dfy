/** Any number of writers and readers sharing the ring file, step by step. */
module TouchProtocol {
  import opened Common
  import opened Touches

  /** Seconds after which a lock counts as left over, and how often a writer tries to take it. */
  const STALE_AFTER: nat := 10
  const LOCK_ATTEMPTS: nat := 200

  /** What a file holds. A file being written is `Partial`. */
  datatype Content = Partial | Whole(ring: Ring)

  datatype Lock = Lock(owner: nat, born: nat)

  datatype Pc =
    | Idle
    | Trying(entry: Touch, tries: nat)
    | Breaking(entry: Touch, tries: nat)      // judged the lock stale, about to remove it
    | Holding(entry: Touch)
    | HasRead(entry: Touch, ring: Ring)
    | Writing(entry: Touch, ring: Ring)       // temporary file open
    | Written(entry: Touch, ring: Ring)       // temporary file complete
    | Published(entry: Touch)                 // renamed over the ring
    | Aborting                                // an operation failed, the lock is still to be dropped
    | Crashed

  /** `tmps` is keyed by process id; `seen` is what each reader got; `log` records the entries
      published so far, in order. */
  datatype System = System(
    now: nat,
    file: Content,
    lock: Option<Lock>,
    tmps: map<nat, Content>,
    pcs: map<nat, Pc>,
    seen: map<nat, Content>,
    log: Ring)
  {
    function At(w: nat): Pc {
      if w in pcs then pcs[w] else Idle
    }

    function Move(w: nat, pc: Pc): System {
      this.(pcs := pcs[w := pc])
    }
  }

  datatype Step =
    | Begin(w: nat, entry: Touch)
    | Acquire(w: nat)
    | Spin(w: nat)
    | Judge(w: nat)
    | Break(w: nat)
    | GiveUp(w: nat)
    | Refuse(w: nat)                          // the lock cannot be created for another reason
    | Read(w: nat)
    | OpenTmp(w: nat)
    | FillTmp(w: nat)
    | Rename(w: nat)
    | Fail(w: nat)
    | Release(w: nat)
    | Crash(w: nat)
    | Tick
    | Look(reader: nat)

  const INITIAL: System := System(0, Whole([]), None, map[], map[], map[], [])

  predicate Stale(s: System) {
    s.lock.Some? && s.now > s.lock.value.born + STALE_AFTER
  }

  /** Can the step be taken? `pid` gives the process a writer runs in; several may share one. */
  predicate Enabled(pid: nat -> nat, s: System, step: Step) {
    match step
    case Begin(w, _) => s.At(w).Idle?
    case Acquire(w) => s.At(w).Trying? && s.At(w).tries < LOCK_ATTEMPTS && s.lock.None?
    case Spin(w) => s.At(w).Trying? && s.At(w).tries < LOCK_ATTEMPTS && s.lock.Some? && !Stale(s)
    case Judge(w) => s.At(w).Trying? && s.At(w).tries < LOCK_ATTEMPTS && Stale(s)
    case Break(w) => s.At(w).Breaking?
    case GiveUp(w) => s.At(w).Trying? && s.At(w).tries >= LOCK_ATTEMPTS
    case Refuse(w) => s.At(w).Trying? && s.At(w).tries < LOCK_ATTEMPTS
    case Read(w) => s.At(w).Holding? && s.file.Whole?
    case OpenTmp(w) => s.At(w).HasRead?
    case FillTmp(w) => s.At(w).Writing?
    case Rename(w) => s.At(w).Written? && pid(w) in s.tmps
    case Fail(w) => s.At(w).Holding? || s.At(w).HasRead? || s.At(w).Writing? || s.At(w).Written?
    case Release(w) => s.At(w).Published? || s.At(w).Aborting?
    case Crash(w) => !s.At(w).Crashed?
    case Tick => true
    case Look(_) => true
  }

  function Next(pid: nat -> nat, s: System, step: Step): System
    requires Enabled(pid, s, step)
  {
    match step
    case Begin(w, e) => s.Move(w, Trying(e, 0))
    case Acquire(w) => s.Move(w, Holding(s.At(w).entry)).(lock := Some(Lock(w, s.now)))
    case Spin(w) => s.Move(w, Trying(s.At(w).entry, s.At(w).tries + 1))
    case Judge(w) => s.Move(w, Breaking(s.At(w).entry, s.At(w).tries))
    case Break(w) => s.Move(w, Trying(s.At(w).entry, s.At(w).tries + 1)).(lock := None)
    case GiveUp(w) => s.Move(w, Idle)
    case Refuse(w) => s.Move(w, Idle)
    case Read(w) => s.Move(w, HasRead(s.At(w).entry, s.file.ring))
    case OpenTmp(w) =>
      s.Move(w, Writing(s.At(w).entry, Trim(s.At(w).ring + [s.At(w).entry]))).(tmps := s.tmps[pid(w) := Partial])
    case FillTmp(w) => s.Move(w, Written(s.At(w).entry, s.At(w).ring)).(tmps := s.tmps[pid(w) := Whole(s.At(w).ring)])
    case Rename(w) =>
      s.Move(w, Published(s.At(w).entry)).(
        file := s.tmps[pid(w)], tmps := s.tmps - {pid(w)}, log := s.log + [s.At(w).entry])
    case Fail(w) => s.Move(w, Aborting)
    case Release(w) => s.Move(w, Idle).(lock := None)
    case Crash(w) => s.Move(w, Crashed)
    case Tick => s.(now := s.now + 1)
    case Look(r) => s.(seen := s.seen[r := s.file])
  }

  /** The system after a list of steps; every step must be enabled where it is taken. */
  ghost predicate Runs(pid: nat -> nat, steps: seq<Step>)
    decreases |steps|, 0
  {
    steps == [] || (var k := |steps| - 1; Runs(pid, steps[..k]) && Enabled(pid, After(pid, steps[..k]), steps[k]))
  }

  ghost function After(pid: nat -> nat, steps: seq<Step>): System
    requires Runs(pid, steps)
    decreases |steps|, 1
  {
    if steps == [] then INITIAL else Next(pid, After(pid, steps[..|steps| - 1]), steps[|steps| - 1])
  }

  /** The assumption on the run: at no time is there a lock older than `STALE_AFTER`. */
  ghost predicate NoLockOutlives(pid: nat -> nat, steps: seq<Step>)
    requires Runs(pid, steps)
    decreases |steps|
  {
    && !Stale(After(pid, steps))
    && (steps != [] ==> NoLockOutlives(pid, steps[..|steps| - 1]))
  }

  // ---- What every step keeps ----

  /** Between creating the lock and removing it. */
  predicate Critical(pc: Pc) {
    pc.Holding? || pc.HasRead? || pc.Writing? || pc.Written? || pc.Published? || pc.Aborting?
  }

  ghost predicate Exclusive(s: System) {
    && (forall w :: Critical(s.At(w)) ==> s.lock.Some? && s.lock.value.owner == w)
    && (forall w :: !s.At(w).Breaking?)
  }

  /** What a writer carries is the ring as it stands, with its own entry pushed and trimmed. */
  ghost predicate Faithful(pid: nat -> nat, s: System) {
    forall w :: FaithfulAt(pid, s, w)
  }

  /** The ring file is the recorded log; each reader got the ring as it stood at some time. */
  ghost predicate Consistent(s: System) {
    && s.file == Whole(Recorded(s.log))
    && (forall r :: r in s.seen ==> SeenAt(s, r))
  }

  ghost predicate SeenAt(s: System, r: nat)
    requires r in s.seen
  {
    exists n :: 0 <= n <= |s.log| && s.seen[r] == Whole(Recorded(s.log[..n]))
  }

  ghost predicate Inv(pid: nat -> nat, s: System) {
    Exclusive(s) && Faithful(pid, s) && Consistent(s)
  }

  /** The writer that takes the step, if one does. */
  function Mover(step: Step): Option<nat> {
    match step
    case Tick => None
    case Look(_) => None
    case _ => Some(step.w)
  }

  lemma OthersStay(pid: nat -> nat, s: System, step: Step, w: nat)
    requires Enabled(pid, s, step) && Mover(step) != Some(w)
    ensures Next(pid, s, step).At(w) == s.At(w)
  {
  }

  lemma NextExclusive(pid: nat -> nat, s: System, step: Step)
    requires Exclusive(s) && !Stale(s) && Enabled(pid, s, step)
    ensures Exclusive(Next(pid, s, step))
  {
    var r := Next(pid, s, step);
    forall w: nat
      ensures Critical(r.At(w)) ==> r.lock.Some? && r.lock.value.owner == w
      ensures !r.At(w).Breaking?
    {
      assert !s.At(w).Breaking?;
      if Mover(step) != Some(w) {
        OthersStay(pid, s, step, w);
        assert Critical(s.At(w)) ==> s.lock.Some? && s.lock.value.owner == w;
        if step.Release? {
          assert Critical(s.At(step.w));
        }
      }
    }
  }

  /** The guarantees of `Faithful` for one writer. */
  ghost predicate FaithfulAt(pid: nat -> nat, s: System, w: nat) {
    && (s.At(w).HasRead? ==> s.At(w).ring == Recorded(s.log))
    && (s.At(w).Writing? || s.At(w).Written? ==> s.At(w).ring == Trim(Recorded(s.log) + [s.At(w).entry]))
    && (s.At(w).Written? ==> pid(w) in s.tmps && s.tmps[pid(w)] == Whole(s.At(w).ring))
    && (s.At(w).Published? ==> s.log != [] && s.log[|s.log| - 1] == s.At(w).entry)
  }

  lemma NextFaithful(pid: nat -> nat, s: System, step: Step)
    requires Inv(pid, s) && !Stale(s) && Enabled(pid, s, step)
    ensures Faithful(pid, Next(pid, s, step))
  {
    var r := Next(pid, s, step);
    forall w: nat
      ensures FaithfulAt(pid, r, w)
    {
      assert FaithfulAt(pid, s, w);
      if Mover(step) != Some(w) {
        OthersStay(pid, s, step, w);
        if step.Rename? || step.OpenTmp? || step.FillTmp? {
          // whoever else is past creating the lock would have to own it too
          assert Critical(s.At(step.w));
          assert !Critical(s.At(w));
        }
      }
    }
  }

  lemma {:induction false} NextConsistent(pid: nat -> nat, s: System, step: Step)
    requires Inv(pid, s) && Enabled(pid, s, step)
    ensures Consistent(Next(pid, s, step))
  {
    var r := Next(pid, s, step);
    assert s.log[..|s.log|] == s.log;
    if step.Rename? {
      assert FaithfulAt(pid, s, step.w);
      assert r.log[..|s.log|] == s.log;
      forall x | x in r.seen
        ensures SeenAt(r, x)
      {
        assert SeenAt(s, x);
        var n :| 0 <= n <= |s.log| && s.seen[x] == Whole(Recorded(s.log[..n]));
        assert r.log[..n] == s.log[..n];
      }
    } else {
      forall x | x in r.seen
        ensures SeenAt(r, x)
      {
        if step.Look? && x == step.reader {
          assert r.seen[x] == Whole(Recorded(r.log[..|r.log|]));
        } else {
          assert SeenAt(s, x);
        }
      }
    }
  }

  lemma {:induction false} RunsKeepInv(pid: nat -> nat, steps: seq<Step>)
    requires Runs(pid, steps) && NoLockOutlives(pid, steps)
    ensures Inv(pid, After(pid, steps))
    decreases |steps|
  {
    if steps != [] {
      var k := |steps| - 1;
      RunsKeepInv(pid, steps[..k]);
      var s := After(pid, steps[..k]);
      NextExclusive(pid, s, steps[k]);
      NextFaithful(pid, s, steps[k]);
      NextConsistent(pid, s, steps[k]);
    }
  }

  // ---- The promises ----

  /** The entries whose rename was carried out, in the order of the renames. */
  ghost function Renamed(pid: nat -> nat, steps: seq<Step>): Ring
    requires Runs(pid, steps)
    decreases |steps|
  {
    if steps == [] then []
    else
      var k := |steps| - 1;
      var s := After(pid, steps[..k]);
      Renamed(pid, steps[..k]) + (if steps[k].Rename? then [s.At(steps[k].w).entry] else [])
  }

  /** The ring is what pushing and trimming the renamed entries one after the other gives: no
      entry is lost to a concurrent write. Readers have seen whole rings only, each the ring at
      some point of that sequence. */
  lemma {:induction false} RingIsSequential(pid: nat -> nat, steps: seq<Step>)
    requires Runs(pid, steps) && NoLockOutlives(pid, steps)
    ensures var s := After(pid, steps);
            && s.file == Whole(Recorded(Renamed(pid, steps)))
            && forall r :: r in s.seen ==>
                 exists n :: 0 <= n <= |Renamed(pid, steps)| && s.seen[r] == Whole(Recorded(Renamed(pid, steps)[..n]))
  {
    RunsKeepInv(pid, steps);
    LogIsRenamed(pid, steps);
    var s := After(pid, steps);
    forall r | r in s.seen
      ensures exists n :: 0 <= n <= |Renamed(pid, steps)| && s.seen[r] == Whole(Recorded(Renamed(pid, steps)[..n]))
    {
      assert SeenAt(s, r);
    }
  }

  lemma StepLogs(pid: nat -> nat, s: System, step: Step)
    requires Enabled(pid, s, step)
    ensures Next(pid, s, step).log == s.log + if step.Rename? then [s.At(step.w).entry] else []
  {
  }

  lemma {:induction false} LogIsRenamed(pid: nat -> nat, steps: seq<Step>)
    requires Runs(pid, steps)
    ensures After(pid, steps).log == Renamed(pid, steps)
    decreases |steps|
  {
    if steps != [] {
      var k := |steps| - 1;
      LogIsRenamed(pid, steps[..k]);
      StepLogs(pid, After(pid, steps[..k]), steps[k]);
    }
  }

  /** Whatever happens at a step, a crash included, leaves the old ring, or the ring with one more
      entry pushed and trimmed, that entry being the newest. */
  lemma {:induction false} OldOrNewRing(pid: nat -> nat, steps: seq<Step>)
    requires steps != [] && Runs(pid, steps) && NoLockOutlives(pid, steps)
    ensures var before, after := After(pid, steps[..|steps| - 1]), After(pid, steps);
            || after.file == before.file
            || (&& before.file.Whole? && after.file.Whole?
                && steps[|steps| - 1].Rename?
                && var e := before.At(steps[|steps| - 1].w).entry;
                && after.file.ring == Trim(before.file.ring + [e])
                && after.file.ring != [] && after.file.ring[|after.file.ring| - 1] == e)
  {
    var k := |steps| - 1;
    RunsKeepInv(pid, steps[..k]);
    var before := After(pid, steps[..k]);
    if steps[k].Rename? {
      assert FaithfulAt(pid, before, steps[k].w);
      TrimIsSubsequence(before.file.ring + [before.At(steps[k].w).entry]);
    }
  }

  // ---- The lock is held from its creation to its removal, and no longer ----

  /** The writer of step `i` created the lock there and has not removed it since. */
  ghost predicate Unreleased(steps: seq<Step>, i: nat) {
    i < |steps| && steps[i].Acquire? && forall j :: i < j < |steps| ==> steps[j] != Release(steps[i].w)
  }

  /** What a step does to the lock: it comes with `Acquire`, and goes with its owner's `Release`. */
  ghost predicate LockMoves(before: Option<Lock>, step: Step, after: Option<Lock>) {
    match step
    case Acquire(w) => before.None? && after.Some? && after.value.owner == w
    case Release(w) => before.Some? && before.value.owner == w && after.None?
    case _ => after == before
  }

  lemma LockStep(pid: nat -> nat, s: System, step: Step)
    requires Exclusive(s) && Enabled(pid, s, step)
    ensures LockMoves(s.lock, step, Next(pid, s, step).lock)
  {
    assert step.Release? ==> Critical(s.At(step.w));
    assert !step.Break?;
  }

  /** The lock is there exactly while some writer that took it has not given it back. */
  ghost predicate LockIs(steps: seq<Step>, lock: Option<Lock>) {
    && (forall i: nat :: Unreleased(steps, i) ==> lock.Some? && lock.value.owner == steps[i].w)
    && (lock.Some? ==> exists i: nat :: Unreleased(steps, i) && lock.value.owner == steps[i].w)
  }

  lemma LockIsNext(steps: seq<Step>, step: Step, before: Option<Lock>, after: Option<Lock>)
    requires LockIs(steps, before) && LockMoves(before, step, after)
    ensures LockIs(steps + [step], after)
  {
    var all := steps + [step];
    forall i: nat | Unreleased(all, i)
      ensures after.Some? && after.value.owner == all[i].w
    {
      assert forall j :: 0 <= j < |steps| ==> all[j] == steps[j];
      assert i < |steps| ==> Unreleased(steps, i) && all[|steps|] != Release(all[i].w);
    }
    if after.Some? {
      if step.Acquire? {
        assert Unreleased(all, |steps|);
      } else {
        var i: nat :| Unreleased(steps, i) && before.value.owner == steps[i].w;
        assert Unreleased(all, i);
      }
    }
  }

  /** There is a lock exactly while some writer that took it has not given it back. */
  lemma {:induction false} LockExactly(pid: nat -> nat, steps: seq<Step>)
    requires Runs(pid, steps) && NoLockOutlives(pid, steps)
    ensures var lock := After(pid, steps).lock;
            && (forall i: nat :: Unreleased(steps, i) ==> lock.Some? && lock.value.owner == steps[i].w)
            && (lock.Some? ==> exists i: nat :: Unreleased(steps, i) && lock.value.owner == steps[i].w)
  {
    HoldsLock(pid, steps);
  }

  lemma {:induction false} HoldsLock(pid: nat -> nat, steps: seq<Step>)
    requires Runs(pid, steps) && NoLockOutlives(pid, steps)
    ensures LockIs(steps, After(pid, steps).lock)
    decreases |steps|
  {
    if steps != [] {
      var k := |steps| - 1;
      var front := steps[..k];
      HoldsLock(pid, front);
      RunsKeepInv(pid, front);
      LockStep(pid, After(pid, front), steps[k]);
      LockIsNext(front, steps[k], After(pid, front).lock, After(pid, steps).lock);
      assert front + [steps[k]] == steps;
    }
  }

  /** `w` took the lock at step `i`, and has neither given it back nor crashed since. */
  ghost predicate InsideSince(steps: seq<Step>, w: nat, i: nat) {
    i < |steps| && steps[i] == Acquire(w)
    && forall j :: i < j < |steps| ==> steps[j] != Release(w) && steps[j] != Crash(w)
  }

  /** A writer is in the critical section from `Acquire` to `Release`, unless it crashes. */
  lemma {:induction false} CriticalExactly(pid: nat -> nat, steps: seq<Step>, w: nat)
    requires Runs(pid, steps)
    ensures Critical(After(pid, steps).At(w)) <==> exists i: nat :: InsideSince(steps, w, i)
    decreases |steps|
  {
    if steps != [] {
      var k := |steps| - 1;
      CriticalExactly(pid, steps[..k], w);
      CriticalStep(pid, After(pid, steps[..k]), steps[k], w);
      InsideNext(steps[..k], steps[k], w);
      assert steps[..k] + [steps[k]] == steps;
    }
  }

  lemma CriticalStep(pid: nat -> nat, s: System, step: Step, w: nat)
    requires Enabled(pid, s, step)
    ensures Critical(Next(pid, s, step).At(w)) <==>
              step == Acquire(w) || (Critical(s.At(w)) && step != Release(w) && step != Crash(w))
  {
  }

  lemma InsideNext(steps: seq<Step>, step: Step, w: nat)
    ensures (exists i: nat :: InsideSince(steps + [step], w, i)) <==>
              || step == Acquire(w)
              || ((exists i: nat :: InsideSince(steps, w, i)) && step != Release(w) && step != Crash(w))
  {
    var all := steps + [step];
    if step == Acquire(w) {
      assert InsideSince(all, w, |steps|);
    } else if exists i: nat :: InsideSince(all, w, i) {
      var i: nat :| InsideSince(all, w, i);
      assert all[|steps|] == step && forall j :: 0 <= j < |steps| ==> all[j] == steps[j];
      assert InsideSince(steps, w, i);
    } else if i: nat :| InsideSince(steps, w, i) {
      assert step != Release(w) && step != Crash(w) ==> InsideSince(all, w, i);
    }
  }

  /** Two writers that took the lock, and neither gave it back nor crashed, are one writer. */
  lemma MutualExclusion(pid: nat -> nat, steps: seq<Step>, v: nat, i: nat, w: nat, j: nat)
    requires Runs(pid, steps) && NoLockOutlives(pid, steps)
    requires InsideSince(steps, v, i) && InsideSince(steps, w, j)
    ensures v == w
  {
    RunsKeepInv(pid, steps);
    CriticalExactly(pid, steps, v);
    CriticalExactly(pid, steps, w);
  }

  // ---- Progress ----

  function Recording(w: nat, e: Touch): seq<Step> {
    [Begin(w, e), Acquire(w), Read(w), OpenTmp(w), FillTmp(w), Rename(w), Release(w)]
  }

  /** Where the recording of `e` by `w` stands after `i` of its steps, begun in `s` with the lock free. */
  ghost predicate RecordingAt(pid: nat -> nat, s: System, w: nat, e: Touch, r: System, i: nat)
    requires s.file.Whole? && i <= 7
  {
    var ring, next := s.file.ring, Trim(s.file.ring + [e]);
    && r.now == s.now
    && r.lock == (if 2 <= i < 7 then Some(Lock(w, s.now)) else None)
    && r.file == Whole(if i < 6 then ring else next)
    && r.At(w) == [Idle, Trying(e, 0), Holding(e), HasRead(e, ring), Writing(e, next), Written(e, next),
                   Published(e), Idle][i]
    && (i == 5 ==> pid(w) in r.tmps && r.tmps[pid(w)] == Whole(next))
  }

  lemma RecordingStep(pid: nat -> nat, s: System, w: nat, e: Touch, r: System, i: nat)
    requires s.file.Whole? && i < 7 && RecordingAt(pid, s, w, e, r, i)
    ensures Enabled(pid, r, Recording(w, e)[i])
    ensures RecordingAt(pid, s, w, e, Next(pid, r, Recording(w, e)[i]), i + 1)
    ensures !Stale(Next(pid, r, Recording(w, e)[i]))
  {
  }

  /** The run has carried out the first `i` steps of the recording. */
  ghost predicate RecordingReached(pid: nat -> nat, s: System, w: nat, e: Touch, run: seq<Step>, i: nat) {
    s.file.Whole? && i <= 7 && Runs(pid, run) && NoLockOutlives(pid, run)
    && RecordingAt(pid, s, w, e, After(pid, run), i)
  }

  lemma RecordingOneMore(pid: nat -> nat, s: System, w: nat, e: Touch, run: seq<Step>, i: nat)
    requires i < 7 && RecordingReached(pid, s, w, e, run, i)
    ensures RecordingReached(pid, s, w, e, run + [Recording(w, e)[i]], i + 1)
  {
    RecordingStep(pid, s, w, e, After(pid, run), i);
    OneMore(pid, run, Recording(w, e)[i]);
    assert (run + [Recording(w, e)[i]])[..|run|] == run;
  }

  lemma {:induction false} RecordingRuns(pid: nat -> nat, s: System, w: nat, e: Touch, run: seq<Step>, i: nat)
    requires i <= 7 && RecordingReached(pid, s, w, e, run, i)
    ensures RecordingReached(pid, s, w, e, run + Recording(w, e)[i..], 7)
    decreases 7 - i
  {
    if i == 7 {
      assert run + Recording(w, e)[i..] == run;
    } else {
      RecordingOneMore(pid, s, w, e, run, i);
      RecordingRuns(pid, s, w, e, run + [Recording(w, e)[i]], i + 1);
      FirstOfRest(run, Recording(w, e), i);
    }
  }

  lemma FirstOfRest(run: seq<Step>, more: seq<Step>, i: nat)
    requires i < |more|
    ensures run + more[i..] == run + [more[i]] + more[i + 1..]
  {
  }

  /** Whoever finds the lock free can record its entry and leave the lock free again. */
  lemma {:induction false} RecordingCompletes(pid: nat -> nat, steps: seq<Step>, w: nat, e: Touch)
    requires Runs(pid, steps) && NoLockOutlives(pid, steps)
    requires After(pid, steps).lock.None? && After(pid, steps).At(w).Idle?
    ensures var all := steps + [Begin(w, e), Acquire(w), Read(w), OpenTmp(w), FillTmp(w), Rename(w), Release(w)];
            && Runs(pid, all) && NoLockOutlives(pid, all)
            && After(pid, steps).file.Whole?
            && var r := After(pid, all);
            && r.At(w) == Idle && r.lock == None && r.file == Whole(Trim(After(pid, steps).file.ring + [e]))
  {
    RunsKeepInv(pid, steps);
    RecordingRuns(pid, After(pid, steps), w, e, steps, 0);
    assert Recording(w, e)[0..] == Recording(w, e);
  }

  /** A writer in the critical section can always give the lock back. */
  lemma LockIsGivenBack(pid: nat -> nat, steps: seq<Step>, w: nat)
    requires Runs(pid, steps) && Critical(After(pid, steps).At(w))
    ensures var back := if Enabled(pid, After(pid, steps), Release(w)) then [Release(w)] else [Fail(w), Release(w)];
            && Runs(pid, steps + back)
            && After(pid, steps + back).lock == None && After(pid, steps + back).At(w) == Idle
  {
    if Enabled(pid, After(pid, steps), Release(w)) {
      OneMore(pid, steps, Release(w));
    } else {
      OneMore(pid, steps, Fail(w));
      OneMore(pid, steps + [Fail(w)], Release(w));
      assert steps + [Fail(w), Release(w)] == steps + [Fail(w)] + [Release(w)];
    }
  }

  /** Seconds that have passed. */
  function Clock(steps: seq<Step>): nat {
    if steps == [] then 0 else Clock(steps[..|steps| - 1]) + if steps[|steps| - 1] == Tick then 1 else 0
  }

  /** The lock was created at step `i`, and none since. */
  ghost predicate BornAt(steps: seq<Step>, lock: Lock, i: nat) {
    && i < |steps| && steps[i] == Acquire(lock.owner) && lock.born == Clock(steps[..i]) <= Clock(steps)
    && forall j :: i < j < |steps| ==> !steps[j].Acquire?
  }

  ghost predicate Timed(steps: seq<Step>, now: nat, lock: Option<Lock>) {
    now == Clock(steps) && (lock.Some? ==> exists i: nat :: BornAt(steps, lock.value, i))
  }

  lemma TimedStep(pid: nat -> nat, s: System, step: Step)
    requires Enabled(pid, s, step)
    ensures var r := Next(pid, s, step);
            && r.now == s.now + (if step == Tick then 1 else 0)
            && (r.lock.Some? ==> r.lock == if step.Acquire? then Some(Lock(step.w, s.now)) else s.lock)
  {
  }

  lemma BornBefore(steps: seq<Step>, step: Step, lock: Lock, i: nat)
    requires BornAt(steps, lock, i) && !step.Acquire?
    ensures BornAt(steps + [step], lock, i)
  {
    assert (steps + [step])[..|steps|] == steps && (steps + [step])[..i] == steps[..i];
  }

  lemma {:induction false} LocksAreTimed(pid: nat -> nat, steps: seq<Step>)
    requires Runs(pid, steps)
    ensures Timed(steps, After(pid, steps).now, After(pid, steps).lock)
    decreases |steps|
  {
    if steps != [] {
      var k := |steps| - 1;
      var s := After(pid, steps[..k]);
      LocksAreTimed(pid, steps[..k]);
      TimedStep(pid, s, steps[k]);
      assert steps[..k] + [steps[k]] == steps;
      if steps[k].Acquire? {
        assert BornAt(steps, Lock(steps[k].w, s.now), k);
      } else if s.lock.Some? {
        var i: nat :| BornAt(steps[..k], s.lock.value, i);
        BornBefore(steps[..k], steps[k], s.lock.value, i);
      }
    }
  }

  /** A lock nobody will remove does not block for good: eleven seconds on, any writer that is still
      trying can break it, whatever happened before. */
  lemma LeftoverIsBroken(pid: nat -> nat, steps: seq<Step>, w: nat)
    requires Runs(pid, steps) && After(pid, steps).lock.Some?
    requires After(pid, steps).At(w).Trying? && After(pid, steps).At(w).tries < 200
    ensures var all := steps + Ticks(11) + [Judge(w), Break(w)];
            && Runs(pid, all) && After(pid, all).lock == None
            && After(pid, all).At(w) == Trying(After(pid, steps).At(w).entry, After(pid, steps).At(w).tries + 1)
  {
    var s := After(pid, steps);
    var later := s.(now := s.now + 11);
    LocksAreTimed(pid, steps);
    TickOn(pid, steps, s, 11);
    JudgeAndBreak(pid, steps + Ticks(11), later, w);
  }

  lemma JudgeAndBreak(pid: nat -> nat, steps: seq<Step>, s: System, w: nat)
    requires RunsTo(pid, steps, s) && Enabled(pid, s, Judge(w))
    ensures RunsTo(pid, steps + [Judge(w), Break(w)],
                   s.Move(w, Breaking(s.At(w).entry, s.At(w).tries))
                    .Move(w, Trying(s.At(w).entry, s.At(w).tries + 1)).(lock := None))
  {
    StepTo(pid, steps, s, Judge(w));
    StepTo(pid, steps + [Judge(w)], Next(pid, s, Judge(w)), Break(w));
    assert steps + [Judge(w), Break(w)] == steps + [Judge(w)] + [Break(w)];
  }

  /** How often `w` found the lock taken since it began. */
  function Waits(steps: seq<Step>, w: nat): nat {
    if steps == [] then 0
    else
      var k := |steps| - 1;
      if steps[k].Begin? && steps[k].w == w then 0
      else Waits(steps[..k], w) + (if steps[k] == Spin(w) || steps[k] == Break(w) then 1 else 0)
  }

  ghost predicate Waited(pc: Pc, waits: nat) {
    && (pc.Trying? ==> pc.tries == waits <= 200)
    && (pc.Breaking? ==> pc.tries == waits < 200)
  }

  lemma WaitStep(pid: nat -> nat, s: System, step: Step, w: nat, waits: nat)
    requires Enabled(pid, s, step) && Waited(s.At(w), waits)
    ensures Waited(Next(pid, s, step).At(w),
                   if step.Begin? && step.w == w then 0
                   else waits + if step == Spin(w) || step == Break(w) then 1 else 0)
  {
  }

  lemma {:induction false} WaitsCounted(pid: nat -> nat, steps: seq<Step>, w: nat)
    requires Runs(pid, steps)
    ensures Waited(After(pid, steps).At(w), Waits(steps, w))
    decreases |steps|
  {
    if steps != [] {
      var k := |steps| - 1;
      WaitsCounted(pid, steps[..k], w);
      WaitStep(pid, After(pid, steps[..k]), steps[k], w, Waits(steps[..k], w));
    }
  }

  /** What a writer that waits can do. As long as it found the lock taken less than two hundred times, it
      takes a free lock, spins at one of at most ten seconds and judges an older one left over; after
      that it gives up. A lock is as old as the step that took it. */
  lemma WaiterMoves(pid: nat -> nat, steps: seq<Step>, w: nat) returns (i: nat)
    requires Runs(pid, steps) && After(pid, steps).At(w).Trying?
    ensures var s, more := After(pid, steps), Waits(steps, w) < 200;
            && (Enabled(pid, s, Acquire(w)) <==> more && s.lock.None?)
            && (s.lock.Some? ==>
                  && i < |steps| && steps[i] == Acquire(s.lock.value.owner)
                  && forall j :: i < j < |steps| ==> !steps[j].Acquire?)
            && (Enabled(pid, s, Spin(w)) <==> more && s.lock.Some? && Clock(steps) - Clock(steps[..i]) <= 10)
            && (Enabled(pid, s, Judge(w)) <==> more && s.lock.Some? && Clock(steps) - Clock(steps[..i]) > 10)
            && (Enabled(pid, s, GiveUp(w)) <==> !more)
            && Waits(steps, w) <= 200
  {
    WaitsCounted(pid, steps, w);
    LocksAreTimed(pid, steps);
    var lock := After(pid, steps).lock;
    if lock.Some? {
      i :| BornAt(steps, lock.value, i);
    } else {
      i := 0;
    }
  }

  /** Giving up changes nothing but the writer. */
  lemma GivesUp(pid: nat -> nat, s: System, w: nat)
    requires Enabled(pid, s, GiveUp(w))
    ensures var r := Next(pid, s, GiveUp(w)); r.At(w) == Idle && r == s.(pcs := r.pcs)
    ensures forall v :: v != w ==> Next(pid, s, GiveUp(w)).At(v) == s.At(v)
  {
  }

  /** A reader got the ring of the entries renamed by the time it looked. */
  lemma {:induction false} ReadersSeeTheRing(pid: nat -> nat, steps: seq<Step>, k: nat)
    requires Runs(pid, steps) && NoLockOutlives(pid, steps)
    requires k < |steps| && steps[k].Look? && forall j :: k < j < |steps| ==> steps[j] != steps[k]
    ensures Runs(pid, steps[..k])
    ensures steps[k].reader in After(pid, steps).seen
    ensures After(pid, steps).seen[steps[k].reader] == Whole(Recorded(Renamed(pid, steps[..k])))
    decreases |steps|
  {
    var n := |steps| - 1;
    SeenStep(pid, After(pid, steps[..n]), steps[n]);
    if k < n {
      ReadersSeeTheRing(pid, steps[..n], k);
      assert steps[..n][..k] == steps[..k];
      assert steps[n] != steps[k];
    } else {
      RunsKeepInv(pid, steps[..k]);
      LogIsRenamed(pid, steps[..k]);
    }
  }

  lemma SeenStep(pid: nat -> nat, s: System, step: Step)
    requires Enabled(pid, s, step)
    ensures Next(pid, s, step).seen == if step.Look? then s.seen[step.reader := s.file] else s.seen
  {
  }

  // ---- The assumption is needed ----

  function Ticks(n: nat): seq<Step> {
    if n == 0 then [] else Ticks(n - 1) + [Tick]
  }

  /** The run ends in `s`. */
  ghost predicate RunsTo(pid: nat -> nat, steps: seq<Step>, s: System) {
    Runs(pid, steps) && After(pid, steps) == s
  }

  lemma StepTo(pid: nat -> nat, steps: seq<Step>, s: System, step: Step)
    requires RunsTo(pid, steps, s) && Enabled(pid, s, step)
    ensures RunsTo(pid, steps + [step], Next(pid, s, step))
  {
    OneMore(pid, steps, step);
  }

  lemma {:induction false} TickOn(pid: nat -> nat, steps: seq<Step>, s: System, n: nat)
    requires RunsTo(pid, steps, s)
    ensures RunsTo(pid, steps + Ticks(n), s.(now := s.now + n))
  {
    if n == 0 {
      assert steps + Ticks(n) == steps;
    } else {
      TickOn(pid, steps, s, n - 1);
      StepTo(pid, steps + Ticks(n - 1), s.(now := s.now + n - 1), Tick);
      assert steps + Ticks(n) == steps + Ticks(n - 1) + [Tick];
    }
  }

  lemma OneMore(pid: nat -> nat, steps: seq<Step>, step: Step)
    requires Runs(pid, steps) && Enabled(pid, After(pid, steps), step)
    ensures Runs(pid, steps + [step])
    ensures After(pid, steps + [step]) == Next(pid, After(pid, steps), step)
  {
    assert (steps + [step])[..|steps|] == steps;
  }

  /** Writer 0 crashes with the lock while writers 1 and 2 wait, and time passes. */
  lemma LockLeftBehind(pid: nat -> nat, e: Touch) returns (steps: seq<Step>)
    ensures Runs(pid, steps)
    ensures var s := After(pid, steps);
      s.now == 11 && s.lock == Some(Lock(0, 0)) && s.At(1) == Trying(e, 0) && s.At(2) == Trying(e, 0)
  {
    steps := [];
    var first := [Begin(0, e), Begin(1, e), Begin(2, e), Acquire(0), Crash(0)];
    for i := 0 to |first|
      invariant Runs(pid, steps)
      invariant var s := After(pid, steps);
        && s.now == 0 && (s.lock == if i < 4 then None else Some(Lock(0, 0)))
        && s.At(0) == (if i < 1 then Idle else if i < 4 then Trying(e, 0) else if i < 5 then Holding(e) else Crashed)
        && s.At(1) == (if i < 2 then Idle else Trying(e, 0))
        && s.At(2) == (if i < 3 then Idle else Trying(e, 0))
    {
      OneMore(pid, steps, first[i]);
      steps := steps + [first[i]];
    }
    TickOn(pid, steps, After(pid, steps), STALE_AFTER + 1);
    steps := steps + Ticks(STALE_AFTER + 1);
  }

  lemma OneJudges(pid: nat -> nat, e: Touch) returns (steps: seq<Step>)
    ensures Runs(pid, steps)
    ensures var s := After(pid, steps); Stale(s) && s.At(1) == Breaking(e, 0) && s.At(2) == Trying(e, 0)
  {
    steps := LockLeftBehind(pid, e);
    OneMore(pid, steps, Judge(1));
    steps := steps + [Judge(1)];
  }

  /** Both waiting writers judge the lock stale, and the first removes it. */
  lemma BothJudge(pid: nat -> nat, e: Touch) returns (steps: seq<Step>)
    ensures Runs(pid, steps)
    ensures var s := After(pid, steps); s.lock.None? && s.At(1) == Trying(e, 1) && s.At(2) == Breaking(e, 0)
  {
    steps := OneJudges(pid, e);
    OneMore(pid, steps, Judge(2));
    steps := steps + [Judge(2)];
    OneMore(pid, steps, Break(1));
    steps := steps + [Break(1)];
  }

  /** Without the assumption two writers can hold the lock: both judge a left-over lock stale, one
      removes it and takes its own, which the other then removes. */
  lemma StaleLocksBreakExclusion(pid: nat -> nat, e: Touch) returns (steps: seq<Step>)
    ensures Runs(pid, steps)
    ensures var s := After(pid, steps); s.At(1) == Holding(e) && s.At(2) == Holding(e)
  {
    steps := BothJudge(pid, e);
    OneMore(pid, steps, Acquire(1));
    steps := steps + [Acquire(1)];
    OneMore(pid, steps, Break(2));
    steps := steps + [Break(2)];
    OneMore(pid, steps, Acquire(2));
    steps := steps + [Acquire(2)];
  }
}
