/**
 Multiprocessor start-up.  CPU 0 is the boot CPU; it takes the lock `km`, starts the
 others one by one, waits until they have counted themselves under `proc_m`, and only
 then releases `km`, which lets everybody through the scheduler's critical section.

 One step is one atomic access to shared memory by one CPU.  `ncpu++` is two steps.
 */
module Smp {

  datatype Pc =
    // the boot CPU in kernel_initialize
    | BootAcquire           // spinning on km
    | BootStart(next: nat)  // holds km; about to start CPU `next`
    | BootWait              // holds km; polling the CPU count
    | BootRelease           // holds km; about to release it
    // the others in mp_enter
    | Off                   // not started
    | EnterAcquire          // spinning on proc_m
    | EnterLoad             // holds proc_m; about to read ncpu
    | EnterStore(tmp: nat)  // holds proc_m; about to write tmp + 1 back
    | EnterRelease          // holds proc_m; about to release it
    // every CPU in scheduler
    | SchedAcquire          // spinning on km
    | SchedCritical         // holds km
    | Idle

  datatype State = State(km: bool, procM: bool, ncpu: nat, pcs: seq<Pc>)

  function Init(n: nat): (s: State)
    requires n >= 1
  {
    State(false, false, 0, seq(n, i => if i == 0 then BootAcquire else Off))
  }

  function At(s: State, c: nat, pc: Pc): State
    requires c < |s.pcs|
  {
    s.(pcs := s.pcs[c := pc])
  }

  /** One step of CPU c.  `acquire` exchanges 1 into the lock word and looks at what was there. */
  function Step(s: State, c: nat): (r: State)
    requires c < |s.pcs|
    ensures |r.pcs| == |s.pcs|
  {
    var n := |s.pcs|;
    match s.pcs[c]
    case BootAcquire =>
      if n <= 1 then At(s, c, SchedAcquire)
      else if s.km then s
      else At(s, c, BootStart(1)).(km := true)
    case BootStart(i) =>
      if i < n then At(At(s, c, BootStart(i + 1)), i, EnterAcquire) else At(s, c, BootWait)
    case BootWait =>
      if s.ncpu + 1 == n then At(s, c, BootRelease) else s
    case BootRelease => At(s, c, SchedAcquire).(km := false)
    case Off => s
    case EnterAcquire =>
      if s.procM then s else At(s, c, EnterLoad).(procM := true)
    case EnterLoad => At(s, c, EnterStore(s.ncpu))
    case EnterStore(tmp) => At(s, c, EnterRelease).(ncpu := tmp + 1)
    case EnterRelease => At(s, c, SchedAcquire).(procM := false)
    case SchedAcquire =>
      if s.km then s else At(s, c, SchedCritical).(km := true)
    case SchedCritical => At(s, c, Idle).(km := false)
    case Idle => s
  }

  predicate ValidSchedule(n: nat, schedule: seq<nat>) {
    forall i :: 0 <= i < |schedule| ==> schedule[i] < n
  }

  function Run(s: State, schedule: seq<nat>): (r: State)
    requires ValidSchedule(|s.pcs|, schedule)
    ensures |r.pcs| == |s.pcs|
    decreases |schedule|
  {
    if schedule == [] then s else Run(Step(s, schedule[0]), schedule[1..])
  }

  // ----- the invariant

  predicate HoldsKm(pc: Pc) {
    pc.BootStart? || pc.BootWait? || pc.BootRelease? || pc.SchedCritical?
  }

  predicate HoldsProcM(pc: Pc) {
    pc.EnterLoad? || pc.EnterStore? || pc.EnterRelease?
  }

  /** CPU has written its increment of ncpu. */
  predicate Counted(pc: Pc) {
    pc.EnterRelease? || pc.SchedAcquire? || pc.SchedCritical? || pc.Idle?
  }

  predicate InScheduler(pc: Pc) {
    pc.SchedAcquire? || pc.SchedCritical? || pc.Idle?
  }

  /** Number of CPUs 1..k-1 that have counted themselves. */
  function Count(pcs: seq<Pc>, k: nat): (r: nat)
    requires k <= |pcs|
  {
    if k <= 1 then 0 else Count(pcs, k - 1) + if Counted(pcs[k - 1]) then 1 else 0
  }

  ghost predicate Exclusive(s: State) {
    && (forall c, d :: 0 <= c < |s.pcs| && 0 <= d < |s.pcs| && HoldsKm(s.pcs[c]) && HoldsKm(s.pcs[d]) ==> c == d)
    && (forall c, d :: 0 <= c < |s.pcs| && 0 <= d < |s.pcs| && HoldsProcM(s.pcs[c]) && HoldsProcM(s.pcs[d]) ==> c == d)
    && (forall c :: 0 <= c < |s.pcs| && HoldsKm(s.pcs[c]) ==> s.km)
    && (forall c :: 0 <= c < |s.pcs| && HoldsProcM(s.pcs[c]) ==> s.procM)
  }

  /** A lock word is set only while somebody holds the lock. */
  ghost predicate LocksHeld(s: State) {
    && (s.km ==> exists c :: 0 <= c < |s.pcs| && HoldsKm(s.pcs[c]))
    && (s.procM ==> exists c :: 0 <= c < |s.pcs| && HoldsProcM(s.pcs[c]))
  }

  ghost predicate Roles(s: State) {
    && |s.pcs| >= 1
    && (s.pcs[0].BootAcquire? || s.pcs[0].BootStart? || s.pcs[0].BootWait? || s.pcs[0].BootRelease? || InScheduler(s.pcs[0]))
    && (forall c :: 1 <= c < |s.pcs| ==>
          s.pcs[c].Off? || s.pcs[c].EnterAcquire? || HoldsProcM(s.pcs[c]) || InScheduler(s.pcs[c]))
  }

  /** The others have been started in order, and none passes `km` before the boot CPU lets go of it. */
  ghost predicate BootOrder(s: State)
    requires |s.pcs| >= 1
  {
    && (s.pcs[0].BootAcquire? ==> !s.km && forall c :: 1 <= c < |s.pcs| ==> s.pcs[c].Off?)
    && (s.pcs[0].BootStart? ==>
          1 <= s.pcs[0].next <= |s.pcs| &&
          forall c :: 1 <= c < |s.pcs| ==> (s.pcs[c].Off? <==> s.pcs[0].next <= c))
    && (!s.pcs[0].BootAcquire? && !s.pcs[0].BootStart? ==> forall c :: 1 <= c < |s.pcs| ==> !s.pcs[c].Off?)
    && (!InScheduler(s.pcs[0]) ==> forall c :: 1 <= c < |s.pcs| ==> !s.pcs[c].SchedCritical? && !s.pcs[c].Idle?)
  }

  ghost predicate Counts(s: State)
    requires |s.pcs| >= 1
  {
    && s.ncpu == Count(s.pcs, |s.pcs|)
    && (forall c :: 0 <= c < |s.pcs| && s.pcs[c].EnterStore? ==> s.pcs[c].tmp == s.ncpu)
    && (s.pcs[0].BootRelease? || InScheduler(s.pcs[0]) ==> s.ncpu + 1 == |s.pcs|)
  }

  ghost predicate Inv(s: State) {
    Roles(s) && Exclusive(s) && LocksHeld(s) && BootOrder(s) && Counts(s)
  }

  // ----- counting

  lemma {:induction false} CountUpdate(pcs: seq<Pc>, c: nat, pc: Pc, k: nat)
    requires c < |pcs| && k <= |pcs|
    ensures Count(pcs[c := pc], k) ==
            Count(pcs, k) + if 1 <= c < k then (if Counted(pc) then 1 else 0) - (if Counted(pcs[c]) then 1 else 0) else 0
  {
    if k > 1 {
      CountUpdate(pcs, c, pc, k - 1);
    }
  }

  lemma {:induction false} CountBound(pcs: seq<Pc>, k: nat)
    requires 1 <= k <= |pcs|
    ensures Count(pcs, k) <= k - 1
    ensures Count(pcs, k) == k - 1 ==> forall c :: 1 <= c < k ==> Counted(pcs[c])
  {
    if k > 1 {
      CountBound(pcs, k - 1);
    }
  }

  lemma {:induction false} NoneCounted(pcs: seq<Pc>, k: nat)
    requires k <= |pcs| && forall c :: 1 <= c < |pcs| ==> pcs[c].Off?
    ensures Count(pcs, k) == 0
  {
    if k > 1 {
      NoneCounted(pcs, k - 1);
    }
  }

  // ----- preservation

  lemma InitInv(n: nat)
    requires n >= 1
    ensures Inv(Init(n))
  {
    NoneCounted(Init(n).pcs, n);
  }

  predicate InBoot(pc: Pc) {
    pc.BootAcquire? || pc.BootStart? || pc.BootWait? || pc.BootRelease?
  }

  predicate InEnter(pc: Pc) {
    pc.Off? || pc.EnterAcquire? || HoldsProcM(pc)
  }

  lemma SomebodyElse(s: State, r: State, c: nat)
    requires LocksHeld(s) && c < |s.pcs| && |r.pcs| == |s.pcs|
    requires forall d :: 0 <= d < |s.pcs| && d != c ==> HoldsKm(s.pcs[d]) == HoldsKm(r.pcs[d])
    requires forall d :: 0 <= d < |s.pcs| && d != c ==> HoldsProcM(s.pcs[d]) == HoldsProcM(r.pcs[d])
    requires r.km ==> HoldsKm(r.pcs[c]) || (s.km && !HoldsKm(s.pcs[c]))
    requires r.procM ==> HoldsProcM(r.pcs[c]) || (s.procM && !HoldsProcM(s.pcs[c]))
    ensures LocksHeld(r)
  {
    if r.km {
      if HoldsKm(r.pcs[c]) {
      } else {
        var d :| 0 <= d < |s.pcs| && HoldsKm(s.pcs[d]);
        assert HoldsKm(r.pcs[d]);
      }
    }
    if r.procM {
      if HoldsProcM(r.pcs[c]) {
      } else {
        var d :| 0 <= d < |s.pcs| && HoldsProcM(s.pcs[d]);
        assert HoldsProcM(r.pcs[d]);
      }
    }
  }

  lemma BootExclusive(s: State, c: nat)
    requires Inv(s) && c < |s.pcs| && InBoot(s.pcs[c])
    ensures Exclusive(Step(s, c))
  {
    assert c == 0;
  }

  lemma BootLocks(s: State, c: nat)
    requires Inv(s) && c < |s.pcs| && InBoot(s.pcs[c])
    ensures Exclusive(Step(s, c)) && LocksHeld(Step(s, c))
  {
    BootExclusive(s, c);
    SomebodyElse(s, Step(s, c), c);
  }

  lemma EnterExclusive(s: State, c: nat)
    requires Inv(s) && c < |s.pcs| && InEnter(s.pcs[c])
    ensures Exclusive(Step(s, c))
  {
  }

  lemma EnterLocks(s: State, c: nat)
    requires Inv(s) && c < |s.pcs| && InEnter(s.pcs[c])
    ensures Exclusive(Step(s, c)) && LocksHeld(Step(s, c))
  {
    EnterExclusive(s, c);
    SomebodyElse(s, Step(s, c), c);
  }

  lemma SchedExclusive(s: State, c: nat)
    requires Inv(s) && c < |s.pcs| && InScheduler(s.pcs[c])
    ensures Exclusive(Step(s, c))
  {
  }

  lemma SchedLocks(s: State, c: nat)
    requires Inv(s) && c < |s.pcs| && InScheduler(s.pcs[c])
    ensures Exclusive(Step(s, c)) && LocksHeld(Step(s, c))
  {
    SchedExclusive(s, c);
    SomebodyElse(s, Step(s, c), c);
  }

  lemma BootCounts(s: State, c: nat)
    requires Inv(s) && c < |s.pcs| && InBoot(s.pcs[c])
    ensures Counts(Step(s, c))
  {
    var n := |s.pcs|;
    assert c == 0;
    var pc := Step(s, c).pcs[0];
    CountUpdate(s.pcs, 0, pc, n);
    if s.pcs[0].BootStart? && s.pcs[0].next < n {
      CountUpdate(s.pcs[0 := pc], s.pcs[0].next, EnterAcquire, n);
    }
    if n == 1 {
      CountBound(s.pcs, 1);
    }
  }

  lemma EnterCounts(s: State, c: nat)
    requires Inv(s) && c < |s.pcs| && InEnter(s.pcs[c])
    ensures Counts(Step(s, c))
  {
    CountUpdate(s.pcs, c, Step(s, c).pcs[c], |s.pcs|);
    CountBound(s.pcs, |s.pcs|);
  }

  lemma SchedCounts(s: State, c: nat)
    requires Inv(s) && c < |s.pcs| && InScheduler(s.pcs[c])
    ensures Counts(Step(s, c))
  {
    CountUpdate(s.pcs, c, Step(s, c).pcs[c], |s.pcs|);
  }

  lemma BootStepOrder(s: State, c: nat)
    requires Inv(s) && c < |s.pcs| && InBoot(s.pcs[c])
    ensures Roles(Step(s, c)) && BootOrder(Step(s, c))
  {
    assert c == 0;
  }

  lemma OtherStepOrder(s: State, c: nat)
    requires Inv(s) && c < |s.pcs| && !InBoot(s.pcs[c])
    ensures Roles(Step(s, c)) && BootOrder(Step(s, c))
  {
    OtherStepRoles(s, c);
  }

  lemma OtherStepRoles(s: State, c: nat)
    requires Inv(s) && c < |s.pcs| && !InBoot(s.pcs[c])
    ensures Roles(Step(s, c))
  {
  }

  lemma StepInv(s: State, c: nat)
    requires Inv(s) && c < |s.pcs|
    ensures Inv(Step(s, c))
  {
    if InBoot(s.pcs[c]) {
      BootStepOrder(s, c);
      BootLocks(s, c);
      BootCounts(s, c);
    } else {
      OtherStepOrder(s, c);
      if InEnter(s.pcs[c]) {
        EnterLocks(s, c);
        EnterCounts(s, c);
      } else {
        SchedLocks(s, c);
        SchedCounts(s, c);
      }
    }
  }

  lemma {:induction false} RunInv(s: State, schedule: seq<nat>)
    requires Inv(s) && ValidSchedule(|s.pcs|, schedule)
    ensures Inv(Run(s, schedule))
    decreases |schedule|
  {
    if schedule != [] {
      StepInv(s, schedule[0]);
      RunInv(Step(s, schedule[0]), schedule[1..]);
    }
  }

  /**
   Main safety result, for every number of CPUs and every interleaving: each lock has at
   most one holder; ncpu is the number of CPUs that have counted themselves, so no
   increment is lost; once the boot CPU is past its wait all others have counted
   themselves; and no other CPU is in or past the scheduler's critical section before
   the boot CPU has released km.
   */
  lemma EveryStartupIsSafe(n: nat, schedule: seq<nat>)
    requires n >= 1 && ValidSchedule(n, schedule)
    ensures var s := Run(Init(n), schedule);
            && Exclusive(s)
            && s.ncpu == Count(s.pcs, n)
            && (s.pcs[0].BootRelease? || InScheduler(s.pcs[0]) ==> forall c :: 1 <= c < n ==> Counted(s.pcs[c]))
            && (forall c :: 1 <= c < n && (s.pcs[c].SchedCritical? || s.pcs[c].Idle?) ==> InScheduler(s.pcs[0]))
  {
    InitInv(n);
    RunInv(Init(n), schedule);
    CountBound(Run(Init(n), schedule).pcs, n);
  }

  // ----- nobody gets past a lock without having held it

  /** CPU c holds km, and nobody else does. */
  ghost predicate AloneWithKm(s: State, c: nat) {
    && c < |s.pcs| && s.km && HoldsKm(s.pcs[c])
    && forall d :: 0 <= d < |s.pcs| && d != c ==> !HoldsKm(s.pcs[d])
  }

  /** CPU c holds proc_m, and nobody else does. */
  ghost predicate AloneWithProcM(s: State, c: nat) {
    && c < |s.pcs| && s.procM && HoldsProcM(s.pcs[c])
    && forall d :: 0 <= d < |s.pcs| && d != c ==> !HoldsProcM(s.pcs[d])
  }

  /** The state after the first k steps. */
  function After(s: State, schedule: seq<nat>, k: nat): State
    requires ValidSchedule(|s.pcs|, schedule) && k <= |schedule|
  {
    Run(s, schedule[..k])
  }

  lemma AfterNext(s: State, schedule: seq<nat>, k: nat)
    requires ValidSchedule(|s.pcs|, schedule) && schedule != [] && k < |schedule|
    ensures After(s, schedule, k + 1) == After(Step(s, schedule[0]), schedule[1..], k)
  {
    assert schedule[..k + 1][0] == schedule[0] && schedule[..k + 1][1..] == schedule[1..][..k];
  }

  lemma HolderIsAlone(s: State, c: nat)
    requires Inv(s) && c < |s.pcs|
    ensures HoldsKm(s.pcs[c]) ==> AloneWithKm(s, c)
    ensures HoldsProcM(s.pcs[c]) ==> AloneWithProcM(s, c)
  {
  }

  lemma StoresWhatItRead(s: State, c: nat)
    requires Inv(s) && c < |s.pcs| && s.pcs[c].EnterStore?
    ensures s.pcs[c].tmp == s.ncpu
  {
  }

  lemma OneStepOn(s: State, d: nat, c: nat)
    requires c < |s.pcs| && d < |s.pcs| && (s.pcs[d].BootStart? ==> s.pcs[d].next != c || s.pcs[c].Off?)
    ensures var pc, pc' := s.pcs[c], Step(s, d).pcs[c];
            && (pc'.Idle? ==> pc.Idle? || pc.SchedCritical?)
            && (Counted(pc') ==> Counted(pc) || pc.EnterStore? || InBoot(pc))
  {
  }

  lemma StartsOnlyOff(s: State, d: nat, c: nat)
    requires Inv(s) && c < |s.pcs| && d < |s.pcs|
    ensures s.pcs[d].BootStart? ==> s.pcs[d].next != c || s.pcs[c].Off?
    ensures c >= 1 ==> !InBoot(s.pcs[c])
  {
  }

  /** A CPU that becomes idle was in the scheduler's critical section, alone with km. */
  lemma {:induction false} IdleWasCritical(s: State, schedule: seq<nat>, c: nat) returns (k: nat)
    requires Inv(s) && ValidSchedule(|s.pcs|, schedule) && c < |s.pcs|
    requires !s.pcs[c].Idle? && Run(s, schedule).pcs[c].Idle?
    ensures k <= |schedule| && After(s, schedule, k).pcs[c].SchedCritical? && AloneWithKm(After(s, schedule, k), c)
    decreases |schedule|
  {
    if s.pcs[c].SchedCritical? {
      k := 0;
      HolderIsAlone(s, c);
    } else {
      StartsOnlyOff(s, schedule[0], c);
      OneStepOn(s, schedule[0], c);
      StepInv(s, schedule[0]);
      var j := IdleWasCritical(Step(s, schedule[0]), schedule[1..], c);
      k := j + 1;
      AfterNext(s, schedule, j);
    }
  }

  /** A CPU that becomes counted was about to write the count back, alone with proc_m. */
  lemma {:induction false} CountedHeldProcM(s: State, schedule: seq<nat>, c: nat) returns (k: nat)
    requires Inv(s) && ValidSchedule(|s.pcs|, schedule) && 1 <= c < |s.pcs|
    requires !Counted(s.pcs[c]) && Counted(Run(s, schedule).pcs[c])
    ensures k <= |schedule| && AloneWithProcM(After(s, schedule, k), c)
    ensures var t := After(s, schedule, k); t.pcs[c].EnterStore? && t.pcs[c].tmp == t.ncpu
    decreases |schedule|
  {
    if s.pcs[c].EnterStore? {
      k := 0;
      HolderIsAlone(s, c);
      StoresWhatItRead(s, c);
    } else {
      StartsOnlyOff(s, schedule[0], c);
      OneStepOn(s, schedule[0], c);
      StepInv(s, schedule[0]);
      var j := CountedHeldProcM(Step(s, schedule[0]), schedule[1..], c);
      k := j + 1;
      AfterNext(s, schedule, j);
    }
  }

  /** With more than one CPU, the boot CPU comes to the scheduler only after holding km while all others counted themselves. */
  lemma {:induction false} BootHeldKm(s: State, schedule: seq<nat>) returns (k: nat)
    requires Inv(s) && ValidSchedule(|s.pcs|, schedule) && |s.pcs| > 1
    requires InBoot(s.pcs[0]) && InScheduler(Run(s, schedule).pcs[0])
    ensures k <= |schedule| && AloneWithKm(After(s, schedule, k), 0)
    ensures var t := After(s, schedule, k); t.pcs[0].BootRelease? && forall c :: 1 <= c < |t.pcs| ==> Counted(t.pcs[c])
    decreases |schedule|
  {
    if s.pcs[0].BootRelease? {
      k := 0;
      CountBound(s.pcs, |s.pcs|);
    } else {
      StepInv(s, schedule[0]);
      var j := BootHeldKm(Step(s, schedule[0]), schedule[1..]);
      k := j + 1;
      AfterNext(s, schedule, j);
    }
  }

  /** At some point of the run CPU c was in the scheduler's critical section, alone with km. */
  ghost predicate WentCritical(n: nat, schedule: seq<nat>, c: nat)
    requires n >= 1 && ValidSchedule(n, schedule)
  {
    exists k :: 0 <= k <= |schedule| && CriticalAt(n, schedule, c, k)
  }

  ghost predicate CriticalAt(n: nat, schedule: seq<nat>, c: nat, k: nat)
    requires n >= 1 && ValidSchedule(n, schedule) && k <= |schedule|
  {
    var t := After(Init(n), schedule, k);
    AloneWithKm(t, c) && t.pcs[c].SchedCritical?
  }

  /** At some point of the run CPU c wrote the count back, alone with proc_m. */
  ghost predicate CountedAlone(n: nat, schedule: seq<nat>, c: nat)
    requires n >= 1 && ValidSchedule(n, schedule)
  {
    exists k :: 0 <= k <= |schedule| && CountingAt(n, schedule, c, k)
  }

  ghost predicate CountingAt(n: nat, schedule: seq<nat>, c: nat, k: nat)
    requires n >= 1 && ValidSchedule(n, schedule) && k <= |schedule|
  {
    var t := After(Init(n), schedule, k);
    AloneWithProcM(t, c) && t.pcs[c].EnterStore? && t.pcs[c].tmp == t.ncpu
  }

  /**
   In every interleaving, a CPU that is past the scheduler was in its critical section and
   held km there alone, and a CPU that is counted wrote the count back while it held proc_m alone.
   */
  lemma EveryLockWasHeld(n: nat, schedule: seq<nat>, c: nat)
    requires ValidSchedule(n, schedule) && c < n
    ensures Run(Init(n), schedule).pcs[c].Idle? ==> WentCritical(n, schedule, c)
    ensures c >= 1 && Counted(Run(Init(n), schedule).pcs[c]) ==> CountedAlone(n, schedule, c)
  {
    InitInv(n);
    if Run(Init(n), schedule).pcs[c].Idle? {
      var k := IdleWasCritical(Init(n), schedule, c);
      assert CriticalAt(n, schedule, c, k);
    }
    if c >= 1 && Counted(Run(Init(n), schedule).pcs[c]) {
      var k := CountedHeldProcM(Init(n), schedule, c);
      assert CountingAt(n, schedule, c, k);
    }
  }

  // ----- progress

  ghost predicate AllIdle(s: State) {
    forall c :: 0 <= c < |s.pcs| ==> s.pcs[c].Idle?
  }

  /** Steps CPU still has to take, at most. */
  function Left(pc: Pc, n: nat): nat {
    match pc
    case BootAcquire => 5 + n
    case BootStart(i) => if i <= n then 5 + (n - i) else 5
    case BootWait => 4
    case BootRelease => 3
    case Off => 7
    case EnterAcquire => 6
    case EnterLoad => 5
    case EnterStore(_) => 4
    case EnterRelease => 3
    case SchedAcquire => 2
    case SchedCritical => 1
    case Idle => 0
  }

  function Rank(pcs: seq<Pc>, n: nat, k: nat): (r: nat)
    requires k <= |pcs|
  {
    if k == 0 then 0 else Rank(pcs, n, k - 1) + Left(pcs[k - 1], n)
  }

  function Remaining(s: State): nat {
    Rank(s.pcs, |s.pcs|, |s.pcs|)
  }

  lemma {:induction false} RankUpdate(pcs: seq<Pc>, n: nat, c: nat, pc: Pc, k: nat)
    requires c < |pcs| && k <= |pcs|
    ensures Rank(pcs[c := pc], n, k) == Rank(pcs, n, k) + if c < k then Left(pc, n) - Left(pcs[c], n) else 0
  {
    if k > 0 {
      RankUpdate(pcs, n, c, pc, k - 1);
    }
  }

  /** A step that is not a spin brings the system closer to the end. */
  lemma StepProgress(s: State, c: nat)
    requires Inv(s) && c < |s.pcs| && Step(s, c) != s
    ensures Remaining(Step(s, c)) < Remaining(s)
  {
    var n := |s.pcs|;
    RankUpdate(s.pcs, n, c, Step(s, c).pcs[c], n);
    if s.pcs[c].BootStart? && s.pcs[c].next < n {
      assert c == 0;
      RankUpdate(s.pcs[c := Step(s, c).pcs[c]], n, s.pcs[c].next, EnterAcquire, n);
    }
  }

  /** A CPU in mp_enter can move, or the holder of proc_m can. */
  lemma EnterMoves(s: State, c: nat) returns (d: nat)
    requires Inv(s) && 1 <= c < |s.pcs| && (s.pcs[c].EnterAcquire? || HoldsProcM(s.pcs[c]))
    ensures d < |s.pcs| && Step(s, d) != s
  {
    if HoldsProcM(s.pcs[c]) || !s.procM {
      d := c;
    } else {
      d :| 0 <= d < |s.pcs| && HoldsProcM(s.pcs[d]);
    }
    assert Step(s, d).pcs[d] != s.pcs[d];
  }

  /** No deadlock: until every CPU is idle, some CPU can take a step that changes the state. */
  lemma SomebodyMoves(s: State) returns (d: nat)
    requires Inv(s) && !AllIdle(s)
    ensures d < |s.pcs| && Step(s, d) != s
  {
    if s.km {
      d :| 0 <= d < |s.pcs| && HoldsKm(s.pcs[d]);
      if s.pcs[d].BootWait? && s.ncpu + 1 != |s.pcs| {
        var c := Uncounted(s);
        d := EnterMoves(s, c);
      } else {
        assert Step(s, d).pcs[d] != s.pcs[d];
      }
    } else {
      d :| 0 <= d < |s.pcs| && !s.pcs[d].Idle?;
      if s.pcs[d].Off? {
        assert s.pcs[0].BootAcquire?;
        d := 0;
        assert Step(s, 0).pcs[0] != s.pcs[0];
      } else if s.pcs[d].EnterAcquire? || HoldsProcM(s.pcs[d]) {
        d := EnterMoves(s, d);
      } else {
        assert Step(s, d).pcs[d] != s.pcs[d];
      }
    }
  }

  lemma Uncounted(s: State) returns (c: nat)
    requires Inv(s) && s.ncpu + 1 != |s.pcs| && s.pcs[0].BootWait?
    ensures 1 <= c < |s.pcs| && (s.pcs[c].EnterAcquire? || HoldsProcM(s.pcs[c]))
  {
    if forall c :: 1 <= c < |s.pcs| ==> Counted(s.pcs[c]) {
      AllCounted(s.pcs, |s.pcs|);
    }
    c :| 1 <= c < |s.pcs| && !Counted(s.pcs[c]);
  }

  lemma {:induction false} AllCounted(pcs: seq<Pc>, k: nat)
    requires 1 <= k <= |pcs| && forall c :: 1 <= c < k ==> Counted(pcs[c])
    ensures Count(pcs, k) == k - 1
  {
    if k > 1 {
      AllCounted(pcs, k - 1);
    }
  }

  /** A run either gets closer to the end, or every step of it was a spin. */
  lemma {:induction false} QuietOrProgress(s: State, schedule: seq<nat>)
    requires Inv(s) && ValidSchedule(|s.pcs|, schedule)
    ensures Remaining(Run(s, schedule)) < Remaining(s) ||
            (Run(s, schedule) == s && forall i :: 0 <= i < |schedule| ==> Step(s, schedule[i]) == s)
    decreases |schedule|
  {
    if schedule != [] {
      var s' := Step(s, schedule[0]);
      StepInv(s, schedule[0]);
      QuietOrProgress(s', schedule[1..]);
      if s' != s {
        StepProgress(s, schedule[0]);
      } else {
        assert forall i :: 1 <= i < |schedule| ==> schedule[i] == schedule[1..][i - 1];
      }
    }
  }

  /** A round schedules every CPU at least once, in any order. */
  predicate FairRound(n: nat, round: seq<nat>) {
    ValidSchedule(n, round) && forall c: nat :: c < n ==> c in round
  }

  predicate ValidRounds(n: nat, rounds: seq<seq<nat>>) {
    forall i :: 0 <= i < |rounds| ==> ValidSchedule(n, rounds[i])
  }

  predicate FairRounds(n: nat, rounds: seq<seq<nat>>) {
    forall i :: 0 <= i < |rounds| ==> FairRound(n, rounds[i])
  }

  lemma RoundProgress(s: State, round: seq<nat>)
    requires Inv(s) && FairRound(|s.pcs|, round) && !AllIdle(s)
    ensures Remaining(Run(s, round)) < Remaining(s)
  {
    QuietOrProgress(s, round);
    var d := SomebodyMoves(s);
    assert d in round;
  }

  function RunRounds(s: State, rounds: seq<seq<nat>>): (r: State)
    requires ValidRounds(|s.pcs|, rounds)
    ensures |r.pcs| == |s.pcs|
    decreases |rounds|
  {
    if rounds == [] then s else RunRounds(Run(s, rounds[0]), rounds[1..])
  }

  lemma {:induction false} RoundsFinish(s: State, rounds: seq<seq<nat>>)
    requires Inv(s)
    requires FairRounds(|s.pcs|, rounds)
    requires |rounds| >= Remaining(s)
    ensures Inv(RunRounds(s, rounds)) && AllIdle(RunRounds(s, rounds))
    decreases |rounds|
  {
    if rounds == [] {
      if !AllIdle(s) {
        var d := SomebodyMoves(s);
        StepProgress(s, d);
      }
    } else {
      var s' := Run(s, rounds[0]);
      RunInv(s, rounds[0]);
      QuietOrProgress(s, rounds[0]);
      if AllIdle(s) {
        IdleStays(s, rounds[0]);
        if Remaining(s) == 0 || |rounds| - 1 >= Remaining(s) {
          RoundsFinish(s', rounds[1..]);
        } else {
          IdleRank(s.pcs, |s.pcs|, |s.pcs|);
        }
      } else {
        RoundProgress(s, rounds[0]);
        RoundsFinish(s', rounds[1..]);
      }
    }
  }

  lemma {:induction false} IdleStays(s: State, schedule: seq<nat>)
    requires AllIdle(s) && ValidSchedule(|s.pcs|, schedule)
    ensures Run(s, schedule) == s
    decreases |schedule|
  {
    if schedule != [] {
      IdleStays(Step(s, schedule[0]), schedule[1..]);
    }
  }

  lemma {:induction false} IdleRank(pcs: seq<Pc>, n: nat, k: nat)
    requires k <= |pcs| && forall c :: 0 <= c < |pcs| ==> pcs[c].Idle?
    ensures Rank(pcs, n, k) == 0
  {
    if k > 0 {
      IdleRank(pcs, n, k - 1);
    }
  }

  /** Main liveness result: under any fair scheduling start-up completes, with every CPU counted and both locks free. */
  lemma StartupCompletes(n: nat, rounds: seq<seq<nat>>)
    requires n >= 1
    requires FairRounds(n, rounds)
    requires |rounds| >= Remaining(Init(n))
    ensures var s := RunRounds(Init(n), rounds); AllIdle(s) && s.ncpu == n - 1 && !s.km && !s.procM
  {
    InitInv(n);
    RoundsFinish(Init(n), rounds);
  }
}
