/** The thread pool protocol: one dispatcher and `n` workers over the pool mutex, the list of idle threads, each
    thread's condition variable, and the semaphore a blocking dispatch waits on. A step is one lock, unlock, wait,
    signal or access made while a mutex is held. */
module ThreadPool {
  import opened Counting
  import opened Options

  type Job = nat

  datatype Owner = Nobody | Dispatcher | Worker(t: nat)

  datatype Sem = Sem(permits: int, owner: Owner)

  // Where a thread stands: not created, in its routine, or somewhere in its resuspension.
  datatype WorkerPc =
    | NotCreated
    | Running      // about to run the routine with the argument it finds
    | WantPool     // about to lock the pool mutex
    | Inserting    // holds the pool mutex, not yet listed
    | Posting      // listed, about to look for a semaphore
    | PostHeld     // holds the semaphore's mutex, about to post
    | PostDone     // posted, about to release the semaphore's mutex
    | Suspending   // about to wait on its condition variable
    | Suspended    // waiting; the pool mutex is released
    | Woken        // signalled, about to lock the pool mutex again
    | Leaving      // about to release the pool mutex

  datatype DispatcherPc =
    | Idle
    | GetLock(job: Job, block: bool)
    | Dequeue(job: Job, block: bool)
    | GotNone
    | GetUnlock(job: Job, block: bool, t: nat)
    | Prepare(job: Job, block: bool, t: nat)
    | Exec(job: Job, block: bool, t: nat)
    | SemLock(t: nat)
    | SemHeld(t: nat)
    | SemWait(t: nat)    // waiting on the semaphore; its mutex is released
    | SemWoken(t: nat)
    | SemLeave(t: nat)
    | Destroy(t: nat)

  // `accepted`, `ran` and `refused` are histories: jobs handed to a thread, routines run, dispatches that said no.
  datatype State = State(
    workers: seq<WorkerPc>, idle: seq<nat>, pool: Owner, disp: DispatcherPc,
    sems: seq<Option<Sem>>, args: seq<Job>,
    accepted: seq<Job>, ran: seq<Job>, refused: nat)

  datatype Action = Start(job: Job, block: bool) | Dispatch | Work(t: nat)

  // ---------- steps ----------

  function StartStep(s: State, job: Job, block: bool): Option<State> {
    if s.disp.Idle? then Some(s.(disp := GetLock(job, block))) else None
  }

  function DispatchStep(s: State): Option<State> {
    match s.disp
    case Idle => None
    case GetLock(job, block) =>
      if s.pool == Nobody then Some(s.(pool := Dispatcher, disp := Dequeue(job, block))) else None
    case Dequeue(job, block) =>
      if s.idle == [] then Some(s.(disp := GotNone))
      else Some(s.(idle := s.idle[1..], disp := GetUnlock(job, block, s.idle[0])))
    case GotNone => Some(s.(pool := Nobody, disp := Idle, refused := s.refused + 1))
    case GetUnlock(job, block, t) => Some(s.(pool := Nobody, disp := Prepare(job, block, t)))
    case Prepare(job, block, t) =>
      if t < |s.sems| && t < |s.args| then
        Some(s.(sems := if block then s.sems[t := Some(Sem(0, Nobody))] else s.sems,
                args := s.args[t := job], disp := Exec(job, block, t)))
      else None
    case Exec(job, block, t) =>
      if t in s.idle then Some(s.(disp := Idle, refused := s.refused + 1))
      else if t < |s.workers| then
        // create the thread, or signal its condition variable; a signal to a thread that does not wait is lost
        var pc := s.workers[t];
        var pc' := if pc.NotCreated? then Running else if pc.Suspended? then Woken else pc;
        Some(s.(workers := s.workers[t := pc'], accepted := s.accepted + [job],
                disp := if block then SemLock(t) else Idle))
      else None
    case SemLock(t) =>
      if t < |s.sems| && s.sems[t].Some? && s.sems[t].value.owner == Nobody then
        Some(s.(sems := s.sems[t := Some(s.sems[t].value.(owner := Dispatcher))], disp := SemHeld(t)))
      else None
    case SemHeld(t) =>
      if t < |s.sems| && s.sems[t].Some? then
        var permits := s.sems[t].value.permits - 1;
        if permits < 0 then Some(s.(sems := s.sems[t := Some(Sem(permits, Nobody))], disp := SemWait(t)))
        else Some(s.(sems := s.sems[t := Some(Sem(permits, Dispatcher))], disp := SemLeave(t)))
      else None
    case SemWait(t) => None
    case SemWoken(t) =>
      if t < |s.sems| && s.sems[t].Some? && s.sems[t].value.owner == Nobody then
        Some(s.(sems := s.sems[t := Some(s.sems[t].value.(owner := Dispatcher))], disp := SemLeave(t)))
      else None
    case SemLeave(t) =>
      if t < |s.sems| && s.sems[t].Some? then
        Some(s.(sems := s.sems[t := Some(s.sems[t].value.(owner := Nobody))], disp := Destroy(t)))
      else None
    case Destroy(t) =>
      if t < |s.sems| then Some(s.(sems := s.sems[t := None], disp := Idle)) else None
  }

  function WorkStep(s: State, t: nat): Option<State>
    requires t < |s.workers| == |s.sems| == |s.args|
  {
    match s.workers[t]
    case NotCreated => None
    case Running => Some(s.(workers := s.workers[t := WantPool], ran := s.ran + [s.args[t]]))
    case WantPool =>
      if s.pool == Nobody then Some(s.(pool := Worker(t), workers := s.workers[t := Inserting])) else None
    case Inserting => Some(s.(idle := [t] + s.idle, workers := s.workers[t := Posting]))
    case Posting =>
      if s.sems[t].None? then Some(s.(workers := s.workers[t := Suspending]))
      else if s.sems[t].value.owner == Nobody then
        Some(s.(sems := s.sems[t := Some(s.sems[t].value.(owner := Worker(t)))], workers := s.workers[t := PostHeld]))
      else None
    case PostHeld =>
      if s.sems[t].Some? then
        var permits := s.sems[t].value.permits;
        Some(s.(sems := s.sems[t := Some(s.sems[t].value.(permits := permits + 1))],
                workers := s.workers[t := PostDone],
                disp := if permits < 0 && s.disp == SemWait(t) then SemWoken(t) else s.disp))
      else None
    case PostDone =>
      if s.sems[t].Some? then
        Some(s.(sems := s.sems[t := Some(s.sems[t].value.(owner := Nobody))], workers := s.workers[t := Suspending]))
      else None
    case Suspending => Some(s.(pool := Nobody, workers := s.workers[t := Suspended]))
    case Suspended => None
    case Woken =>
      if s.pool == Nobody then Some(s.(pool := Worker(t), workers := s.workers[t := Leaving])) else None
    case Leaving => Some(s.(pool := Nobody, workers := s.workers[t := Running]))
  }

  predicate Sized(s: State) {
    |s.workers| == |s.sems| == |s.args|
  }

  function Apply(s: State, a: Action): Option<State>
    requires Sized(s)
  {
    match a
    case Start(job, block) => StartStep(s, job, block)
    case Dispatch => DispatchStep(s)
    case Work(t) => if t < |s.workers| then WorkStep(s, t) else None
  }

  // ---------- the invariant ----------

  predicate HoldsPool(pc: WorkerPc) {
    pc.Inserting? || pc.Posting? || pc.PostHeld? || pc.PostDone? || pc.Suspending? || pc.Leaving?
  }

  predicate DispatcherHoldsPool(d: DispatcherPc) {
    d.Dequeue? || d.GotNone? || d.GetUnlock?
  }

  // Taken out of the list and not yet started.
  predicate InHand(d: DispatcherPc, t: nat) {
    (d.GetUnlock? || d.Prepare? || d.Exec?) && d.t == t
  }

  // The phase in which thread `t` has the semaphore of a blocking dispatch.
  predicate SemPhase(d: DispatcherPc, t: nat) {
    (d.Exec? && d.block && d.t == t) || SemUsed(d, t)
  }

  predicate SemUsed(d: DispatcherPc, t: nat) {
    (d.SemLock? || d.SemHeld? || d.SemWait? || d.SemWoken? || d.SemLeave? || d.Destroy?) && d.t == t
  }

  predicate ListedPc(pc: WorkerPc) {
    pc.NotCreated? || pc.Suspended? || pc.Posting? || pc.PostHeld? || pc.PostDone? || pc.Suspending?
  }

  // Has a job to run and has not run it.
  predicate Pending(pc: WorkerPc) {
    pc.Woken? || pc.Leaving? || pc.Running?
  }

  // Between the start of a job and the post that reports its end.
  predicate Unposted(pc: WorkerPc) {
    Pending(pc) || pc.WantPool? || pc.Inserting? || pc.Posting? || pc.PostHeld?
  }

  function Decremented(d: DispatcherPc): int {
    if d.SemWait? || d.SemWoken? || d.SemLeave? || d.Destroy? then 1 else 0
  }

  predicate ThreadOk(s: State, t: nat)
    requires Sized(s) && t < |s.workers|
  {
    var pc := s.workers[t];
    && (s.pool == Worker(t) <==> HoldsPool(pc))
    && (t in s.idle <==> ListedPc(pc) && !InHand(s.disp, t))
    && (InHand(s.disp, t) ==> pc.NotCreated? || pc.Suspended?)
    && (s.sems[t].Some? <==> SemPhase(s.disp, t))
    && (pc.PostHeld? || pc.PostDone? ==> s.sems[t].Some?)
    && (s.sems[t].Some? ==> SemOk(s.sems[t].value, s.disp, pc, t))
    && (InHand(s.disp, t) && s.disp.Exec? ==> s.args[t] == s.disp.job)
  }

  predicate SemOk(sem: Sem, d: DispatcherPc, pc: WorkerPc, t: nat) {
    && (sem.owner == Worker(t) <==> pc.PostHeld? || pc.PostDone?)
    && (sem.owner == Dispatcher <==> d.SemHeld? || d.SemLeave?)
    && (sem.owner.Worker? ==> sem.owner.t == t)
    && (SemUsed(d, t) ==> sem.permits + Decremented(d) == if Unposted(pc) then 0 else 1)
    && (!SemUsed(d, t) ==> sem == Sem(0, Nobody))
    && (d.SemWait? ==> Unposted(pc))
    && (d.SemWoken? || d.SemLeave? || d.Destroy? ==> !Unposted(pc))
    && (d.Destroy? ==> sem.owner == Nobody)
  }

  predicate DispatcherThread(d: DispatcherPc, n: nat) {
    (d.GetUnlock? || d.Prepare? || d.Exec? || d.SemLock? || d.SemHeld? || d.SemWait? || d.SemWoken? || d.SemLeave?
     || d.Destroy?) ==> d.t < n
  }

  // The jobs of the threads below `k` that still have to run theirs.
  ghost function PendingJobs(workers: seq<WorkerPc>, args: seq<Job>, k: nat): multiset<Job>
    requires k <= |workers| == |args|
  {
    if k == 0 then multiset{}
    else PendingJobs(workers, args, k - 1) + if Pending(workers[k - 1]) then multiset{args[k - 1]} else multiset{}
  }

  ghost predicate Accounted(s: State)
    requires Sized(s)
  {
    multiset(s.accepted) == multiset(s.ran) + PendingJobs(s.workers, s.args, |s.workers|)
  }

  ghost predicate Safe(s: State) {
    && Sized(s)
    && Distinct(s.idle) && (forall t | t in s.idle :: t < |s.workers|)
    && DispatcherThread(s.disp, |s.workers|)
    && (s.pool == Dispatcher <==> DispatcherHoldsPool(s.disp))
    && (s.pool.Worker? ==> s.pool.t < |s.workers|)
    && (s.disp.GotNone? ==> s.idle == [])
    && (forall t | 0 <= t < |s.workers| :: ThreadOk(s, t))
  }

  ghost predicate Init(s: State) {
    && Sized(s) && s.pool == Nobody && s.disp == Idle
    && Distinct(s.idle) && (forall t :: t in s.idle <==> 0 <= t < |s.workers|)
    && (forall t | 0 <= t < |s.workers| :: s.workers[t] == NotCreated && s.sems[t] == None)
    && s.accepted == [] && s.ran == [] && s.refused == 0
  }

  lemma InitSafe(s: State)
    requires Init(s)
    ensures Safe(s)
  {
  }

  /** Every step keeps the invariant. */
  lemma StepSafe(s: State, a: Action)
    requires Safe(s) && Apply(s, a).Some?
    ensures Safe(Apply(s, a).value)
  {
    match a
    case Start(job, block) => StartSafe(s, job, block);
    case Dispatch => DispatchSafe(s);
    case Work(t) => WorkSafe(s, t);
  }

  lemma StartSafe(s: State, job: Job, block: bool)
    requires Safe(s) && StartStep(s, job, block).Some?
    ensures Safe(StartStep(s, job, block).value)
  {
    forall t: nat | t < |s.workers|
      ensures ThreadOk(StartStep(s, job, block).value, t)
    {
      assert ThreadOk(s, t);
    }
  }

  lemma TailMembers(idle: seq<nat>)
    requires idle != [] && Distinct(idle)
    ensures Distinct(idle[1..]) && forall t :: t in idle[1..] <==> t in idle && t != idle[0]
  {
    forall t | t in idle && t != idle[0]
      ensures t in idle[1..]
    {
      var i :| 0 <= i < |idle| && idle[i] == t;
      assert idle[1..][i - 1] == t;
    }
  }

  lemma DispatchSafe(s: State)
    requires Safe(s) && DispatchStep(s).Some?
    ensures Safe(DispatchStep(s).value)
  {
    var s' := DispatchStep(s).value;
    if s.disp.Dequeue? && s.idle != [] {
      TailMembers(s.idle);
      assert s.idle[0] in s.idle;
    }
    forall t: nat | t < |s.workers|
      ensures ThreadOk(s', t)
    {
      DispatchKeeps(s, t);
    }
    if s.disp.Exec? && s.disp.t !in s.idle {
      assert ThreadOk(s, s.disp.t);
    }
  }

  lemma DispatchKeeps(s: State, t: nat)
    requires Safe(s) && DispatchStep(s).Some? && t < |s.workers|
    ensures Sized(DispatchStep(s).value) && |DispatchStep(s).value.workers| == |s.workers|
    ensures ThreadOk(DispatchStep(s).value, t)
  {
    if s.disp.Dequeue? {
      DequeueKeeps(s, t);
    } else if s.disp.GetLock? || s.disp.GotNone? || s.disp.GetUnlock? {
      assert ThreadOk(s, t);
    } else if s.disp.Prepare? || s.disp.Exec? {
      HandoverKeeps(s, t);
    } else {
      SemKeeps(s, t);
    }
  }

  lemma DequeueKeeps(s: State, t: nat)
    requires Safe(s) && s.disp.Dequeue? && t < |s.workers|
    ensures ThreadOk(DispatchStep(s).value, t)
  {
    assert ThreadOk(s, t);
    if s.idle != [] {
      TailMembers(s.idle);
      var u := s.idle[0];
      assert u in s.idle && u < |s.workers|;
      assert ThreadOk(s, u);
    }
  }

  lemma HandoverKeeps(s: State, t: nat)
    requires Safe(s) && (s.disp.Prepare? || s.disp.Exec?) && t < |s.workers|
    ensures ThreadOk(DispatchStep(s).value, t)
  {
    assert ThreadOk(s, t);
    assert ThreadOk(s, s.disp.t);
  }

  lemma SemKeeps(s: State, t: nat)
    requires Safe(s) && DispatchStep(s).Some? && t < |s.workers|
    requires s.disp.SemLock? || s.disp.SemHeld? || s.disp.SemWoken? || s.disp.SemLeave? || s.disp.Destroy?
    ensures ThreadOk(DispatchStep(s).value, t)
  {
    assert ThreadOk(s, t);
  }

  lemma WorkSafe(s: State, u: nat)
    requires Safe(s) && u < |s.workers| && WorkStep(s, u).Some?
    ensures Safe(WorkStep(s, u).value)
  {
    var s' := WorkStep(s, u).value;
    assert ThreadOk(s, u);
    forall t: nat | t < |s.workers|
      ensures ThreadOk(s', t)
    {
      WorkKeeps(s, u, t);
    }
  }

  lemma WorkKeeps(s: State, u: nat, t: nat)
    requires Safe(s) && u < |s.workers| && WorkStep(s, u).Some? && t < |s.workers|
    ensures Sized(WorkStep(s, u).value) && |WorkStep(s, u).value.workers| == |s.workers|
    ensures ThreadOk(WorkStep(s, u).value, t)
  {
    assert ThreadOk(s, t);
    assert ThreadOk(s, u);
  }
}
