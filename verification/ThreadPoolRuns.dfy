/** What the thread pool guarantees over whole runs: no wakeup is lost, threads are conserved, every accepted job runs
    exactly once, a blocking dispatcher is never refused, and every run comes to rest. */
module ThreadPoolRuns {
  import opened Counting
  import opened Options
  import opened ThreadPool

  // ---------- no lost wakeup, no leaked thread ----------

  /** While nobody holds the pool mutex, every listed thread can be started: it is not created yet or it waits. */
  lemma ListedThreadsWait(s: State, t: nat)
    requires Safe(s) && s.pool == Nobody && t in s.idle
    ensures t < |s.workers| && (s.workers[t] == NotCreated || s.workers[t] == Suspended)
  {
    assert ThreadOk(s, t);
  }

  /** The dispatcher signals or creates only a thread that will notice: the signal is not lost, the list does not hold
      the thread, and the argument is in place. */
  lemma SignalIsHeard(s: State)
    requires Safe(s) && s.disp.Exec?
    ensures s.disp.t < |s.workers| && s.disp.t !in s.idle && s.args[s.disp.t] == s.disp.job
    ensures var s' := DispatchStep(s).value; Pending(s'.workers[s.disp.t]) && s'.accepted == s.accepted + [s.disp.job]
  {
    assert ThreadOk(s, s.disp.t);
  }

  /** A dispatch is refused only when every thread is busy. */
  lemma RefusedOnlyWhenAllBusy(s: State, t: nat)
    requires Safe(s) && s.disp.GotNone? && t < |s.workers|
    ensures !ListedPc(s.workers[t])
  {
    assert ThreadOk(s, t);
  }

  ghost function Busy(s: State): set<nat> {
    set t: nat | t < |s.workers| && !ListedPc(s.workers[t])
  }

  ghost function Hand(s: State): set<nat> {
    set t: nat | t < |s.workers| && InHand(s.disp, t)
  }

  lemma ThreeParts<T>(a: set<T>, b: set<T>, c: set<T>, all: set<T>)
    requires all == a + b + c && a !! b && a !! c && b !! c
    ensures |all| == |a| + |b| + |c|
  {
  }

  // Every thread is in exactly one of the three.
  lemma ListedBusyOrInHand(s: State)
    requires Safe(s)
    ensures var listed, busy, hand := Elements(s.idle), Busy(s), Hand(s);
            Below(|s.workers|) == listed + busy + hand && listed !! busy && listed !! hand && busy !! hand
  {
    hide Safe, ListedPc, InHand;
    forall t: nat
      ensures t in Below(|s.workers|) <==> t in s.idle || t in Busy(s) || t in Hand(s)
      ensures !(t in s.idle && t in Busy(s)) && !(t in s.idle && t in Hand(s)) && !(t in Busy(s) && t in Hand(s))
    {
      Partition(s, t);
    }
  }

  /** Threads are conserved: listed, busy and in-hand threads add up to all of them. */
  lemma ThreadsConserved(s: State)
    requires Safe(s)
    ensures |s.idle| + |Busy(s)| + |Hand(s)| == |s.workers| && |Hand(s)| <= 1
  {
    OneInHand(s);
    hide *;
    ListedBusyOrInHand(s);
    NoDuplicates(s);
    DistinctCount(s.idle);
    ThreeParts(Elements(s.idle), Busy(s), Hand(s), Below(|s.workers|));
  }

  lemma OneInHand(s: State)
    ensures |Hand(s)| <= 1
  {
    if t :| t in Hand(s) {
      assert Hand(s) == {t};
    }
  }

  lemma NoDuplicates(s: State)
    requires Safe(s)
    ensures Distinct(s.idle)
  {
  }

  lemma Partition(s: State, t: nat)
    requires Safe(s)
    ensures t in s.idle ==> t < |s.workers|
    ensures t < |s.workers| ==> (t in s.idle <==> ListedPc(s.workers[t]) && !InHand(s.disp, t))
    ensures t < |s.workers| ==> (InHand(s.disp, t) ==> ListedPc(s.workers[t]))
  {
    assert t < |s.workers| ==> ThreadOk(s, t);
  }

  // ---------- every accepted job runs exactly once ----------

  lemma {:induction false} PendingSame(w: seq<WorkerPc>, args: seq<Job>, w': seq<WorkerPc>, args': seq<Job>, k: nat)
    requires k <= |w| == |args| && k <= |w'| == |args'|
    requires forall i | 0 <= i < k :: Pending(w'[i]) == Pending(w[i]) && (Pending(w[i]) ==> args'[i] == args[i])
    ensures PendingJobs(w', args', k) == PendingJobs(w, args, k)
  {
    if k == 0 {
    } else {
      PendingSame(w, args, w', args', k - 1);
    }
  }

  // Thread `t` becomes pending; nothing else changes.
  lemma {:induction false} PendingGains(w: seq<WorkerPc>, w': seq<WorkerPc>, args: seq<Job>, t: nat, k: nat)
    requires t < k <= |w| == |w'| == |args| && !Pending(w[t]) && Pending(w'[t])
    requires forall i | 0 <= i < k && i != t :: w'[i] == w[i]
    ensures PendingJobs(w', args, k) == PendingJobs(w, args, k) + multiset{args[t]}
  {
    if t == k - 1 {
      PendingSame(w, args, w', args, k - 1);
    } else {
      PendingGains(w, w', args, t, k - 1);
    }
  }

  lemma WorkAccounted(s: State, t: nat)
    requires Sized(s) && Safe(s) && Accounted(s) && t < |s.workers| && WorkStep(s, t).Some?
    ensures Sized(WorkStep(s, t).value) && Accounted(WorkStep(s, t).value)
  {
    hide Safe, ThreadOk, PendingJobs;
    var s' := WorkStep(s, t).value;
    if s.workers[t].Running? {
      PendingGains(s'.workers, s.workers, s.args, t, |s.workers|);
    } else {
      PendingSame(s.workers, s.args, s'.workers, s'.args, |s.workers|);
    }
  }

  lemma DispatchAccounted(s: State)
    requires Sized(s) && Safe(s) && Accounted(s) && DispatchStep(s).Some?
    ensures Sized(DispatchStep(s).value) && Accounted(DispatchStep(s).value)
  {
    hide Safe, ThreadOk, PendingJobs;
    var s' := DispatchStep(s).value;
    if s.disp.Exec? {
      ExecAccounted(s);
    } else {
      if s.disp.Prepare? {
        NotPendingInHand(s);
      }
      PendingSame(s.workers, s.args, s'.workers, s'.args, |s.workers|);
    }
  }

  lemma ExecAccounted(s: State)
    requires Sized(s) && Safe(s) && Accounted(s) && s.disp.Exec?
    ensures DispatchStep(s).Some? && Sized(DispatchStep(s).value) && Accounted(DispatchStep(s).value)
  {
    hide Safe, ThreadOk, PendingJobs;
    SignalIsHeard(s);
    NotPendingInHand(s);
    var s' := DispatchStep(s).value;
    PendingGains(s.workers, s'.workers, s.args, s.disp.t, |s.workers|);
  }

  lemma NotPendingInHand(s: State)
    requires Safe(s) && (s.disp.Prepare? || s.disp.Exec?)
    ensures s.disp.t < |s.workers| && !Pending(s.workers[s.disp.t])
  {
    assert ThreadOk(s, s.disp.t);
  }

  /** Accepted jobs are the ones that ran and the ones held by threads that still have to run them. */
  lemma StepAccounted(s: State, a: Action)
    requires Sized(s) && Safe(s) && Accounted(s) && Apply(s, a).Some?
    ensures Sized(Apply(s, a).value) && Accounted(Apply(s, a).value)
  {
    hide Safe, WorkStep, DispatchStep, PendingJobs;
    match a
    case Work(t) => WorkAccounted(s, t);
    case Dispatch => DispatchAccounted(s);
    case Start(job, block) =>
  }

  // ---------- runs ----------

  ghost predicate Steps(ss: seq<State>, acts: seq<Action>) {
    && |ss| == |acts| + 1
    && forall i | 0 <= i < |acts| :: Sized(ss[i]) && Apply(ss[i], acts[i]) == Some(ss[i + 1])
  }

  ghost predicate IsRun(ss: seq<State>, acts: seq<Action>) {
    Steps(ss, acts) && Init(ss[0])
  }

  lemma {:induction false} NonePending(w: seq<WorkerPc>, args: seq<Job>, k: nat)
    requires k <= |w| == |args| && forall t | 0 <= t < k :: !Pending(w[t])
    ensures PendingJobs(w, args, k) == multiset{}
  {
    if k == 0 {
    } else {
      NonePending(w, args, k - 1);
    }
  }

  /** In every state of every run, safety and the job account hold. */
  lemma {:induction false} RunSafe(ss: seq<State>, acts: seq<Action>, i: nat)
    requires IsRun(ss, acts) && i < |ss|
    ensures Safe(ss[i]) && Accounted(ss[i])
  {
    if i == 0 {
      InitSafe(ss[0]);
      NonePending(ss[0].workers, ss[0].args, |ss[0].workers|);
    } else {
      RunSafe(ss, acts, i - 1);
      assert Apply(ss[i - 1], acts[i - 1]) == Some(ss[i]);
      StepSafe(ss[i - 1], acts[i - 1]);
      StepAccounted(ss[i - 1], acts[i - 1]);
    }
  }

  // ---------- the blocking dispatcher ----------

  predicate AllBlocking(acts: seq<Action>) {
    forall i | 0 <= i < |acts| && acts[i].Start? :: acts[i].block
  }

  function Started(acts: seq<Action>): seq<Job> {
    if acts == [] then []
    else
      var a := acts[|acts| - 1];
      Started(acts[..|acts| - 1]) + if a.Start? then [a.job] else []
  }

  // The dispatch under way, until its thread is started.
  function Asking(d: DispatcherPc): seq<Job> {
    if d.GetLock? || d.Dequeue? || d.GetUnlock? || d.Prepare? || d.Exec? then [d.job] else []
  }

  // With only blocking dispatches, every thread but the one in hand or in use is back in the list, and what is
  // accepted but has not run is at most the job of the thread in use.
  ghost predicate OneAtATime(s: State)
    requires Sized(s)
  {
    && s.refused == 0 && !s.disp.GotNone?
    && (s.disp.GetLock? || s.disp.Dequeue? || s.disp.GetUnlock? || s.disp.Prepare? || s.disp.Exec? ==> s.disp.block)
    && (forall t | 0 <= t < |s.workers| && !InHand(s.disp, t) && !SemUsed(s.disp, t) :: t in s.idle)
    && s.accepted == s.ran + Unrun(s)
  }

  function Unrun(s: State): seq<Job>
    requires Sized(s)
  {
    var d := s.disp;
    if (d.SemLock? || d.SemHeld? || d.SemWait?) && d.t < |s.workers| && Pending(s.workers[d.t]) then [s.args[d.t]]
    else []
  }

  lemma StepOneAtATime(s: State, a: Action)
    requires Safe(s) && OneAtATime(s) && Apply(s, a).Some? && 0 < |s.workers|
    requires a.Start? ==> a.block
    ensures Sized(Apply(s, a).value) && OneAtATime(Apply(s, a).value)
  {
    SizedOf(s);
    hide Safe, OneAtATime, StartStep, DispatchStep, WorkStep;
    match a
    case Start(job, block) => StartOneAtATime(s, job);
    case Dispatch => DispatchOneAtATime(s);
    case Work(t) => WorkOneAtATime(s, t);
  }

  lemma StartOneAtATime(s: State, job: Job)
    requires Sized(s) && OneAtATime(s) && StartStep(s, job, true).Some?
    ensures Sized(StartStep(s, job, true).value) && OneAtATime(StartStep(s, job, true).value)
  {
  }

  lemma SizedOf(s: State)
    requires Safe(s)
    ensures Sized(s)
  {
  }

  // A blocking dispatcher finds a listed thread.
  lemma SomeoneListed(s: State)
    requires Safe(s) && OneAtATime(s) && s.disp.Dequeue? && 0 < |s.workers|
    ensures s.idle != [] && Distinct(s.idle) && s.disp.block
  {
    assert 0 in s.idle;
  }

  // When the dispatcher gives the semaphore back, the job has run and its thread is listed again.
  lemma JobIsOver(s: State)
    requires Safe(s) && (s.disp.SemHeld? || s.disp.Destroy?)
    ensures s.disp.t < |s.workers| && s.sems[s.disp.t].Some?
    ensures s.disp.Destroy? ==> s.disp.t in s.idle
    ensures s.disp.SemHeld? && s.sems[s.disp.t].value.permits > 0 ==> !Pending(s.workers[s.disp.t])
  {
    assert ThreadOk(s, s.disp.t);
  }

  lemma DispatchOneAtATime(s: State)
    requires Safe(s) && OneAtATime(s) && DispatchStep(s).Some? && 0 < |s.workers|
    ensures Sized(DispatchStep(s).value) && OneAtATime(DispatchStep(s).value)
  {
    SizedOf(s);
    if s.disp.Dequeue? {
      SomeoneListed(s);
      TailMembers(s.idle);
    } else if s.disp.Exec? {
      SignalIsHeard(s);
    } else if s.disp.SemHeld? || s.disp.Destroy? {
      JobIsOver(s);
    }
    hide Safe, ThreadOk;
  }

  // A thread with a job to run is the one the blocking dispatcher is on.
  lemma PendingIsInUse(s: State, u: nat)
    requires Safe(s) && OneAtATime(s) && u < |s.workers| && Pending(s.workers[u])
    ensures (s.disp.SemLock? || s.disp.SemHeld? || s.disp.SemWait?) && s.disp.t == u
  {
    assert ThreadOk(s, u);
  }

  lemma WorkOneAtATime(s: State, u: nat)
    requires Safe(s) && OneAtATime(s) && u < |s.workers| && WorkStep(s, u).Some?
    ensures Sized(WorkStep(s, u).value) && OneAtATime(WorkStep(s, u).value)
  {
    var s', pc := WorkStep(s, u).value, s.workers[u];
    assert ThreadOk(s, u);
    if Pending(pc) {
      PendingIsInUse(s, u);
    }
    hide ThreadOk, Safe;
    assert s'.disp == s.disp || (s.disp == SemWait(u) && s'.disp == SemWoken(u) && !Pending(pc));
    assert s'.accepted == s'.ran + Unrun(s');
  }

  lemma {:induction false} RunOneAtATime(ss: seq<State>, acts: seq<Action>, i: nat)
    requires IsRun(ss, acts) && AllBlocking(acts) && i < |ss| && 0 < |ss[0].workers|
    ensures Safe(ss[i]) && OneAtATime(ss[i]) && |ss[i].workers| == |ss[0].workers|
    ensures ss[i].accepted + Asking(ss[i].disp) == Started(acts[..i])
  {
    RunSafe(ss, acts, i);
    if i == 0 {
    } else {
      RunOneAtATime(ss, acts, i - 1);
      var s, a := ss[i - 1], acts[i - 1];
      assert Apply(s, a) == Some(ss[i]);
      assert acts[..i][..i - 1] == acts[..i - 1];
      StepOneAtATime(s, a);
      StepAsks(s, a);
    }
  }

  lemma StepAsks(s: State, a: Action)
    requires Safe(s) && OneAtATime(s) && Apply(s, a).Some?
    ensures var s' := Apply(s, a).value;
            && |s'.workers| == |s.workers|
            && (!s'.disp.GotNone? ==> s'.accepted + Asking(s'.disp)
                                      == s.accepted + Asking(s.disp) + if a.Start? then [a.job] else [])
  {
    if a.Dispatch? && s.disp.Exec? {
      SignalIsHeard(s);
    }
  }

  /** With at least one thread and a dispatcher that blocks, no dispatch is ever refused, and whenever the dispatcher
      is idle the routines run so far are exactly the dispatched ones, in order, each with its own argument. */
  lemma BlockingDispatchRuns(ss: seq<State>, acts: seq<Action>)
    requires IsRun(ss, acts) && AllBlocking(acts) && 0 < |ss[0].workers|
    ensures var last := ss[|acts|]; last.refused == 0 && (last.disp.Idle? ==> last.ran == Started(acts))
  {
    RunOneAtATime(ss, acts, |acts|);
    assert acts[..|acts|] == acts;
  }

  // ---------- every dispatch ends one way or the other ----------

  // `a` is `b` with some elements left out.
  predicate IsPartOf(a: seq<Job>, b: seq<Job>) {
    if b == [] then a == []
    else
      var rest := b[..|b| - 1];
      IsPartOf(a, rest) || (a != [] && a[|a| - 1] == b[|b| - 1] && IsPartOf(a[..|a| - 1], rest))
  }

  lemma {:induction false} PartWithoutLast(a: seq<Job>, job: Job, b: seq<Job>)
    requires IsPartOf(a + [job], b)
    ensures IsPartOf(a, b)
    decreases |b|
  {
    if b == [] {
    } else {
      var rest := b[..|b| - 1];
      assert (a + [job])[..|a|] == a;
      if IsPartOf(a + [job], rest) {
        PartWithoutLast(a, job, rest);
      }
    }
  }

  lemma PartWithBoth(a: seq<Job>, job: Job, b: seq<Job>)
    requires IsPartOf(a, b)
    ensures IsPartOf(a + [job], b + [job])
  {
    assert (a + [job])[..|a|] == a && (b + [job])[..|b|] == b;
  }

  // A dispatch that has neither handed its job to a thread nor said no.
  function UnderWay(d: DispatcherPc): nat {
    if Asking(d) != [] || d.GotNone? then 1 else 0
  }

  // Every dispatch is accepted, refused or under way, and the accepted ones keep their order.
  predicate Tallied(s: State, started: seq<Job>) {
    && IsPartOf(s.accepted + Asking(s.disp), started)
    && |s.accepted| + s.refused + UnderWay(s.disp) == |started|
  }

  lemma StepTallied(s: State, a: Action, started: seq<Job>)
    requires Sized(s) && Apply(s, a).Some? && Tallied(s, started)
    ensures Tallied(Apply(s, a).value, started + if a.Start? then [a.job] else [])
  {
    hide IsPartOf;
    var s' := Apply(s, a).value;
    assert started + [] == started && s.accepted + [] == s.accepted && s'.accepted + [] == s'.accepted;
    if a.Start? {
      PartWithBoth(s.accepted, a.job, started);
    } else if Asking(s.disp) != [] && s'.disp != s.disp && s'.accepted == s.accepted && Asking(s'.disp) == [] {
      PartWithoutLast(s.accepted, s.disp.job, started);
    }
  }

  lemma {:induction false} RunTallied(ss: seq<State>, acts: seq<Action>, i: nat)
    requires IsRun(ss, acts) && i < |ss|
    ensures Tallied(ss[i], Started(acts[..i]))
  {
    if i == 0 {
    } else {
      RunTallied(ss, acts, i - 1);
      assert acts[..i][..i - 1] == acts[..i - 1];
      assert Apply(ss[i - 1], acts[i - 1]) == Some(ss[i]);
      hide *;
      StepTallied(ss[i - 1], acts[i - 1], Started(acts[..i - 1]));
    }
  }

  /** In every run, blocking or not, each dispatch that is over was accepted or refused, never both and never lost, and
      jobs were accepted in the order in which they were dispatched. */
  lemma EveryDispatchEnds(ss: seq<State>, acts: seq<Action>)
    requires IsRun(ss, acts)
    ensures var last := ss[|acts|]; UnderWay(last.disp) == 0 ==>
              |Started(acts)| == |last.accepted| + last.refused && IsPartOf(last.accepted, Started(acts))
    ensures var last := ss[|acts|]; last.refused == 0 && last.disp.Idle? ==> last.accepted == Started(acts)
  {
    RunTallied(ss, acts, |acts|);
    assert acts[..|acts|] == acts;
    var last := ss[|acts|];
    assert last.accepted + [] == last.accepted;
    if |last.accepted| == |Started(acts)| && IsPartOf(last.accepted, Started(acts)) {
      PartIsAll(last.accepted, Started(acts));
    }
  }

  lemma {:induction false} PartIsAll(a: seq<Job>, b: seq<Job>)
    requires IsPartOf(a, b)
    ensures |a| <= |b| && (|a| == |b| ==> a == b)
    decreases |b|
  {
    if b == [] {
    } else {
      var rest := b[..|b| - 1];
      if IsPartOf(a, rest) {
        PartIsAll(a, rest);
      } else {
        PartIsAll(a[..|a| - 1], rest);
        assert a == a[..|a| - 1] + [a[|a| - 1]] && b == rest + [b[|b| - 1]];
      }
    }
  }

  // ---------- every run comes to rest ----------

  function WorkerRank(pc: WorkerPc): nat {
    match pc
    case NotCreated => 0
    case Suspended => 0
    case Suspending => 1
    case PostDone => 2
    case PostHeld => 3
    case Posting => 4
    case Inserting => 5
    case WantPool => 6
    case Running => 7
    case Leaving => 8
    case Woken => 9
  }

  function DispatcherRank(d: DispatcherPc): nat {
    match d
    case Idle => 0
    case GotNone => 1
    case Destroy(_) => 1
    case SemLeave(_) => 2
    case SemWoken(_) => 3
    case SemWait(_) => 4
    case SemHeld(_) => 5
    case SemLock(_) => 6
    case Exec(_, _, _) => 16
    case Prepare(_, _, _) => 17
    case GetUnlock(_, _, _) => 18
    case Dequeue(_, _) => 19
    case GetLock(_, _) => 20
  }

  function RankSum(w: seq<WorkerPc>): nat {
    if w == [] then 0 else RankSum(w[..|w| - 1]) + WorkerRank(w[|w| - 1])
  }

  function Measure(s: State): nat {
    DispatcherRank(s.disp) + RankSum(s.workers)
  }

  lemma {:induction false} RankUpdate(w: seq<WorkerPc>, t: nat, pc: WorkerPc)
    requires t < |w|
    ensures RankSum(w[t := pc]) + WorkerRank(w[t]) == RankSum(w) + WorkerRank(pc)
    decreases |w|
  {
    var n := |w| - 1;
    var w' := w[t := pc];
    if t == n {
      assert w'[..n] == w[..n];
    } else {
      RankUpdate(w[..n], t, pc);
      assert w'[..n] == w[..n][t := pc];
    }
  }

  lemma WorkDescends(s: State, t: nat)
    requires Sized(s) && t < |s.workers| && WorkStep(s, t).Some?
    ensures Measure(WorkStep(s, t).value) < Measure(s)
  {
    hide RankSum;
    var s' := WorkStep(s, t).value;
    assert s'.workers == s.workers[t := s'.workers[t]];
    RankUpdate(s.workers, t, s'.workers[t]);
  }

  lemma DispatchDescends(s: State)
    requires Safe(s) && DispatchStep(s).Some?
    ensures Measure(DispatchStep(s).value) < Measure(s)
  {
    if s.disp.Exec? {
      SignalIsHeard(s);
      hide Safe, ThreadOk, RankSum;
      var t := s.disp.t;
      RankUpdate(s.workers, t, DispatchStep(s).value.workers[t]);
    }
  }

  /** Every step but the start of a dispatch brings the system closer to rest. */
  lemma StepDescends(s: State, a: Action)
    requires Sized(s) && Safe(s) && !a.Start? && Apply(s, a).Some?
    ensures Measure(Apply(s, a).value) < Measure(s)
  {
    hide Safe, ThreadOk, DispatchStep, WorkStep, Measure;
    match a
    case Work(t) => WorkDescends(s, t);
    case Dispatch => DispatchDescends(s);
  }

  ghost predicate AtRest(s: State) {
    s.disp.Idle? && forall t | 0 <= t < |s.workers| :: s.workers[t] == NotCreated || s.workers[t] == Suspended
  }

  ghost predicate CanMove(s: State)
    requires Sized(s)
  {
    DispatchStep(s).Some? || exists t: nat :: t < |s.workers| && WorkStep(s, t).Some?
  }

  /** No deadlock: unless everything is at rest, the dispatcher or some thread can take a step. */
  lemma NoDeadlock(s: State)
    requires Safe(s) && !AtRest(s)
    ensures CanMove(s)
  {
    if s.pool.Worker? {
      var t := s.pool.t;
      assert ThreadOk(s, t);
      if s.workers[t].Posting? && s.sems[t].Some? && s.sems[t].value.owner != Nobody {
        assert DispatchStep(s).Some?;
      } else {
        assert WorkStep(s, t).Some?;
      }
    } else if s.pool == Dispatcher {
      assert DispatchStep(s).Some?;
    } else if t: nat :| t < |s.workers| && s.workers[t] != NotCreated && s.workers[t] != Suspended {
      assert ThreadOk(s, t);
      assert WorkStep(s, t).Some?;
    } else {
      assert !s.disp.Idle?;
      if !s.disp.GetLock? {
        assert ThreadOk(s, s.disp.t);
      }
      assert DispatchStep(s).Some?;
    }
  }

  predicate NoStarts(acts: seq<Action>) {
    forall i | 0 <= i < |acts| :: !acts[i].Start?
  }

  lemma {:induction false} StepsDescend(ss: seq<State>, acts: seq<Action>, i: nat)
    requires Steps(ss, acts) && NoStarts(acts) && Safe(ss[0]) && i < |ss|
    ensures Safe(ss[i]) && Measure(ss[i]) + i <= Measure(ss[0])
  {
    if i == 0 {
    } else {
      StepsDescend(ss, acts, i - 1);
      assert Apply(ss[i - 1], acts[i - 1]) == Some(ss[i]);
      StepSafe(ss[i - 1], acts[i - 1]);
      StepDescends(ss[i - 1], acts[i - 1]);
    }
  }

  /** From any reachable state, under every schedule: the dispatch under way and all routines finish within `Measure`
      steps, and a schedule that cannot go on has brought everything to rest. */
  lemma EveryScheduleComesToRest(ss: seq<State>, acts: seq<Action>)
    requires Steps(ss, acts) && NoStarts(acts) && Safe(ss[0])
    ensures |acts| <= Measure(ss[0])
    ensures Sized(ss[|acts|]) && (!CanMove(ss[|acts|]) ==> AtRest(ss[|acts|]))
  {
    StepsDescend(ss, acts, |acts|);
    if !AtRest(ss[|acts|]) {
      NoDeadlock(ss[|acts|]);
    }
  }

  /** Once a run has come to rest, each job has run exactly as often as it was accepted. */
  lemma AcceptedJobsRan(ss: seq<State>, acts: seq<Action>)
    requires IsRun(ss, acts) && AtRest(ss[|acts|])
    ensures multiset(ss[|acts|].ran) == multiset(ss[|acts|].accepted)
  {
    var s := ss[|acts|];
    RunSafe(ss, acts, |acts|);
    NonePending(s.workers, s.args, |s.workers|);
  }
}
