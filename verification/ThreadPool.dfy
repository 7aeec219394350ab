/** The server's thread pool: workers that sleep on a condition variable, threads that enqueue, one that shuts down. */
module ThreadPool {
  import opened Basics

  /** Jobs are numbered in the order in which they enter the queue. */
  type Job = nat

  datatype Worker = WantLock | Checking | Sleeping | Executing(job: Job) | Exited
  datatype Producer = Resting | WantPush | Pushing | Notifying
  datatype Closer = Open | WantClose | Closing | NotifyingAll | Joining

  datatype Agent = W(i: nat) | P(i: nat) | C

  /** `entered`, `taken` and `done` record the past: jobs pushed, jobs popped, jobs finished. */
  datatype State = State(
    workers: seq<Worker>, producers: seq<Producer>, closer: Closer,
    mutex: Option<Agent>, jobs: seq<Job>, shutdown: bool,
    entered: nat, taken: seq<Job>, done: seq<Job>)

  datatype Action =
    | Lock(i: nat) | Check(i: nat) | Execute(i: nat) | Spurious(i: nat)
    | Enqueue(j: nat) | LockPush(j: nat) | Push(j: nat) | NotifyOne(j: nat, woken: Option<nat>)
    | Shutdown | LockClose | Close | NotifyAll

  function Init(n: nat, m: nat): State
  {
    State(seq(n, _ => WantLock), seq(m, _ => Resting), Open, None, [], false, 0, [], [])
  }

  predicate Enabled(s: State, a: Action)
  {
    match a
    case Lock(i) => i < |s.workers| && s.workers[i].WantLock? && s.mutex == None
    case Check(i) => i < |s.workers| && s.workers[i].Checking?
    case Execute(i) => i < |s.workers| && s.workers[i].Executing?
    case Spurious(i) => i < |s.workers| && s.workers[i].Sleeping?
    case Enqueue(j) => j < |s.producers| && s.producers[j].Resting?
    case LockPush(j) => j < |s.producers| && s.producers[j].WantPush? && s.mutex == None
    case Push(j) => j < |s.producers| && s.producers[j].Pushing?
    case NotifyOne(j, woken) =>
      j < |s.producers| && s.producers[j].Notifying? &&
      // some sleeping worker is woken, if there is one
      (match woken
       case Some(i) => i < |s.workers| && s.workers[i].Sleeping?
       case None => forall i :: 0 <= i < |s.workers| ==> !s.workers[i].Sleeping?)
    case Shutdown => s.closer.Open?
    case LockClose => s.closer.WantClose? && s.mutex == None
    case Close => s.closer.Closing?
    case NotifyAll => s.closer.NotifyingAll?
  }

  function Wake(workers: seq<Worker>): (r: seq<Worker>)
    ensures |r| == |workers|
    ensures forall i :: 0 <= i < |r| ==> r[i] == if workers[i].Sleeping? then WantLock else workers[i]
  {
    seq(|workers|, i requires 0 <= i < |workers| => if workers[i].Sleeping? then WantLock else workers[i])
  }

  /** What a worker does with the mutex held: sleep, leave, or take the first job. */
  function CheckBody(s: State, i: nat): State
    requires i < |s.workers|
  {
    var s1 := s.(mutex := None);
    if s.jobs == [] && !s.shutdown then s1.(workers := s.workers[i := Sleeping])
    else if s.jobs == [] then s1.(workers := s.workers[i := Exited])
    else s1.(workers := s.workers[i := Executing(s.jobs[0])], jobs := s.jobs[1..], taken := s.taken + [s.jobs[0]])
  }

  function Do(s: State, a: Action): State
    requires Enabled(s, a)
  {
    match a
    case Lock(i) => s.(mutex := Some(W(i)), workers := s.workers[i := Checking])
    case Check(i) => CheckBody(s, i)
    case Execute(i) => s.(workers := s.workers[i := WantLock], done := s.done + [s.workers[i].job])
    case Spurious(i) => s.(workers := s.workers[i := WantLock])
    case Enqueue(j) => s.(producers := s.producers[j := WantPush])
    case LockPush(j) => s.(mutex := Some(P(j)), producers := s.producers[j := Pushing])
    case Push(j) =>
      s.(mutex := None, producers := s.producers[j := Notifying], jobs := s.jobs + [s.entered], entered := s.entered + 1)
    case NotifyOne(j, woken) =>
      s.(producers := s.producers[j := Resting],
         workers := if woken.Some? then s.workers[woken.value := WantLock] else s.workers)
    case Shutdown => s.(closer := WantClose)
    case LockClose => s.(mutex := Some(C), closer := Closing)
    case Close => s.(mutex := None, shutdown := true, closer := NotifyingAll)
    case NotifyAll => s.(closer := Joining, workers := Wake(s.workers))
  }

  // ---------- invariants ----------

  /** Exactly the holder of the mutex is inside. */
  predicate MutexOk(s: State)
  {
    (forall i :: 0 <= i < |s.workers| ==> (s.workers[i].Checking? <==> s.mutex == Some(W(i)))) &&
    (forall j :: 0 <= j < |s.producers| ==> (s.producers[j].Pushing? <==> s.mutex == Some(P(j)))) &&
    (s.closer.Closing? <==> s.mutex == Some(C)) &&
    (match s.mutex
     case Some(W(i)) => i < |s.workers|
     case Some(P(j)) => j < |s.producers|
     case _ => true)
  }

  function Numbers(n: nat): (r: seq<Job>)
    ensures |r| == n && forall i :: 0 <= i < n ==> r[i] == i
  {
    seq(n, i requires 0 <= i => i)
  }

  /** Jobs leave in the order they came: what entered is what was taken followed by what is pending. */
  predicate QueueOk(s: State)
  {
    s.taken + s.jobs == Numbers(s.entered)
  }

  /** How many workers are executing job j. */
  function Busy(workers: seq<Worker>, j: Job): nat
  {
    if workers == [] then 0
    else Busy(workers[..|workers| - 1], j) + Doing(workers[|workers| - 1], j)
  }

  function Doing(w: Worker, j: Job): nat
  {
    if w == Executing(j) then 1 else 0
  }

  function Times(t: seq<Job>, j: Job): nat
  {
    if t == [] then 0 else Times(t[..|t| - 1], j) + (if t[|t| - 1] == j then 1 else 0)
  }

  /** What was taken is finished or being executed, each job in one place only. */
  ghost predicate JobsOk(s: State)
  {
    forall j: Job :: Times(s.taken, j) == Times(s.done, j) + Busy(s.workers, j)
  }

  predicate Awake(w: Worker)
  {
    !w.Sleeping? && !w.Exited?
  }

  /** Someone is about to notify the workers. */
  predicate NotificationDue(s: State)
  {
    s.closer.NotifyingAll? || exists j :: 0 <= j < |s.producers| && s.producers[j].Notifying?
  }

  predicate SomeAwake(s: State)
  {
    exists i :: 0 <= i < |s.workers| && Awake(s.workers[i])
  }

  predicate AllExited(s: State)
  {
    forall i :: 0 <= i < |s.workers| ==> s.workers[i].Exited?
  }

  /** No wake-up is lost: with jobs pending, some worker is awake or about to be notified, unless all have left. */
  predicate NoLostWakeup(s: State)
  {
    s.jobs != [] ==> SomeAwake(s) || NotificationDue(s) || AllExited(s)
  }

  predicate SomeExited(s: State)
  {
    exists i :: 0 <= i < |s.workers| && s.workers[i].Exited?
  }

  /** Shutdown: workers leave only then; after the broadcast nobody sleeps. */
  predicate ShutdownOk(s: State)
  {
    (s.shutdown <==> s.closer.NotifyingAll? || s.closer.Joining?) &&
    (SomeExited(s) ==> s.shutdown) &&
    (s.closer.Joining? ==> forall i :: 0 <= i < |s.workers| ==> !s.workers[i].Sleeping?)
  }

  ghost predicate Inv(s: State)
  {
    MutexOk(s) && QueueOk(s) && JobsOk(s) && NoLostWakeup(s) && ShutdownOk(s)
  }

  lemma {:induction false} BusyUpdate(workers: seq<Worker>, i: nat, w: Worker, j: Job)
    requires i < |workers|
    ensures Busy(workers[i := w], j) + Doing(workers[i], j) == Busy(workers, j) + Doing(w, j)
    decreases |workers|
  {
    var n := |workers| - 1;
    if i < n {
      BusyUpdate(workers[..n], i, w, j);
      assert workers[i := w][..n] == workers[..n][i := w];
      assert workers[i := w][n] == workers[n];
    } else {
      assert workers[i := w][..n] == workers[..n];
    }
  }

  lemma {:induction false} BusyWake(workers: seq<Worker>, j: Job)
    ensures Busy(Wake(workers), j) == Busy(workers, j)
    decreases |workers|
  {
    if workers != [] {
      var n := |workers| - 1;
      BusyWake(workers[..n], j);
      assert Wake(workers)[..n] == Wake(workers[..n]);
    }
  }

  lemma {:induction false} BusyNone(workers: seq<Worker>, j: Job)
    requires forall i :: 0 <= i < |workers| ==> !workers[i].Executing?
    ensures Busy(workers, j) == 0
    decreases |workers|
  {
    if workers != [] {
      BusyNone(workers[..|workers| - 1], j);
    }
  }

  lemma TimesAppend(t: seq<Job>, x: Job, j: Job)
    ensures Times(t + [x], j) == Times(t, j) + (if x == j then 1 else 0)
  {
    assert (t + [x])[..|t|] == t;
  }

  lemma InvInit(n: nat, m: nat)
    ensures Inv(Init(n, m))
  {
    forall j: Job
      ensures Busy(Init(n, m).workers, j) == 0
    {
      BusyNone(Init(n, m).workers, j);
    }
  }

  lemma MutexStep(s: State, a: Action)
    requires MutexOk(s) && Enabled(s, a)
    ensures MutexOk(Do(s, a))
  {
  }

  lemma QueueStep(s: State, a: Action)
    requires QueueOk(s) && Enabled(s, a)
    ensures QueueOk(Do(s, a))
  {
    match a
    case Check(i) =>
      if s.jobs != [] {
        assert s.taken + [s.jobs[0]] + s.jobs[1..] == s.taken + s.jobs;
      }
    case Push(j) =>
      assert s.taken + (s.jobs + [s.entered]) == Numbers(s.entered) + [s.entered] == Numbers(s.entered + 1);
    case _ =>
  }

  lemma JobsStep(s: State, a: Action)
    requires JobsOk(s) && Enabled(s, a)
    ensures JobsOk(Do(s, a))
  {
    hide Enabled, Do;
    forall j: Job
      ensures var r := Do(s, a); Times(r.taken, j) == Times(r.done, j) + Busy(r.workers, j)
    {
      JobStep(s, a, j);
    }
  }

  lemma JobStep(s: State, a: Action, j: Job)
    requires Times(s.taken, j) == Times(s.done, j) + Busy(s.workers, j) && Enabled(s, a)
    ensures var r := Do(s, a); Times(r.taken, j) == Times(r.done, j) + Busy(r.workers, j)
  {
    hide Busy, Wake, Times;
    match a
    case Lock(i) => BusyUpdate(s.workers, i, Checking, j);
    case Check(i) =>
      BusyUpdate(s.workers, i, Do(s, a).workers[i], j);
      if s.jobs != [] {
        TimesAppend(s.taken, s.jobs[0], j);
      }
    case Execute(i) =>
      BusyUpdate(s.workers, i, WantLock, j);
      TimesAppend(s.done, s.workers[i].job, j);
    case Spurious(i) => BusyUpdate(s.workers, i, WantLock, j);
    case NotifyOne(_, woken) =>
      if woken.Some? {
        BusyUpdate(s.workers, woken.value, WantLock, j);
      }
    case NotifyAll => BusyWake(s.workers, j);
    case _ =>
  }

  lemma WakeupStep(s: State, a: Action)
    requires NoLostWakeup(s) && Enabled(s, a)
    ensures NoLostWakeup(Do(s, a))
  {
    var r := Do(s, a);
    match a
    case Lock(i) => AwakeNow(r, i);
    case Check(i) =>
      if s.jobs != [] {
        AwakeNow(r, i);
      }
    case Execute(i) => AwakeNow(r, i);
    case Spurious(i) => AwakeNow(r, i);
    case Push(j) => assert r.producers[j].Notifying?;
    case NotifyOne(j, woken) =>
      if woken.Some? {
        AwakeNow(r, woken.value);
      } else {
        NobodySleeps(r);
      }
    case NotifyAll => NobodySleeps(r);
    case _ => SameWatch(s, r);
  }

  lemma AwakeNow(s: State, i: nat)
    requires i < |s.workers| && Awake(s.workers[i])
    ensures SomeAwake(s)
  {
  }

  lemma NobodySleeps(s: State)
    requires forall i :: 0 <= i < |s.workers| ==> !s.workers[i].Sleeping?
    ensures SomeAwake(s) || AllExited(s)
  {
    if !AllExited(s) {
      var i :| 0 <= i < |s.workers| && !s.workers[i].Exited?;
      AwakeNow(s, i);
    }
  }

  /** Steps that touch neither workers nor queue, and leave every due notification due. */
  lemma SameWatch(s: State, r: State)
    requires NoLostWakeup(s) && r.workers == s.workers && r.jobs == s.jobs && |r.producers| == |s.producers|
    requires forall j :: 0 <= j < |s.producers| && s.producers[j].Notifying? ==> r.producers[j].Notifying?
    requires s.closer.NotifyingAll? ==> r.closer.NotifyingAll?
    ensures NoLostWakeup(r)
  {
    if SomeAwake(s) {
      var i :| 0 <= i < |s.workers| && Awake(s.workers[i]);
      AwakeNow(r, i);
    }
  }

  lemma ShutdownStep(s: State, a: Action)
    requires MutexOk(s) && ShutdownOk(s) && Enabled(s, a)
    ensures ShutdownOk(Do(s, a))
  {
  }

  lemma InvStep(s: State, a: Action)
    requires Inv(s) && Enabled(s, a)
    ensures Inv(Do(s, a))
  {
    hide MutexOk, QueueOk, JobsOk, NoLostWakeup, ShutdownOk, Do, Enabled;
    MutexStep(s, a);
    QueueStep(s, a);
    JobsStep(s, a);
    WakeupStep(s, a);
    ShutdownStep(s, a);
  }

  // ---------- whole runs ----------

  predicate Possible(s: State, run: seq<Action>)
    decreases |run|
  {
    run == [] || (Enabled(s, run[0]) && Possible(Do(s, run[0]), run[1..]))
  }

  function After(s: State, run: seq<Action>): State
    requires Possible(s, run)
    decreases |run|
  {
    if run == [] then s else After(Do(s, run[0]), run[1..])
  }

  lemma {:induction false} RunInv(s: State, run: seq<Action>)
    requires Inv(s) && Possible(s, run)
    ensures Inv(After(s, run))
    decreases |run|
  {
    hide Inv, Do, Enabled;
    if run != [] {
      InvStep(s, run[0]);
      RunInv(Do(s, run[0]), run[1..]);
    }
  }

  /** Some worker is running, or waits only for the mutex. */
  predicate SomeUp(s: State)
  {
    exists i :: 0 <= i < |s.workers| && (s.workers[i].WantLock? || s.workers[i].Checking? || s.workers[i].Executing?)
  }

  /** In every interleaving: jobs are taken in the order they were enqueued, what was enqueued is what was taken followed
      by what is pending, and pending jobs never wait for workers that all sleep unnotified. No worker leaves before the
      shutdown. */
  lemma RunsKeepOrder(n: nat, m: nat, run: seq<Action>)
    requires Possible(Init(n, m), run)
    ensures var r := After(Init(n, m), run);
            r.taken + r.jobs == Numbers(r.entered) &&
            (r.jobs != [] ==> SomeUp(r) || NotificationDue(r) || AllExited(r)) &&
            ((exists i :: 0 <= i < |r.workers| && r.workers[i] == Exited) ==> r.shutdown)
  {
    hide MutexOk, JobsOk, Possible, After, Init;
    InvInit(n, m);
    RunInv(Init(n, m), run);
  }

  lemma {:induction false} TimesOfNumbers(t: seq<Job>, j: Job)
    requires forall i :: 0 <= i < |t| ==> t[i] == i
    ensures Times(t, j) == if j < |t| then 1 else 0
    decreases |t|
  {
    if t != [] {
      TimesOfNumbers(t[..|t| - 1], j);
    }
  }

  /** No job is executed twice, and none that was not enqueued. */
  lemma JobsRunOnce(n: nat, m: nat, run: seq<Action>, j: Job)
    requires Possible(Init(n, m), run)
    ensures var r := After(Init(n, m), run);
            |r.taken| <= r.entered && Times(r.done, j) + Busy(r.workers, j) == if j < |r.taken| then 1 else 0
  {
    hide MutexOk, ShutdownOk, NoLostWakeup, Possible, After, Init;
    InvInit(n, m);
    RunInv(Init(n, m), run);
    var r := After(Init(n, m), run);
    assert forall i :: 0 <= i < |r.taken| ==> r.taken[i] == (r.taken + r.jobs)[i] == i;
    TimesOfNumbers(r.taken, j);
  }

  /** Some job is pushed when all workers have left. */
  predicate PushedTooLate(s: State, run: seq<Action>)
    requires Possible(s, run)
    decreases |run|
  {
    run != [] && ((run[0].Push? && AllExited(s)) || PushedTooLate(Do(s, run[0]), run[1..]))
  }

  /** Workers that have left stay away, and the last one to leave finds the queue empty. */
  lemma ExitStep(s: State, a: Action)
    requires Enabled(s, a)
    ensures AllExited(s) ==> AllExited(Do(s, a)) && Do(s, a).jobs == s.jobs + if a.Push? then [s.entered] else []
    ensures !AllExited(s) && AllExited(Do(s, a)) ==> Do(s, a).jobs == []
  {
    if !AllExited(s) && AllExited(Do(s, a)) {
      var i :| 0 <= i < |s.workers| && !s.workers[i].Exited?;
      assert Do(s, a).workers[i].Exited?;
    }
  }

  lemma {:induction false} QueueEmptied(s: State, run: seq<Action>)
    requires Possible(s, run) && AllExited(After(s, run))
    ensures After(s, run).jobs == [] <==> (AllExited(s) ==> s.jobs == []) && !PushedTooLate(s, run)
    decreases |run|
  {
    hide Do, Enabled, AllExited;
    if run != [] {
      ExitStep(s, run[0]);
      QueueEmptied(Do(s, run[0]), run[1..]);
    }
  }

  /** Every job that entered the queue has been executed exactly once. */
  ghost predicate AllDone(s: State)
  {
    forall j: Job :: Times(s.done, j) == if j < s.entered then 1 else 0
  }

  /** Once all workers have left, every job has been executed, exactly once, if and only if none was pushed when all had
      left before; a job pushed after shutdown still runs if a worker is left. */
  lemma AllJobsRun(n: nat, m: nat, run: seq<Action>)
    requires Possible(Init(n, m), run) && AllExited(After(Init(n, m), run))
    ensures AllDone(After(Init(n, m), run)) <==> !PushedTooLate(Init(n, m), run)
  {
    hide MutexOk, JobsOk, NoLostWakeup, ShutdownOk, Possible, After, Init, Busy;
    var r := After(Init(n, m), run);
    StartsEmpty(n, m);
    QueueEmptied(Init(n, m), run);
    RunsKeepOrder(n, m, run);
    forall j: Job
      ensures Times(r.done, j) == if j < |r.taken| then 1 else 0
    {
      BusyNone(r.workers, j);
      JobsRunOnce(n, m, run, j);
    }
    if r.jobs != [] {
      assert Times(r.done, |r.taken|) == 0 && |r.taken| < r.entered;
    }
  }

  lemma StartsEmpty(n: nat, m: nat)
    ensures Init(n, m).jobs == []
  {
  }

  lemma Before(s: State, a: Action, rest: seq<Action>)
    requires Enabled(s, a) && Possible(Do(s, a), rest)
    ensures Possible(s, [a] + rest) && After(s, [a] + rest) == After(Do(s, a), rest)
  {
    hide Enabled, Do;
    assert ([a] + rest)[1..] == rest;
  }

  /** A shutdown with nothing to do: the worker leaves. */
  lemma WorkerLeaves(s: State) returns (run: seq<Action>)
    requires s == Init(1, 1)
    ensures Possible(s, run)
    ensures After(s, run) == State([Exited], [Resting], Joining, None, [], true, 0, [], [])
  {
    hide Possible, After;
    var s1 := Do(s, Shutdown);
    var s2 := Do(s1, LockClose);
    var s3 := Do(s2, Close);
    var s4 := Do(s3, NotifyAll);
    assert s4.workers == [WantLock];
    var s5 := Do(s4, Lock(0));
    var s6 := Do(s5, Check(0));
    assert s6 == State([Exited], [Resting], Joining, None, [], true, 0, [], []);
    Nothing(s6);
    Before(s5, Check(0), []);
    Before(s4, Lock(0), [Check(0)] + []);
    Before(s3, NotifyAll, [Lock(0)] + ([Check(0)] + []));
    Before(s2, Close, [NotifyAll] + ([Lock(0)] + ([Check(0)] + [])));
    Before(s1, LockClose, [Close] + ([NotifyAll] + ([Lock(0)] + ([Check(0)] + []))));
    run := [Shutdown] + ([LockClose] + ([Close] + ([NotifyAll] + ([Lock(0)] + ([Check(0)] + [])))));
    Before(s, Shutdown, run[1..]);
    assert run == [Shutdown] + run[1..];
    assert run[1..] == [LockClose] + ([Close] + ([NotifyAll] + ([Lock(0)] + ([Check(0)] + []))));
  }

  lemma Nothing(s: State)
    ensures Possible(s, []) && After(s, []) == s
  {
  }

  /** Nothing keeps a thread from enqueueing then: the job enters the queue, and no worker is left. */
  lemma LateJobEnters(s: State) returns (run: seq<Action>)
    requires s == State([Exited], [Resting], Joining, None, [], true, 0, [], [])
    ensures Possible(s, run)
    ensures var r := After(s, run); AllExited(r) && r.jobs == [0] && r.taken == []
  {
    hide Possible, After;
    var s1 := Do(s, Enqueue(0));
    var s2 := Do(s1, LockPush(0));
    var s3 := Do(s2, Push(0));
    Nothing(s3);
    Before(s2, Push(0), []);
    Before(s1, LockPush(0), [Push(0)] + []);
    Before(s, Enqueue(0), [LockPush(0)] + ([Push(0)] + []));
    run := [Enqueue(0)] + ([LockPush(0)] + ([Push(0)] + []));
  }

  /** A job enqueued after shutdown may never run: once all workers have left it stays in the queue. */
  lemma LateJobStays(s: State, run: seq<Action>)
    requires Inv(s) && Possible(s, run) && AllExited(s)
    ensures AllExited(After(s, run)) && After(s, run).taken == s.taken && s.jobs <= After(s, run).jobs
    decreases |run|
  {
    hide Inv, MutexOk, QueueOk, JobsOk, NoLostWakeup, ShutdownOk;
    if run != [] {
      InvStep(s, run[0]);
      LateJobStays(Do(s, run[0]), run[1..]);
    }
  }

  // ---------- shutdown completes ----------

  function Weight(w: Worker): nat
  {
    match w
    case Exited => 0
    case Checking => 1
    case WantLock => 2
    case Sleeping => 2
    case Executing(_) => 3
  }

  function Total(workers: seq<Worker>): nat
  {
    if workers == [] then 0 else Total(workers[..|workers| - 1]) + Weight(workers[|workers| - 1])
  }

  function Measure(s: State): nat
  {
    4 * |s.jobs| + Total(s.workers)
  }

  lemma {:induction false} TotalUpdate(workers: seq<Worker>, i: nat, w: Worker)
    requires i < |workers|
    ensures Total(workers[i := w]) + Weight(workers[i]) == Total(workers) + Weight(w)
    decreases |workers|
  {
    var n := |workers| - 1;
    if i < n {
      TotalUpdate(workers[..n], i, w);
      assert workers[i := w][..n] == workers[..n][i := w];
      assert workers[i := w][n] == workers[n];
    } else {
      assert workers[i := w][..n] == workers[..n];
    }
  }

  /** After the shutdown broadcast every step of a worker brings it closer to leaving. */
  lemma ShutdownProgress(s: State, a: Action, i: nat)
    requires Inv(s) && s.closer.Joining? && Enabled(s, a) && (a == Lock(i) || a == Check(i) || a == Execute(i))
    ensures Measure(Do(s, a)) < Measure(s)
  {
    hide MutexOk, QueueOk, JobsOk, NoLostWakeup, Busy, Total;
    TotalUpdate(s.workers, i, Do(s, a).workers[i]);
  }

  /** Until all workers have left, someone can take a step: a worker, or a thread that holds the mutex. */
  lemma ShutdownLive(s: State) returns (a: Action)
    requires Inv(s) && s.closer.Joining? && !AllExited(s)
    ensures Enabled(s, a) && (a.Lock? || a.Check? || a.Execute? || a.Push?)
  {
    var i :| 0 <= i < |s.workers| && !s.workers[i].Exited?;
    match s.mutex
    case Some(W(k)) => a := Check(k);
    case Some(P(j)) => a := Push(j);
    case None => a := if s.workers[i].Executing? then Execute(i) else Lock(i);
    case Some(C) =>
      a := Shutdown;
      assert false;
  }
}
