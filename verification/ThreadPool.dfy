/** `ThreadPool`: the steps that workers, enqueuers and `shutdown` take between them, under every interleaving. */
module ThreadPool {

  import opened Text

  type Job = nat

  /** `Ready`: outside the lock and about to take it; `Checking`: holds the lock at the wait predicate. */
  datatype Worker = Ready | Checking | Waiting | Running(job: Job) | Exited

  /** `Pushing`: inside the lock of `enqueue`; `Notifying`: past the unlock and before `notify_one`. */
  datatype Producer = Idle | Pushing | Notifying

  /** `shutdown`: not called, inside the lock, before `notify_all`, having joined `count` workers. */
  datatype Closer = Open | Setting | Announcing | Joining(count: nat)

  datatype Agent = AWorker(i: nat) | AProducer(p: nat) | ACloser

  datatype State = State(
    workers: seq<Worker>,
    producers: seq<Producer>,
    closer: Closer,
    mutex: Option<Agent>,
    jobs: seq<Job>,
    shutdown: bool,
    bound: nat,
    // history
    accepted: seq<Job>,
    started: seq<Job>,
    finished: multiset<Job>,
    late: bool)

  datatype Step =
    | WorkerLock(i: nat)
    | WorkerCheck(i: nat)
    | WorkerFinish(i: nat)
    | SpuriousWakeup(i: nat)
    | EnqueueLock(p: nat)
    | EnqueuePush(p: nat, fn: Job)
    | NotifyOne(p: nat, woken: nat)
    | NotifyNobody(p: nat)
    | ShutdownLock
    | ShutdownSet
    | NotifyAll
    | Join

  predicate IsWorker(s: State, i: nat, w: Worker) { i < |s.workers| && s.workers[i] == w }

  predicate IsProducer(s: State, p: nat, pc: Producer) { p < |s.producers| && s.producers[p] == pc }

  predicate Full(s: State) { s.bound > 0 && |s.jobs| >= s.bound }

  predicate Enabled(s: State, step: Step) {
    match step
    case WorkerLock(i) => IsWorker(s, i, Ready) && s.mutex.None?
    case WorkerCheck(i) => IsWorker(s, i, Checking) && s.mutex == Some(AWorker(i))
    case WorkerFinish(i) => i < |s.workers| && s.workers[i].Running?
    case SpuriousWakeup(i) => IsWorker(s, i, Waiting)
    case EnqueueLock(p) => IsProducer(s, p, Idle) && s.mutex.None?
    case EnqueuePush(p, _) => IsProducer(s, p, Pushing) && s.mutex == Some(AProducer(p))
    case NotifyOne(p, w) => IsProducer(s, p, Notifying) && IsWorker(s, w, Waiting)
    case NotifyNobody(p) => IsProducer(s, p, Notifying) && Waiting !in s.workers
    case ShutdownLock => s.closer == Open && s.mutex.None?
    case ShutdownSet => s.closer == Setting && s.mutex == Some(ACloser)
    case NotifyAll => s.closer == Announcing
    case Join => s.closer.Joining? && IsWorker(s, s.closer.count, Exited)
  }

  function SetWorker(s: State, i: nat, w: Worker): State
    requires i < |s.workers|
  {
    s.(workers := s.workers[i := w])
  }

  function SetProducer(s: State, p: nat, pc: Producer): State
    requires p < |s.producers|
  {
    s.(producers := s.producers[p := pc])
  }

  /** The wait predicate and what follows it, all under the lock. Waiting releases the lock atomically. */
  function Check(s: State, i: nat): State
    requires i < |s.workers|
  {
    if s.jobs == [] then
      if s.shutdown then SetWorker(s, i, Exited).(mutex := None)
      else SetWorker(s, i, Waiting).(mutex := None)
    else
      SetWorker(s, i, Running(s.jobs[0])).(mutex := None, jobs := s.jobs[1..], started := s.started + [s.jobs[0]])
  }

  function Push(s: State, p: nat, fn: Job): State
    requires p < |s.producers|
  {
    if Full(s) then SetProducer(s, p, Idle).(mutex := None)
    else
      SetProducer(s, p, Notifying).(
        mutex := None, jobs := s.jobs + [fn], accepted := s.accepted + [fn], late := s.late || s.shutdown)
  }

  function WakeAll(workers: seq<Worker>): seq<Worker> {
    seq(|workers|, i requires 0 <= i < |workers| => if workers[i] == Waiting then Ready else workers[i])
  }

  function Apply(s: State, step: Step): State
    requires Enabled(s, step)
  {
    match step
    case WorkerLock(i) => SetWorker(s, i, Checking).(mutex := Some(AWorker(i)))
    case WorkerCheck(i) => Check(s, i)
    case WorkerFinish(i) => SetWorker(s, i, Ready).(finished := s.finished + multiset{s.workers[i].job})
    case SpuriousWakeup(i) => SetWorker(s, i, Ready)
    case EnqueueLock(p) => SetProducer(s, p, Pushing).(mutex := Some(AProducer(p)))
    case EnqueuePush(p, fn) => Push(s, p, fn)
    case NotifyOne(p, w) => SetWorker(SetProducer(s, p, Idle), w, Ready)
    case NotifyNobody(p) => SetProducer(s, p, Idle)
    case ShutdownLock => s.(closer := Setting, mutex := Some(ACloser))
    case ShutdownSet => s.(closer := Announcing, mutex := None, shutdown := true)
    case NotifyAll => s.(closer := Joining(0), workers := WakeAll(s.workers))
    case Join => s.(closer := Joining(s.closer.count + 1))
  }

  /** The constructor starts `n` workers; any number of threads may enqueue. */
  predicate Init(s: State) {
    && (forall i :: 0 <= i < |s.workers| ==> s.workers[i] == Ready)
    && (forall p :: 0 <= p < |s.producers| ==> s.producers[p] == Idle)
    && s.closer == Open && s.mutex.None? && s.jobs == [] && !s.shutdown
    && s.accepted == [] && s.started == [] && s.finished == multiset{} && !s.late
  }

  /** A finite run: the states reached by performing `steps` one after the other. */
  ghost predicate Reaches(s: State, steps: seq<Step>, t: State)
    decreases |steps|
  {
    if steps == [] then s == t
    else Enabled(s, steps[0]) && Reaches(Apply(s, steps[0]), steps[1..], t)
  }

  // ---------- Counting ----------

  function Holds(w: Worker, job: Job): nat { if w == Running(job) then 1 else 0 }

  /** How many workers are running `job`. */
  ghost function InHand(workers: seq<Worker>, job: Job): nat {
    if workers == [] then 0 else Holds(workers[0], job) + InHand(workers[1..], job)
  }

  ghost function Count(jobs: seq<Job>, job: Job): nat { multiset(jobs)[job] }

  ghost predicate WillCheck(w: Worker) { w == Ready || w == Checking }

  /** Workers that will look at the queue without being notified. */
  ghost function Checkers(workers: seq<Worker>): nat {
    if workers == [] then 0 else Checkers(workers[1..]) + if WillCheck(workers[0]) then 1 else 0
  }

  /** Enqueuers whose notification is still to come. */
  ghost function Notifiers(producers: seq<Producer>): nat {
    if producers == [] then 0 else Notifiers(producers[1..]) + if producers[0] == Notifying then 1 else 0
  }

  lemma {:induction false} UpdateInHand(workers: seq<Worker>, i: nat, w: Worker, job: Job)
    requires i < |workers|
    ensures InHand(workers[i := w], job) + Holds(workers[i], job) == InHand(workers, job) + Holds(w, job)
  {
    if i == 0 {
      assert workers[i := w][1..] == workers[1..];
    } else {
      UpdateInHand(workers[1..], i - 1, w, job);
      assert workers[i := w][1..] == workers[1..][i - 1 := w];
    }
  }

  lemma {:induction false} UpdateCheckers(workers: seq<Worker>, i: nat, w: Worker)
    requires i < |workers|
    ensures Checkers(workers[i := w]) + (if WillCheck(workers[i]) then 1 else 0)
         == Checkers(workers) + (if WillCheck(w) then 1 else 0)
  {
    if i == 0 {
      assert workers[i := w][1..] == workers[1..];
    } else {
      UpdateCheckers(workers[1..], i - 1, w);
      assert workers[i := w][1..] == workers[1..][i - 1 := w];
    }
  }

  lemma {:induction false} UpdateProducer(producers: seq<Producer>, p: nat, pc: Producer)
    requires p < |producers|
    ensures Notifiers(producers[p := pc]) + (if producers[p] == Notifying then 1 else 0)
         == Notifiers(producers) + (if pc == Notifying then 1 else 0)
  {
    if p == 0 {
      assert producers[p := pc][1..] == producers[1..];
    } else {
      UpdateProducer(producers[1..], p - 1, pc);
      assert producers[p := pc][1..] == producers[1..][p - 1 := pc];
    }
  }

  lemma {:induction false} WakeAllKeeps(workers: seq<Worker>, job: Job)
    ensures InHand(WakeAll(workers), job) == InHand(workers, job)
  {
    if workers != [] {
      WakeAllKeeps(workers[1..], job);
      assert WakeAll(workers)[1..] == WakeAll(workers[1..]);
    }
  }

  lemma {:induction false} CheckersPositive(workers: seq<Worker>)
    requires Checkers(workers) > 0
    ensures exists i :: 0 <= i < |workers| && WillCheck(workers[i])
  {
    if !WillCheck(workers[0]) {
      CheckersPositive(workers[1..]);
      var i :| 0 <= i < |workers[1..]| && WillCheck(workers[1..][i]);
      assert WillCheck(workers[i + 1]);
    }
  }

  lemma {:induction false} NotifiersPositive(producers: seq<Producer>)
    requires Notifiers(producers) > 0
    ensures exists p :: 0 <= p < |producers| && producers[p] == Notifying
  {
    if producers[0] != Notifying {
      NotifiersPositive(producers[1..]);
      var p :| 0 <= p < |producers[1..]| && producers[1..][p] == Notifying;
      assert producers[p + 1] == Notifying;
    }
  }

  // ---------- The invariant ----------

  /** The lock is held by exactly the thread that is inside a critical section. */
  ghost predicate Locked(s: State) {
    && (forall i :: 0 <= i < |s.workers| ==> (s.workers[i] == Checking <==> s.mutex == Some(AWorker(i))))
    && (forall p :: 0 <= p < |s.producers| ==> (s.producers[p] == Pushing <==> s.mutex == Some(AProducer(p))))
    && (s.closer == Setting <==> s.mutex == Some(ACloser))
    && (s.mutex.Some? && s.mutex.value.AWorker? ==> s.mutex.value.i < |s.workers|)
    && (s.mutex.Some? && s.mutex.value.AProducer? ==> s.mutex.value.p < |s.producers|)
  }

  /** Every acceptance of `job` is accounted for exactly once. */
  ghost predicate Balanced(s: State, job: Job) {
    Count(s.accepted, job) == Count(s.jobs, job) + InHand(s.workers, job) + s.finished[job]
  }

  /** Accepted jobs are the queued, the running and the finished ones, and they start in order. */
  ghost predicate Conserved(s: State) {
    && s.started + s.jobs == s.accepted
    && forall job :: Balanced(s, job)
  }

  /** While some worker sleeps, every queued job has a worker or a notification on its way. */
  ghost predicate NoLostWakeup(s: State) {
    Waiting in s.workers ==> |s.jobs| <= Checkers(s.workers) + Notifiers(s.producers)
  }

  ghost predicate Closing(s: State) {
    && (s.shutdown <==> s.closer == Announcing || s.closer.Joining?)
    && (s.closer.Joining? ==> Waiting !in s.workers)
    && (s.closer.Joining? ==> s.closer.count <= |s.workers|
                              && forall i :: 0 <= i < s.closer.count ==> s.workers[i] == Exited)
  }

  /** A worker only leaves an empty queue, after shutdown began. */
  ghost predicate ExitsLast(s: State) {
    forall i :: 0 <= i < |s.workers| && s.workers[i] == Exited ==> s.shutdown && (s.late || s.jobs == [])
  }

  ghost predicate Inv(s: State) {
    Locked(s) && Conserved(s) && NoLostWakeup(s) && Closing(s) && ExitsLast(s) && (s.bound > 0 ==> |s.jobs| <= s.bound)
  }

  lemma InitInv(s: State)
    requires Init(s)
    ensures Inv(s)
  {
    forall job ensures Balanced(s, job) { NoneInHand(s.workers, job); }
  }

  lemma {:induction false} NoneInHand(workers: seq<Worker>, job: Job)
    requires forall i :: 0 <= i < |workers| ==> !workers[i].Running?
    ensures InHand(workers, job) == 0
  {
    if workers != [] { NoneInHand(workers[1..], job); }
  }

  lemma CountHead(jobs: seq<Job>, job: Job)
    requires jobs != []
    ensures Count(jobs, job) == Count(jobs[1..], job) + (if jobs[0] == job then 1 else 0)
  {
    assert jobs == [jobs[0]] + jobs[1..];
  }

  lemma CheckBalanced(s: State, i: nat, job: Job)
    requires Balanced(s, job) && Enabled(s, WorkerCheck(i))
    ensures Balanced(Check(s, i), job)
  {
    UpdateInHand(s.workers, i, Check(s, i).workers[i], job);
    if s.jobs != [] { CountHead(s.jobs, job); }
  }

  lemma StepBalanced(s: State, step: Step, job: Job)
    requires Balanced(s, job) && Enabled(s, step)
    ensures Balanced(Apply(s, step), job)
  {
    hide Count;
    match step
    case WorkerLock(i) => UpdateInHand(s.workers, i, Checking, job);
    case WorkerCheck(i) => hide Check; CheckBalanced(s, i, job);
    case WorkerFinish(i) => UpdateInHand(s.workers, i, Ready, job);
    case SpuriousWakeup(i) => UpdateInHand(s.workers, i, Ready, job);
    case EnqueuePush(p, fn) => hide Push; PushBalanced(s, p, fn, job);
    case NotifyOne(_, i) => UpdateInHand(s.workers, i, Ready, job);
    case NotifyAll => WakeAllKeeps(s.workers, job);
    case _ =>
  }

  lemma PushBalanced(s: State, p: nat, fn: Job, job: Job)
    requires Balanced(s, job) && Enabled(s, EnqueuePush(p, fn))
    ensures Balanced(Push(s, p, fn), job)
  {
  }

  lemma StepFifo(s: State, step: Step)
    requires s.started + s.jobs == s.accepted && Enabled(s, step)
    ensures var t := Apply(s, step); t.started + t.jobs == t.accepted
  {
    if step.WorkerCheck? && s.jobs != [] {
      assert s.jobs == [s.jobs[0]] + s.jobs[1..];
    }
  }

  lemma StepWakeup(s: State, step: Step)
    requires NoLostWakeup(s) && Enabled(s, step)
    ensures NoLostWakeup(Apply(s, step))
  {
    match step
    case WorkerLock(i) => UpdateCheckers(s.workers, i, Checking);
    case WorkerCheck(i) => UpdateCheckers(s.workers, i, Check(s, i).workers[i]);
    case WorkerFinish(i) => UpdateCheckers(s.workers, i, Ready);
    case SpuriousWakeup(i) => UpdateCheckers(s.workers, i, Ready);
    case EnqueueLock(p) => UpdateProducer(s.producers, p, Pushing);
    case EnqueuePush(p, fn) => UpdateProducer(s.producers, p, if Full(s) then Idle else Notifying);
    case NotifyOne(p, i) => UpdateProducer(s.producers, p, Idle); UpdateCheckers(s.workers, i, Ready);
    case NotifyNobody(p) => UpdateProducer(s.producers, p, Idle);
    case _ =>
  }

  lemma CheckLocked(s: State, i: nat)
    requires Locked(s) && Enabled(s, WorkerCheck(i))
    ensures Locked(Check(s, i))
  {
  }

  lemma PushLocked(s: State, p: nat, fn: Job)
    requires Locked(s) && Enabled(s, EnqueuePush(p, fn))
    ensures Locked(Push(s, p, fn))
  {
  }

  lemma StepLocked(s: State, step: Step)
    requires Locked(s) && Enabled(s, step)
    ensures Locked(Apply(s, step))
  {
    hide Check;
    hide Push;
    match step
    case WorkerCheck(i) => CheckLocked(s, i);
    case EnqueuePush(p, fn) => PushLocked(s, p, fn);
    case _ =>
  }

  lemma StepClosing(s: State, step: Step)
    requires Closing(s) && Enabled(s, step)
    ensures Closing(Apply(s, step))
  {
  }

  lemma StepExits(s: State, step: Step)
    requires ExitsLast(s) && Enabled(s, step)
    ensures ExitsLast(Apply(s, step))
  {
  }

  /** The invariant survives every step of every thread. */
  lemma StepKeeps(s: State, step: Step)
    requires Inv(s) && Enabled(s, step)
    ensures Inv(Apply(s, step))
  {
    hide Locked;
    hide Closing;
    hide ExitsLast;
    hide NoLostWakeup;
    hide Balanced;
    StepExits(s, step);
    StepLocked(s, step);
    StepClosing(s, step);
    StepWakeup(s, step);
    StepFifo(s, step);
    forall job ensures Balanced(Apply(s, step), job) { StepBalanced(s, step, job); }
  }

  lemma {:induction false} RunKeeps(s: State, steps: seq<Step>, t: State)
    requires Inv(s) && Reaches(s, steps, t)
    ensures Inv(t)
    decreases |steps|
  {
    hide Inv;
    if steps != [] {
      StepKeeps(s, steps[0]);
      RunKeeps(Apply(s, steps[0]), steps[1..], t);
    }
  }

  // ---------- What the invariant means ----------

  ghost predicate Awake(w: Worker) { WillCheck(w) || w.Running? }

  /** No lost wakeup: in every reachable state, a queued job implies an awake worker or a notification still to be
      sent, unless there is no worker left. */
  lemma QueuedJobIsServed(s: State, steps: seq<Step>, t: State)
    requires Init(s) && Reaches(s, steps, t)
    requires t.jobs != []
    requires exists i :: 0 <= i < |t.workers| && t.workers[i] != Exited
    ensures (exists i :: 0 <= i < |t.workers| && Awake(t.workers[i])) || (exists p :: 0 <= p < |t.producers| && t.producers[p] == Notifying)
  {
    InitInv(s);
    RunKeeps(s, steps, t);
    if Waiting in t.workers {
      if Checkers(t.workers) > 0 {
        CheckersPositive(t.workers);
        var i :| 0 <= i < |t.workers| && WillCheck(t.workers[i]);
        assert Awake(t.workers[i]);
      } else {
        NotifiersPositive(t.producers);
      }
    } else {
      var i :| 0 <= i < |t.workers| && t.workers[i] != Exited;
      assert Awake(t.workers[i]);
    }
  }

  /** First in, first out, within the bound, and nothing lost or duplicated, in every reachable state. */
  lemma JobsConserved(s: State, steps: seq<Step>, t: State, job: Job)
    requires Init(s) && Reaches(s, steps, t)
    ensures t.started <= t.accepted && t.jobs == t.accepted[|t.started|..]
    ensures Count(t.accepted, job) == Count(t.jobs, job) + InHand(t.workers, job) + t.finished[job]
    ensures t.bound > 0 ==> |t.jobs| <= t.bound
  {
    InitInv(s);
    RunKeeps(s, steps, t);
    assert Balanced(t, job);
  }

  /** A job is refused only by a bounded pool whose queue has reached the bound; otherwise it goes to the end of the
      queue, also after shutdown began. */
  lemma AcceptedIff(s: State, steps: seq<Step>, t: State, p: nat, fn: Job)
    requires Init(s) && Reaches(s, steps, t) && Enabled(t, EnqueuePush(p, fn))
    ensures var u := Apply(t, EnqueuePush(p, fn));
            && u.mutex == None && u.started == t.started && u.finished == t.finished && u.workers == t.workers
            && if t.bound == 0 || |t.jobs| < t.bound
               then u.accepted == t.accepted + [fn] && u.jobs == t.jobs + [fn] && IsProducer(u, p, Notifying)
               else u.accepted == t.accepted && u.jobs == t.jobs && |t.jobs| == t.bound && IsProducer(u, p, Idle)
  {
    InitInv(s);
    RunKeeps(s, steps, t);
  }

  /** When the joins return and nothing was enqueued after shutdown began, every job has run, once and in order. */
  lemma AllRunWhenJoined(s: State, steps: seq<Step>, t: State)
    requires Init(s) && Reaches(s, steps, t)
    requires t.workers != [] && t.closer == Joining(|t.workers|) && !t.late
    ensures t.started == t.accepted
    ensures t.finished == multiset(t.accepted)
  {
    InitInv(s);
    RunKeeps(s, steps, t);
    assert t.workers[0] == Exited;
    assert t.jobs == [];
    forall job ensures multiset(t.accepted)[job] == t.finished[job] {
      assert Balanced(t, job);
      NoneInHand(t.workers, job);
    }
  }

  lemma {:induction false} ReachesConcat(s: State, first: seq<Step>, m: State, second: seq<Step>, t: State)
    requires Reaches(s, first, m) && Reaches(m, second, t)
    ensures Reaches(s, first + second, t)
    decreases |first|
  {
    hide Apply;
    hide Enabled;
    if first == [] {
      assert first + second == second;
    } else {
      ReachesConcat(Apply(s, first[0]), first[1..], m, second, t);
      assert (first + second)[1..] == first[1..] + second;
    }
  }

  lemma ReachesOne(s: State, step: Step)
    requires Enabled(s, step)
    ensures Reaches(s, [step], Apply(s, step))
  {
    hide Apply;
    hide Enabled;
    assert |[step][1..]| == 0;
  }

  lemma ReachesTwo(s: State, a: Step, b: Step)
    requires Enabled(s, a) && Enabled(Apply(s, a), b)
    ensures Reaches(s, [a, b], Apply(Apply(s, a), b))
  {
    hide Apply;
    hide Enabled;
    ReachesOne(s, a);
    ReachesOne(Apply(s, a), b);
    ReachesConcat(s, [a], Apply(s, a), [b], Apply(Apply(s, a), b));
  }

  // ---------- Exactly when all jobs run ----------

  /** A pool of `n` workers and one enqueuer, before anything has happened. */
  ghost function Fresh(n: nat, bound: nat): State {
    State(seq(n, _ => Ready), [Idle], Open, None, [], false, bound, [], [], multiset{}, false)
  }

  ghost predicate AllExited(workers: seq<Worker>) {
    forall i :: 0 <= i < |workers| ==> workers[i] == Exited
  }

  lemma ShutdownBegins(s: State) returns (steps: seq<Step>)
    requires s.mutex.None? && s.closer == Open && Waiting !in s.workers
    ensures Reaches(s, steps, s.(closer := Joining(0), shutdown := true))
  {
    ReachesTwo(s, ShutdownLock, ShutdownSet);
    var m := s.(closer := Announcing, shutdown := true);
    assert WakeAll(s.workers) == s.workers;
    ReachesOne(m, NotifyAll);
    ReachesConcat(s, [ShutdownLock, ShutdownSet], m, [NotifyAll], s.(closer := Joining(0), shutdown := true));
    steps := [ShutdownLock, ShutdownSet] + [NotifyAll];
  }

  lemma WorkerLeaves(s: State, k: nat)
    requires IsWorker(s, k, Ready) && s.mutex.None? && s.jobs == [] && s.shutdown
    ensures Reaches(s, [WorkerLock(k), WorkerCheck(k)], s.(workers := s.workers[k := Exited]))
  {
    ReachesTwo(s, WorkerLock(k), WorkerCheck(k));
    assert s.workers[k := Checking][k := Exited] == s.workers[k := Exited];
  }

  /** With an empty queue all workers leave, one after the other. */
  lemma {:induction false} WorkersLeave(s: State, k: nat) returns (steps: seq<Step>, t: State)
    requires k <= |s.workers| && s.mutex.None? && s.jobs == [] && s.shutdown
    requires forall i :: 0 <= i < |s.workers| ==> s.workers[i] == if i < k then Exited else Ready
    ensures Reaches(s, steps, t) && t == s.(workers := t.workers) && |t.workers| == |s.workers| && AllExited(t.workers)
    decreases |s.workers| - k
  {
    hide Apply;
    hide Enabled;
    if k == |s.workers| {
      steps, t := [], s;
    } else {
      WorkerLeaves(s, k);
      var m := s.(workers := s.workers[k := Exited]);
      var more;
      more, t := WorkersLeave(m, k + 1);
      ReachesConcat(s, [WorkerLock(k), WorkerCheck(k)], m, more, t);
      steps := [WorkerLock(k), WorkerCheck(k)] + more;
    }
  }

  lemma {:induction false} AllJoin(s: State, k: nat) returns (steps: seq<Step>)
    requires k <= |s.workers| && s.closer == Joining(k) && AllExited(s.workers)
    ensures Reaches(s, steps, s.(closer := Joining(|s.workers|)))
    decreases |s.workers| - k
  {
    var t := s.(closer := Joining(|s.workers|));
    if k == |s.workers| {
      steps := [];
    } else {
      ReachesOne(s, Join);
      var m := s.(closer := Joining(k + 1));
      assert Apply(s, Join) == m;
      var more := AllJoin(m, k + 1);
      ReachesConcat(s, [Join], m, more, t);
      steps := [Join] + more;
    }
  }

  lemma Enqueued(s: State, fn: Job)
    requires s.producers == [Idle] && s.mutex.None? && s.jobs == s.accepted == []
    ensures Reaches(s, [EnqueueLock(0), EnqueuePush(0, fn)],
                    s.(producers := [Notifying], jobs := [fn], accepted := [fn], late := s.late || s.shutdown))
  {
    ReachesTwo(s, EnqueueLock(0), EnqueuePush(0, fn));
    var t := Apply(Apply(s, EnqueueLock(0)), EnqueuePush(0, fn));
    assert t.producers == [Notifying] && t.jobs == [fn] && t.accepted == [fn];
  }

  /** A job enqueued after the workers have left is accepted and never run, in any pool with workers. */
  lemma LateJobIsLost(n: nat, bound: nat, fn: Job) returns (steps: seq<Step>, t: State)
    requires n > 0
    ensures Init(Fresh(n, bound)) && Reaches(Fresh(n, bound), steps, t) && t.closer == Joining(n)
    ensures t.accepted == [fn] && t.started == [] && t.late
  {
    hide Reaches;
    hide Apply;
    var s := Fresh(n, bound);
    var first := ShutdownBegins(s);
    var closing := s.(closer := Joining(0), shutdown := true);
    var leave, left := WorkersLeave(closing, 0);
    ReachesConcat(s, first, closing, leave, left);
    Enqueued(left, fn);
    var full := left.(producers := [Notifying], jobs := [fn], accepted := [fn], late := true);
    var push := [EnqueueLock(0), EnqueuePush(0, fn)];
    ReachesConcat(s, first + leave, left, push, full);
    var join := AllJoin(full, 0);
    t := full.(closer := Joining(n));
    ReachesConcat(s, first + leave + push, full, join, t);
    steps := first + leave + push + join;
  }

  /** A pool without workers accepts jobs, runs none, and its shutdown returns at once. */
  lemma EmptyPoolRunsNothing(bound: nat, fn: Job) returns (steps: seq<Step>, t: State)
    ensures Init(Fresh(0, bound)) && Reaches(Fresh(0, bound), steps, t) && t.closer == Joining(0)
    ensures t.accepted == [fn] && t.started == [] && !t.late
  {
    hide Reaches;
    hide Apply;
    var s := Fresh(0, bound);
    Enqueued(s, fn);
    var full := s.(producers := [Notifying], jobs := [fn], accepted := [fn]);
    var push := [EnqueueLock(0), EnqueuePush(0, fn)];
    var close := ShutdownBegins(full);
    t := full.(closer := Joining(0), shutdown := true);
    ReachesConcat(s, push, full, close, t);
    steps := push + close;
  }

  /** In every run of a pool with `n` workers and this bound in which all workers have been joined, every accepted job
      has run once and in order; jobs enqueued after shutdown began are allowed or not. */
  ghost predicate AllRun(n: nat, bound: nat, lateAllowed: bool) {
    forall s, steps, t ::
      Init(s) && |s.workers| == n && s.bound == bound && Reaches(s, steps, t) && t.closer == Joining(n) && (lateAllowed || !t.late) ==>
        t.started == t.accepted && t.finished == multiset(t.accepted)
  }

  lemma {:induction false} SizesStay(s: State, steps: seq<Step>, t: State)
    requires Reaches(s, steps, t)
    ensures |t.workers| == |s.workers| && t.bound == s.bound
    decreases |steps|
  {
    if steps != [] { SizesStay(Apply(s, steps[0]), steps[1..], t); }
  }

  /** All accepted jobs are run exactly by the pools that have a worker and are given nothing after shutdown began. */
  lemma AllRunIff(n: nat, bound: nat, lateAllowed: bool)
    ensures AllRun(n, bound, lateAllowed) <==> n > 0 && !lateAllowed
  {
    hide Reaches;
    hide Init;
    if n == 0 {
      var steps, t := EmptyPoolRunsNothing(bound, 0);
      assert t.started != t.accepted && |Fresh(0, bound).workers| == 0;
    } else if lateAllowed {
      var steps, t := LateJobIsLost(n, bound, 0);
      assert t.started != t.accepted && |Fresh(n, bound).workers| == n;
    } else {
      forall s, steps, t |
        Init(s) && |s.workers| == n && s.bound == bound && Reaches(s, steps, t) && t.closer == Joining(n) && (lateAllowed || !t.late)
        ensures t.started == t.accepted && t.finished == multiset(t.accepted)
      {
        SizesStay(s, steps, t);
        AllRunWhenJoined(s, steps, t);
      }
    }
  }

  // ---------- Shutdown returns ----------

  ghost function Weight(w: Worker): nat {
    match w
    case Exited => 0
    case Checking => 1
    case Ready => 2
    case Running(_) => 3
    case Waiting => 4
  }

  ghost function Weights(workers: seq<Worker>): nat {
    if workers == [] then 0 else Weight(workers[0]) + Weights(workers[1..])
  }

  lemma {:induction false} UpdateWeights(workers: seq<Worker>, i: nat, w: Worker)
    requires i < |workers|
    ensures Weights(workers[i := w]) + Weight(workers[i]) == Weights(workers) + Weight(w)
  {
    if i == 0 {
      assert workers[i := w][1..] == workers[1..];
    } else {
      UpdateWeights(workers[1..], i - 1, w);
      assert workers[i := w][1..] == workers[1..][i - 1 := w];
    }
  }

  /** Work left while `shutdown` is joining. */
  ghost function Remaining(s: State): int
    requires s.closer.Joining?
  {
    3 * |s.jobs| + Weights(s.workers) + Notifiers(s.producers) + |s.workers| - s.closer.count
  }

  /** What a step may add: 1 for itself and, when it puts a job into the queue, 4 for running that job and for the notification. */
  function Added(step: Step): nat {
    match step
    case EnqueueLock(_) => 1
    case EnqueuePush(_, _) => 5
    case _ => 0
  }

  function AllAdded(steps: seq<Step>): nat
    decreases |steps|
  {
    if steps == [] then 0 else Added(steps[0]) + AllAdded(steps[1..])
  }

  lemma DrainCheck(s: State, i: nat)
    requires s.closer.Joining? && s.shutdown && Enabled(s, WorkerCheck(i))
    ensures Check(s, i).closer == s.closer && Remaining(Check(s, i)) < Remaining(s)
  {
    UpdateWeights(s.workers, i, Check(s, i).workers[i]);
  }

  lemma DrainPush(s: State, p: nat, fn: Job)
    requires s.closer.Joining? && Enabled(s, EnqueuePush(p, fn))
    ensures Push(s, p, fn).closer == s.closer && Remaining(Push(s, p, fn)) <= Remaining(s) + 4
  {
    UpdateProducer(s.producers, p, if Full(s) then Idle else Notifying);
  }

  lemma DrainStep(s: State, step: Step)
    requires Closing(s) && s.closer.Joining? && Enabled(s, step)
    ensures Apply(s, step).closer.Joining? && Remaining(Apply(s, step)) + 1 <= Remaining(s) + Added(step)
  {
    match step
    case WorkerLock(i) => UpdateWeights(s.workers, i, Checking);
    case WorkerCheck(i) => hide Check; DrainCheck(s, i);
    case WorkerFinish(i) => UpdateWeights(s.workers, i, Ready);
    case SpuriousWakeup(_) => assert false;
    case NotifyOne(_, _) => assert false;
    case NotifyNobody(p) => UpdateProducer(s.producers, p, Idle);
    case EnqueueLock(p) => UpdateProducer(s.producers, p, Pushing);
    case EnqueuePush(p, fn) => hide Push; DrainPush(s, p, fn);
    case _ =>
  }

  lemma RemainingCounts(s: State)
    requires Inv(s) && s.closer.Joining?
    ensures 0 <= Remaining(s)
  {
  }

  /** Nothing can happen but that another thread begins to enqueue. */
  ghost predicate Stuck(s: State) {
    forall step: Step :: !step.EnqueueLock? ==> !Enabled(s, step)
  }

  /** Nobody blocks `shutdown`: as long as a worker is not joined, somebody can take a step. */
  lemma NotStuck(s: State)
    requires Inv(s) && s.closer.Joining? && s.closer.count < |s.workers|
    ensures !Stuck(s)
  {
    var k := s.closer.count;
    match s.mutex
    case Some(a) =>
      match a {
        case AWorker(i) => assert Enabled(s, WorkerCheck(i));
        case AProducer(p) => assert Enabled(s, EnqueuePush(p, 0));
        case ACloser =>
      }
    case None =>
      match s.workers[k]
      case Ready => assert Enabled(s, WorkerLock(k));
      case Running(_) => assert Enabled(s, WorkerFinish(k));
      case Exited => assert Enabled(s, Join);
      case _ => assert false;
  }

  /** Every run of the joining phase is as short as what was left to do and what was enqueued meanwhile, so it is finite
      unless threads enqueue without end, and it can only stop when all workers have been joined. */
  lemma {:induction false} ShutdownReturns(s: State, steps: seq<Step>, t: State)
    requires Inv(s) && s.closer.Joining? && Reaches(s, steps, t)
    ensures t.closer.Joining? && 0 <= Remaining(t) && |steps| + Remaining(t) <= Remaining(s) + AllAdded(steps)
    ensures Stuck(t) ==> t.closer == Joining(|t.workers|)
    decreases |steps|
  {
    RemainingCounts(s);
    hide Remaining;
    if steps == [] {
      if s.closer.count < |s.workers| { NotStuck(s); }
    } else {
      StepKeeps(s, steps[0]);
      DrainStep(s, steps[0]);
      ShutdownReturns(Apply(s, steps[0]), steps[1..], t);
    }
  }
}
