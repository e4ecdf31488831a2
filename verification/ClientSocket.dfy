/** Who may close the socket of a `ClientImpl`: `send` on many threads, nested by same-host redirects, and `stop`. */
module ClientSocket {

  import opened Text

  type Tid = nat

  /** One activation of `send`: before the first critical section of `send_`, between the two, after the second. */
  datatype Frame = Entering | Processing | Returning

  /** Each critical section of `socket_mutex_` is one step; `request_mutex_` is the recursive lock. */
  datatype State = State(
    stacks: seq<seq<Frame>>,
    owner: Option<Tid>,
    depth: nat,
    open: bool,
    inFlight: nat,
    fromThread: Option<Tid>,
    closeWhenDone: bool,
    followLocation: bool,
    keepAlive: bool)

  /** A thread begins a nested `send` only to follow a redirect. */
  datatype Step =
    | BeginSend(t: Tid)
    | Enter(t: Tid, alive: bool, connects: bool)
    | CloseOnHeader(t: Tid)
    | Leave(t: Tid, ok: bool)
    | EndSend(t: Tid)
    | Stop(t: Tid)

  predicate TopIs(s: State, t: Tid, f: Frame) {
    t < |s.stacks| && s.stacks[t] != [] && s.stacks[t][|s.stacks[t]| - 1] == f
  }

  function SetTop(s: State, t: Tid, f: Frame): State
    requires t < |s.stacks| && s.stacks[t] != []
  {
    s.(stacks := s.stacks[t := s.stacks[t][|s.stacks[t]| - 1 := f]])
  }

  predicate Enabled(s: State, step: Step) {
    match step
    case BeginSend(t) =>
      && t < |s.stacks| && (s.owner.None? || s.owner == Some(t))
      && (s.stacks[t] == [] || (s.followLocation && TopIs(s, t, Processing)))
    case Enter(t, _, _) => TopIs(s, t, Entering)
    case CloseOnHeader(t) => TopIs(s, t, Processing)
    case Leave(t, _) => TopIs(s, t, Processing)
    case EndSend(t) => TopIs(s, t, Returning)
    case Stop(t) => t < |s.stacks|
  }

  /** The assertion of `shutdown_ssl` and `close_socket`. */
  predicate MayClose(s: State, t: Tid) {
    s.inFlight == 0 || s.fromThread == Some(t)
  }

  function Closed(s: State): State { s.(open := false) }

  /** The part of the first critical section before the request is counted. */
  function Prepared(s: State, alive: bool, connects: bool): State {
    var reset := s.(closeWhenDone := false);
    if s.open && alive then reset else reset.(open := connects)
  }

  function ApplyEnter(s: State, t: Tid, alive: bool, connects: bool): State
    requires TopIs(s, t, Entering)
  {
    var p := Prepared(s, alive, connects);
    if !(s.open && alive) && !connects then SetTop(p, t, Returning)
    else SetTop(p, t, Processing).(inFlight := s.inFlight + 1, fromThread := Some(t))
  }

  /** The second critical section up to the decision to close. */
  function Uncounted(s: State): State
    requires s.inFlight > 0
  {
    s.(inFlight := s.inFlight - 1, fromThread := if s.inFlight == 1 then None else s.fromThread)
  }

  /** A client without keep-alive closes after every request. */
  predicate ClosesAtEnd(s: State, ok: bool) { s.closeWhenDone || !s.keepAlive || !ok }

  function ApplyLeave(s: State, t: Tid, ok: bool): State
    requires TopIs(s, t, Processing) && s.inFlight > 0
  {
    var u := SetTop(Uncounted(s), t, Returning);
    if ClosesAtEnd(s, ok) then Closed(u) else u
  }

  function Apply(s: State, step: Step): State
    requires Enabled(s, step)
    requires step.Leave? ==> s.inFlight > 0
    requires step.EndSend? ==> s.depth > 0
  {
    match step
    case BeginSend(t) =>
      s.(stacks := s.stacks[t := s.stacks[t] + [Entering]], owner := Some(t), depth := s.depth + 1)
    case Enter(t, alive, connects) => ApplyEnter(s, t, alive, connects)
    case CloseOnHeader(_) => Closed(s)
    case Leave(t, ok) => ApplyLeave(s, t, ok)
    case EndSend(t) =>
      s.(stacks := s.stacks[t := s.stacks[t][..|s.stacks[t]| - 1]], depth := s.depth - 1,
         owner := if s.depth == 1 then None else s.owner)
    case Stop(_) => if s.inFlight > 0 then s.(closeWhenDone := true) else Closed(s)
  }

  /** The assertions that the step executes, each evaluated in the state in which the source evaluates it. */
  predicate Asserts(s: State, step: Step)
    requires Enabled(s, step)
  {
    match step
    case Enter(t, alive, connects) =>
      && (s.open && !alive ==> MayClose(s, t))
      && ((s.open && alive) || connects ==> (s.inFlight > 1 ==> s.fromThread == Some(t)))
    case CloseOnHeader(t) => MayClose(s, t)
    case Leave(t, ok) => s.inFlight > 0 && (ClosesAtEnd(s, ok) ==> MayClose(Uncounted(s), t))
    case Stop(t) => s.inFlight == 0 ==> MayClose(s, t)
    case EndSend(t) => s.depth > 0 && s.owner == Some(t)
    case BeginSend(_) => true
  }

  /** The steps that call `close_socket`, the one that closes a stale socket before it connects again among them. */
  predicate Closes(s: State, step: Step) {
    match step
    case Enter(_, alive, _) => s.open && !alive
    case CloseOnHeader(_) => true
    case Leave(_, ok) => ClosesAtEnd(s, ok)
    case Stop(_) => s.inFlight == 0
    case BeginSend(_) => false
    case EndSend(_) => false
  }

  predicate Init(s: State) {
    && (forall t :: 0 <= t < |s.stacks| ==> s.stacks[t] == [])
    && s.owner.None? && s.depth == 0 && !s.open && s.inFlight == 0 && s.fromThread.None? && !s.closeWhenDone
  }

  // ---------- The invariant ----------

  ghost function InProcess(stack: seq<Frame>): nat {
    if stack == [] then 0
    else InProcess(stack[..|stack| - 1]) + if stack[|stack| - 1] == Processing then 1 else 0
  }

  /** Below the top of a stack every activation is waiting inside its handler. */
  ghost predicate Nested(stack: seq<Frame>) {
    forall i :: 0 <= i < |stack| - 1 ==> stack[i] == Processing
  }

  ghost function OwnersStack(s: State): seq<Frame> {
    if s.owner.Some? && s.owner.value < |s.stacks| then s.stacks[s.owner.value] else []
  }

  ghost predicate Inv(s: State) {
    && (forall t :: 0 <= t < |s.stacks| && s.stacks[t] != [] ==> s.owner == Some(t))
    && (s.owner.Some? ==> s.owner.value < |s.stacks|)
    && s.depth == |OwnersStack(s)|
    && (s.owner.Some? ==> s.depth > 0)
    && Nested(OwnersStack(s))
    && s.inFlight == InProcess(OwnersStack(s))
    && s.fromThread == if s.inFlight == 0 then None else s.owner
  }

  lemma InProcessTop(stack: seq<Frame>, f: Frame)
    requires stack != []
    ensures InProcess(stack[|stack| - 1 := f]) == InProcess(stack[..|stack| - 1]) + if f == Processing then 1 else 0
    ensures InProcess(stack) == InProcess(stack[..|stack| - 1]) + if stack[|stack| - 1] == Processing then 1 else 0
  {
    assert stack[|stack| - 1 := f][..|stack| - 1] == stack[..|stack| - 1];
  }

  lemma InProcessPush(stack: seq<Frame>)
    ensures InProcess(stack + [Entering]) == InProcess(stack)
  {
    assert (stack + [Entering])[..|stack|] == stack;
  }

  /** The owner of the stack on which a step happens is the owner of the request lock. */
  lemma StepIsOwners(s: State, step: Step)
    requires Inv(s) && Enabled(s, step) && !step.Stop? && !step.BeginSend?
    ensures s.owner == Some(step.t) && OwnersStack(s) == s.stacks[step.t]
  {
  }

  lemma AssertsHold(s: State, step: Step)
    requires Inv(s) && Enabled(s, step)
    ensures Asserts(s, step)
  {
    if !step.Stop? && !step.BeginSend? {
      StepIsOwners(s, step);
      InProcessTop(s.stacks[step.t], Returning);
    }
  }

  lemma TopKeeps(s: State, t: Tid, f: Frame, u: State)
    requires Inv(s) && s.owner == Some(t) && s.stacks[t] != []
    requires u.stacks == SetTop(s, t, f).stacks && u.owner == s.owner && u.depth == s.depth
    requires u.inFlight == InProcess(s.stacks[t][..|s.stacks[t]| - 1]) + if f == Processing then 1 else 0
    requires u.fromThread == if u.inFlight == 0 then None else u.owner
    ensures Inv(u)
  {
    InProcessTop(s.stacks[t], f);
    assert u.stacks[t] == s.stacks[t][|s.stacks[t]| - 1 := f];
  }

  lemma BeginKeeps(s: State, t: Tid)
    requires Inv(s) && Enabled(s, BeginSend(t))
    ensures Inv(Apply(s, BeginSend(t)))
  {
    InProcessPush(s.stacks[t]);
    assert Apply(s, BeginSend(t)).stacks[t] == s.stacks[t] + [Entering];
  }

  lemma EndKeeps(s: State, t: Tid)
    requires Inv(s) && Enabled(s, EndSend(t))
    ensures s.depth > 0 && Inv(Apply(s, EndSend(t)))
  {
    StepIsOwners(s, EndSend(t));
    InProcessTop(s.stacks[t], Returning);
    assert Apply(s, EndSend(t)).stacks[t] == s.stacks[t][..|s.stacks[t]| - 1];
  }

  lemma EnterKeeps(s: State, step: Step)
    requires Inv(s) && step.Enter? && Enabled(s, step)
    ensures Inv(Apply(s, step))
  {
    var Enter(t, alive, connects) := step;
    StepIsOwners(s, step);
    InProcessTop(s.stacks[t], Processing);
    TopKeeps(s, t, if !(s.open && alive) && !connects then Returning else Processing, Apply(s, step));
  }

  lemma LeaveKeeps(s: State, step: Step)
    requires Inv(s) && step.Leave? && Enabled(s, step)
    ensures s.inFlight > 0 && Inv(Apply(s, step))
  {
    StepIsOwners(s, step);
    InProcessTop(s.stacks[step.t], Returning);
    TopKeeps(s, step.t, Returning, Apply(s, step));
  }

  lemma StepKeeps(s: State, step: Step)
    requires Inv(s) && Enabled(s, step)
    ensures Asserts(s, step) && Inv(Apply(s, step))
  {
    AssertsHold(s, step);
    match step
    case BeginSend(t) => BeginKeeps(s, t);
    case Enter(_, _, _) => EnterKeeps(s, step);
    case CloseOnHeader(_) =>
    case Leave(_, _) => LeaveKeeps(s, step);
    case EndSend(t) => EndKeeps(s, t);
    case Stop(_) =>
  }

  // ---------- Runs ----------

  /** A run in which no assertion fails. */
  ghost predicate Reaches(s: State, steps: seq<Step>, t: State)
    decreases |steps|
  {
    if steps == [] then s == t
    else Enabled(s, steps[0]) && Asserts(s, steps[0]) && Reaches(Apply(s, steps[0]), steps[1..], t)
  }

  lemma InitInv(s: State)
    requires Init(s)
    ensures Inv(s)
  {
  }

  lemma {:induction false} RunKeeps(s: State, steps: seq<Step>, t: State)
    requires Inv(s) && Reaches(s, steps, t)
    ensures Inv(t)
    decreases |steps|
  {
    hide Inv;
    hide Asserts;
    if steps != [] {
      StepKeeps(s, steps[0]);
      RunKeeps(Apply(s, steps[0]), steps[1..], t);
    }
  }

  /** Over every interleaving: the next step of any thread passes its assertions, and the number of requests in flight
      is the number of activations between their critical sections, all on the thread that holds the request lock. */
  lemma AssertionsAndCount(s: State, steps: seq<Step>, t: State, next: Step)
    requires Init(s) && Reaches(s, steps, t) && Enabled(t, next)
    ensures Asserts(t, next)
    ensures t.inFlight == InProcess(OwnersStack(t))
    ensures forall u :: 0 <= u < |t.stacks| && t.owner != Some(u) ==> t.stacks[u] == []
    ensures t.inFlight > 0 ==> t.fromThread == t.owner
  {
    InitInv(s);
    RunKeeps(s, steps, t);
    AssertsHold(t, next);
  }

  /** A socket is only ever closed while no other thread has a request in flight. */
  lemma ClosedByOwnerOnly(s: State, steps: seq<Step>, t: State, next: Step, other: Tid)
    requires Init(s) && Reaches(s, steps, t) && Enabled(t, next)
    requires Closes(t, next)
    requires other < |t.stacks| && other != next.t
    ensures InProcess(t.stacks[other]) == 0
  {
    InitInv(s);
    RunKeeps(s, steps, t);
    if t.stacks[other] != [] {
      assert t.owner == Some(other);
      assert OwnersStack(t) == t.stacks[other];
    }
  }

  // ---------- What a request leaves behind ----------

  /** What every other step does to the socket: a stop closes it at once when no request is in flight and leaves it to the
      end of the request otherwise, a response that asks for it closes it, and beginning and ending do not touch it. */
  lemma SocketAfter(t: State, next: Step)
    requires Inv(t) && Enabled(t, next)
    ensures Asserts(t, next)
    ensures next.Stop? ==> (Apply(t, next).open <==> t.open && t.inFlight > 0)
    ensures next.Stop? && t.inFlight > 0 ==> Apply(t, next).closeWhenDone
    ensures next.CloseOnHeader? ==> !Apply(t, next).open
    ensures next.BeginSend? || next.EndSend? ==> Apply(t, next).open == t.open && Apply(t, next).closeWhenDone == t.closeWhenDone
  {
    AssertsHold(t, next);
  }

  /** `stop` was called after the last `send_` was entered. */
  ghost predicate StoppedSinceEnter(steps: seq<Step>) {
    exists i :: 0 <= i < |steps| && steps[i].Stop? && forall j :: i < j < |steps| ==> !steps[j].Enter?
  }

  ghost predicate NoEnter(steps: seq<Step>) {
    forall j :: 0 <= j < |steps| ==> !steps[j].Enter?
  }

  lemma StoppedStep(steps: seq<Step>)
    requires steps != []
    ensures StoppedSinceEnter(steps) <==> StoppedSinceEnter(steps[1..]) || (steps[0].Stop? && NoEnter(steps[1..]))
    ensures NoEnter(steps) <==> !steps[0].Enter? && NoEnter(steps[1..])
  {
    var more := steps[1..];
    assert forall j :: 0 <= j < |more| ==> more[j] == steps[j + 1];
    assert forall j :: 1 <= j < |steps| ==> steps[j] == more[j - 1];
    if i :| 0 <= i < |more| && more[i].Stop? && forall j :: i < j < |more| ==> !more[j].Enter? {
      assert steps[i + 1].Stop? && forall j :: i + 1 < j < |steps| ==> !steps[j].Enter?;
    }
    if i :| 0 <= i < |steps| && steps[i].Stop? && forall j :: i < j < |steps| ==> !steps[j].Enter? {
      if i > 0 {
        assert more[i - 1].Stop? && forall j :: i - 1 < j < |more| ==> !more[j].Enter?;
      }
    }
  }

  /** While requests are in flight the flag says whether `stop` was called since the last `send_` was entered. */
  lemma {:induction false} FlagTells(s: State, steps: seq<Step>, t: State)
    requires Reaches(s, steps, t) && t.inFlight > 0
    ensures t.closeWhenDone <==> StoppedSinceEnter(steps) || (NoEnter(steps) && s.closeWhenDone)
    ensures s.inFlight > 0 || !NoEnter(steps)
    decreases |steps|
  {
    hide StoppedSinceEnter;
    hide NoEnter;
    if steps == [] {
      assert NoEnter([]) && !StoppedSinceEnter([]) by { NothingYet(); }
    } else {
      StoppedStep(steps);
      FlagTells(Apply(s, steps[0]), steps[1..], t);
    }
  }

  lemma NothingYet()
    ensures NoEnter([]) && !StoppedSinceEnter([])
  {
  }

  /** The socket survives the end of a request exactly when the request succeeded, the client keeps connections alive,
      and no stop came since the last `send_` was entered. */
  lemma LeaveKeepsOpenIff(s: State, steps: seq<Step>, t: State, u: Tid, ok: bool)
    requires Init(s) && Reaches(s, steps, t) && Enabled(t, Leave(u, ok))
    ensures t.inFlight > 0
    ensures Apply(t, Leave(u, ok)).open <==> t.open && ok && t.keepAlive && !StoppedSinceEnter(steps)
  {
    InitInv(s);
    RunKeeps(s, steps, t);
    AssertsHold(t, Leave(u, ok));
    FlagTells(s, steps, t);
  }

  /** A request is only processed over an open socket: an old one that is alive, or a new connection. */
  lemma EnterNeedsSocket(s: State, steps: seq<Step>, t: State, u: Tid, alive: bool, connects: bool)
    requires Init(s) && Reaches(s, steps, t) && Enabled(t, Enter(u, alive, connects))
    ensures var next := Apply(t, Enter(u, alive, connects));
            && (next.open <==> (t.open && alive) || connects)
            && (next.open <==> TopIs(next, u, Processing))
            && (next.inFlight == if next.open then t.inFlight + 1 else t.inFlight)
            && !next.closeWhenDone
  {
  }

  ghost predicate SomeLeaves(steps: seq<Step>) {
    exists i :: 0 <= i < |steps| && steps[i].Leave?
  }

  lemma {:induction false} StaysClosed(s: State, steps: seq<Step>, t: State)
    requires Reaches(s, steps, t) && NoEnter(steps) && !s.open
    ensures !t.open
    decreases |steps|
  {
    if steps != [] {
      StaysClosed(Apply(s, steps[0]), steps[1..], t);
    }
  }

  /** A stop while requests are in flight: unless another `send_` is entered in between, the first of them to end
      closes the socket, and it stays closed. */
  lemma {:induction false} StopCloses(s: State, steps: seq<Step>, t: State)
    requires Reaches(s, steps, t) && NoEnter(steps) && SomeLeaves(steps)
    requires s.closeWhenDone
    ensures !t.open
    decreases |steps|
  {
    var next := Apply(s, steps[0]);
    if steps[0].Leave? {
      StaysClosed(next, steps[1..], t);
    } else {
      var i :| 0 <= i < |steps| && steps[i].Leave?;
      assert steps[1..][i - 1].Leave?;
      StopCloses(next, steps[1..], t);
    }
  }

  // ---------- A stop during a request ----------

  /** `steps` lead to `t` and end with the end of the request that thread `u` has at this level of nesting. */
  ghost predicate UntilEnd(s: State, steps: seq<Step>, t: State, u: Tid, level: nat)
    decreases |steps|
  {
    && steps != [] && Enabled(s, steps[0]) && Asserts(s, steps[0])
    && if steps[0].Leave? && steps[0].t == u && |s.stacks[u]| == level
       then steps[1..] == [] && t == Apply(s, steps[0])
       else UntilEnd(Apply(s, steps[0]), steps[1..], t, u, level)
  }

  /** A request that fails leaves the socket closed when it ends, whatever happened meanwhile. */
  lemma {:induction false} FailureCloses(s: State, steps: seq<Step>, t: State, u: Tid, level: nat)
    requires UntilEnd(s, steps, t, u, level) && steps[|steps| - 1].Leave? && !steps[|steps| - 1].ok
    ensures !t.open
    decreases |steps|
  {
    if steps[0].Leave? && steps[0].t == u && |s.stacks[u]| == level {
      assert |steps| == |steps[1..]| + 1;
    } else {
      var next, more := Apply(s, steps[0]), steps[1..];
      assert more[|more| - 1] == steps[|steps| - 1];
      FailureCloses(next, more, t, u, level);
    }
  }

  ghost predicate Reachable(t: State) {
    exists s, steps :: Init(s) && Reaches(s, steps, t)
  }

  /** In the reachable state `m` a request is being processed; `stop` is called, and `steps` lead to `t`, where that
      request has just ended. */
  ghost predicate StoppedRun(m: State, stopper: Tid, steps: seq<Step>, t: State) {
    && Reachable(m) && stopper < |m.stacks|
    && m.owner.Some? && TopIs(m, m.owner.value, Processing)
    && UntilEnd(Apply(m, Stop(stopper)), steps, t, m.owner.value, |m.stacks[m.owner.value]|)
  }

  /** Every stop during a request leaves the socket closed when that request ends. */
  ghost predicate StopHonoured(followLocation: bool, keepAlive: bool) {
    forall m, stopper, steps, t ::
      StoppedRun(m, stopper, steps, t) && m.followLocation == followLocation && m.keepAlive == keepAlive ==> !t.open
  }

  lemma {:induction false} EndCloses(s: State, steps: seq<Step>, t: State, u: Tid, level: nat)
    requires !s.keepAlive && UntilEnd(s, steps, t, u, level)
    ensures !t.open
    decreases |steps|
  {
    if !(steps[0].Leave? && steps[0].t == u && |s.stacks[u]| == level) {
      EndCloses(Apply(s, steps[0]), steps[1..], t, u, level);
    }
  }

  /** Without redirects no other `send_` can be entered before the request ends, so the flag stays set. */
  lemma {:induction false} FlagStays(s: State, steps: seq<Step>, t: State, u: Tid, level: nat)
    requires Inv(s) && s.closeWhenDone && !s.followLocation
    requires s.owner == Some(u) && TopIs(s, u, Processing) && |s.stacks[u]| == level
    requires UntilEnd(s, steps, t, u, level)
    ensures !t.open
    decreases |steps|
  {
    StepKeeps(s, steps[0]);
    if !(steps[0].Leave? && steps[0].t == u) {
      assert steps[0].CloseOnHeader? || steps[0].Stop?;
      FlagStays(Apply(s, steps[0]), steps[1..], t, u, level);
    }
  }

  lemma ProcessingCounts(s: State, u: Tid)
    requires Inv(s) && s.owner == Some(u) && TopIs(s, u, Processing)
    ensures s.inFlight > 0
  {
    assert OwnersStack(s) == s.stacks[u];
  }

  lemma HonouredOnce(m: State, stopper: Tid, steps: seq<Step>, t: State)
    requires StoppedRun(m, stopper, steps, t) && (!m.followLocation || !m.keepAlive)
    ensures !t.open
  {
    hide Reaches;
    hide UntilEnd;
    var u := m.owner.value;
    var s, before :| Init(s) && Reaches(s, before, m);
    InitInv(s);
    RunKeeps(s, before, m);
    StepKeeps(m, Stop(stopper));
    ProcessingCounts(m, u);
    var stopped := Apply(m, Stop(stopper));
    if m.keepAlive { FlagStays(stopped, steps, t, u, |m.stacks[u]|); } else { EndCloses(stopped, steps, t, u, |m.stacks[u]|); }
  }

  lemma Honoured(followLocation: bool, keepAlive: bool)
    requires !followLocation || !keepAlive
    ensures StopHonoured(followLocation, keepAlive)
  {
    hide StoppedRun;
    forall m, stopper, steps, t | StoppedRun(m, stopper, steps, t) && m.followLocation == followLocation && m.keepAlive == keepAlive
      ensures !t.open
    {
      HonouredOnce(m, stopper, steps, t);
    }
  }

  // ---------- A redirect loses a stop ----------

  /** A client that follows redirects and keeps connections: thread 0 with the given activations, thread 1 idle. */
  ghost function Busy(stack: seq<Frame>, open: bool, closeWhenDone: bool): State {
    State([stack, []], if stack == [] then None else Some(0), |stack|, open, InProcess(stack),
          if InProcess(stack) == 0 then None else Some(0), closeWhenDone, true, true)
  }

  lemma ReachesStep(s: State, step: Step, steps: seq<Step>, t: State)
    requires Enabled(s, step) && Asserts(s, step)
    requires Reaches(Apply(s, step), steps, t)
    ensures Reaches(s, [step] + steps, t)
  {
    hide Enabled;
    hide Asserts;
    assert ([step] + steps)[1..] == steps;
  }

  lemma UntilEndStep(s: State, step: Step, steps: seq<Step>, t: State, u: Tid, level: nat)
    requires Enabled(s, step) && Asserts(s, step)
    requires step.Leave? ==> step.t == u && |s.stacks[u]| != level
    requires UntilEnd(Apply(s, step), steps, t, u, level)
    ensures UntilEnd(s, [step] + steps, t, u, level)
  {
    hide Asserts;
    assert ([step] + steps)[1..] == steps;
  }

  lemma SmallStacks()
    ensures InProcess([]) == 0 && InProcess([Entering]) == 0 && InProcess([Processing]) == 1 && InProcess([Returning]) == 0
    ensures InProcess([Processing, Entering]) == 1 && InProcess([Processing, Returning]) == 1
    ensures InProcess([Processing, Processing]) == 2
  {
    assert [Processing, Entering][..1] == [Processing];
    assert [Processing, Returning][..1] == [Processing];
    assert [Processing, Processing][..1] == [Processing];
  }

  lemma BeginBusy(stack: seq<Frame>, open: bool, flag: bool)
    requires stack == [] || stack == [Processing]
    ensures Enabled(Busy(stack, open, flag), BeginSend(0))
    ensures Apply(Busy(stack, open, flag), BeginSend(0)) == Busy(stack + [Entering], open, flag)
  {
    SmallStacks();
    assert stack + [Entering] == if stack == [] then [Entering] else [Processing, Entering];
  }

  /** The old socket is no longer alive, since the stop has shut it down, and a new one is connected. */
  lemma EnterBusy(stack: seq<Frame>, open: bool, flag: bool)
    requires stack == [] || stack == [Processing]
    ensures var s := Busy(stack + [Entering], open, flag);
            Enabled(s, Enter(0, false, true)) && Asserts(s, Enter(0, false, true))
            && Apply(s, Enter(0, false, true)) == Busy(stack + [Processing], true, false)
  {
    SmallStacks();
    var s := Busy(stack + [Entering], open, flag);
    assert stack + [Entering] == if stack == [] then [Entering] else [Processing, Entering];
    assert stack + [Processing] == if stack == [] then [Processing] else [Processing, Processing];
    assert SetTop(s, 0, Processing).stacks[0] == stack + [Processing];
    assert SetTop(s, 0, Processing).stacks == [stack + [Processing], []];
  }

  lemma LeaveBusy(stack: seq<Frame>)
    requires stack == [] || stack == [Processing]
    ensures var s := Busy(stack + [Processing], true, false);
            Enabled(s, Leave(0, true)) && Asserts(s, Leave(0, true))
            && Apply(s, Leave(0, true)) == Busy(stack + [Returning], true, false)
  {
    SmallStacks();
    var s := Busy(stack + [Processing], true, false);
    assert stack + [Processing] == if stack == [] then [Processing] else [Processing, Processing];
    assert stack + [Returning] == if stack == [] then [Returning] else [Processing, Returning];
    assert SetTop(s, 0, Returning).stacks[0] == stack + [Returning];
    assert SetTop(s, 0, Returning).stacks == [stack + [Returning], []];
  }

  lemma EndBusy()
    ensures var s := Busy([Processing, Returning], true, false);
            Enabled(s, EndSend(0)) && Asserts(s, EndSend(0)) && Apply(s, EndSend(0)) == Busy([Processing], true, false)
  {
    SmallStacks();
    assert [Processing, Returning][..1] == [Processing];
  }

  const REQUEST_BEGINS: seq<Step> := [BeginSend(0), Enter(0, false, true)]
  const REDIRECT_ENDS: seq<Step> := [BeginSend(0), Enter(0, false, true), Leave(0, true), EndSend(0), Leave(0, true)]

  lemma RequestRuns()
    ensures Reaches(Busy([], false, false), REQUEST_BEGINS, Busy([Processing], true, false))
  {
    hide Busy;
    var t := Busy([Processing], true, false);
    BeginBusy([], false, false);
    EnterBusy([], false, false);
    assert [] + [Entering] == [Entering] && [] + [Processing] == [Processing];
    ReachesStep(Busy([Entering], false, false), Enter(0, false, true), [], t);
    assert [Enter(0, false, true)] + [] == [Enter(0, false, true)];
    ReachesStep(Busy([], false, false), BeginSend(0), [Enter(0, false, true)], t);
    assert [BeginSend(0)] + [Enter(0, false, true)] == REQUEST_BEGINS;
  }

  /** The nested request ends, and then the outer one. */
  lemma NestedEnds()
    ensures UntilEnd(Busy([Processing, Processing], true, false), [Leave(0, true), EndSend(0), Leave(0, true)],
                     Busy([Returning], true, false), 0, 1)
  {
    var t := Busy([Returning], true, false);
    var outer, returned := Busy([Processing], true, false), Busy([Processing, Returning], true, false);
    var last := [Leave(0, true)];
    LeaveBusy([]);
    LeaveBusy([Processing]);
    EndBusy();
    assert [] + [Processing] == [Processing] && [] + [Returning] == [Returning];
    assert [Processing] + [Processing] == [Processing, Processing] && [Processing] + [Returning] == [Processing, Returning];
    assert last[1..] == [];
    assert UntilEnd(outer, last, t, 0, 1);
    UntilEndStep(returned, EndSend(0), last, t, 0, 1);
    UntilEndStep(Busy([Processing, Processing], true, false), Leave(0, true), [EndSend(0)] + last, t, 0, 1);
    assert [Leave(0, true)] + ([EndSend(0)] + last) == [Leave(0, true), EndSend(0), Leave(0, true)];
  }

  lemma RedirectRuns()
    ensures UntilEnd(Busy([Processing], true, true), REDIRECT_ENDS, Busy([Returning], true, false), 0, 1)
  {
    hide Busy;
    hide UntilEnd;
    var t := Busy([Returning], true, false);
    var last := [Leave(0, true), EndSend(0), Leave(0, true)];
    NestedEnds();
    BeginBusy([Processing], true, true);
    EnterBusy([Processing], true, true);
    assert [Processing] + [Processing] == [Processing, Processing];
    UntilEndStep(Busy([Processing] + [Entering], true, true), Enter(0, false, true), last, t, 0, 1);
    UntilEndStep(Busy([Processing], true, true), BeginSend(0), [Enter(0, false, true)] + last, t, 0, 1);
    assert [BeginSend(0)] + ([Enter(0, false, true)] + last) == REDIRECT_ENDS;
  }

  /** The stop comes during the outer request; the redirected one clears the flag, and the outer request ends with an
      open socket. */
  lemma StoppedRedirect()
    ensures StoppedRun(Busy([Processing], true, false), 1, REDIRECT_ENDS, Busy([Returning], true, false))
  {
    hide Reaches;
    hide UntilEnd;
    RequestRuns();
    RedirectRuns();
    SmallStacks();
    var s := Busy([], false, false);
    var m := Busy([Processing], true, false);
    assert Init(s) && Reaches(s, REQUEST_BEGINS, m);
    assert Apply(m, Stop(1)) == Busy([Processing], true, true);
  }

  lemma RedirectLosesStop()
    ensures !StopHonoured(true, true)
  {
    hide StoppedRun;
    StoppedRedirect();
    var m, t := Busy([Processing], true, false), Busy([Returning], true, false);
    assert t.open && m.followLocation && m.keepAlive;
  }

  /** A stop during a request leaves the socket closed when that request ends, in every run, exactly when the client does
      not follow redirects or does not keep connections alive. */
  lemma StopHonouredIff(followLocation: bool, keepAlive: bool)
    ensures StopHonoured(followLocation, keepAlive) <==> !followLocation || !keepAlive
  {
    if followLocation && keepAlive { RedirectLosesStop(); } else { Honoured(followLocation, keepAlive); }
  }
}
