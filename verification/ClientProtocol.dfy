/** How the threads of one HTTP client share its socket: a request mutex that one thread may take again for a redirect,
    a socket mutex around every change of the socket, and a count of requests in flight. */
module ClientProtocol {
  import opened Basics

  /** Where a thread stands. `Want...` waits for a mutex, `In...` holds the socket mutex. */
  datatype Pc =
    | Idle
    | WantRequest            // send: waiting for the request mutex
    | WantEnter | InEnter    // send_: connecting and counting the request
    | Running                // send_: talking to the server
    | WantDrop | InDrop      // handle_request: the server asked to close
    | WantExit(ret: bool) | InExit(ret: bool)  // send_: leaving the scope
    | Returning              // send: about to release the request mutex
    | WantStop | InStop      // stop

  /** `frames` counts the send_ calls of this thread that are in flight, `locks` its holds on the request mutex. */
  datatype Thread = Thread(pc: Pc, frames: nat, locks: nat)

  /** `socket` is the open descriptor; `shut` says that it was shut down; the rest are the client's fields. */
  datatype State = State(
    threads: seq<Thread>,
    requestOwner: Option<nat>, requestDepth: nat,
    socketOwner: Option<nat>,
    socket: Option<nat>, shut: bool, nextId: nat,
    inFlight: nat, fromThread: Option<nat>, shouldClose: bool, keepAlive: bool)

  /** One step of a thread. Entering finds the socket alive or not and connects or not; a request succeeds or not. */
  datatype Action =
    | CallSend | TakeRequest
    | Lock
    | Enter(alive: bool, connected: bool)
    | AskDrop | Drop
    | Finish(ok: bool) | Exit
    | Return
    | CallStop | Stop

  function Init(n: nat, keepAlive: bool): State
  {
    State(seq(n, _ => Thread(Idle, 0, 0)), None, 0, None, None, false, 0, 0, None, false, keepAlive)
  }

  predicate HoldsSocket(p: Pc)
  {
    p.InEnter? || p.InDrop? || p.InExit? || p.InStop?
  }

  predicate WantsSocket(p: Pc)
  {
    p.WantEnter? || p.WantDrop? || p.WantExit? || p.WantStop?
  }

  function Locked(p: Pc): Pc
    requires WantsSocket(p)
  {
    match p
    case WantEnter => InEnter
    case WantDrop => InDrop
    case WantExit(r) => InExit(r)
    case WantStop => InStop
  }

  predicate Enabled(s: State, t: nat, a: Action)
  {
    t < |s.threads| &&
    var p := s.threads[t].pc;
    match a
    case CallSend => p.Idle? || p.Running?
    case TakeRequest => p.WantRequest? && (s.requestOwner == None || s.requestOwner == Some(t))
    case Lock => WantsSocket(p) && s.socketOwner == None
    case Enter(alive, _) => p.InEnter? && (alive ==> s.socket.Some? && !s.shut)
    case AskDrop => p.Running?
    case Drop => p.InDrop?
    case Finish(_) => p.Running?
    case Exit => p.InExit?
    case Return => p.Returning?
    case CallStop => p.Idle? || p.Running?
    case Stop => p.InStop?
  }

  function SetThread(s: State, t: nat, u: Thread): State
    requires t < |s.threads|
  {
    s.(threads := s.threads[t := u])
  }

  /** The caller's place after a send or stop: inside its own request, or idle. */
  function Home(u: Thread): Pc
  {
    if u.frames > 0 then Running else Idle
  }

  function CloseSocket(s: State): State
  {
    s.(socket := None, shut := false)
  }

  /** n - 1; the assertions say that it is never taken of zero. */
  function Less(n: nat): nat
  {
    if n > 0 then n - 1 else 0
  }

  /** The first critical section of send_. */
  function EnterBody(s: State, t: nat, alive: bool, connected: bool): State
    requires t < |s.threads|
  {
    var u := s.threads[t];
    var s1 := s.(shouldClose := false, socketOwner := None);
    if alive then
      SetThread(s1.(inFlight := s.inFlight + 1, fromThread := Some(t)), t, u.(pc := Running, frames := u.frames + 1))
    else
      var s2 := CloseSocket(s1);
      if connected then
        SetThread(s2.(socket := Some(s.nextId), nextId := s.nextId + 1, inFlight := s.inFlight + 1, fromThread := Some(t)),
                  t, u.(pc := Running, frames := u.frames + 1))
      else SetThread(s2, t, u.(pc := Returning))
  }

  /** The scope exit of send_. */
  function ExitBody(s: State, t: nat, ret: bool): State
    requires t < |s.threads|
  {
    var u := s.threads[t];
    var n := Less(s.inFlight);
    var s1 := s.(socketOwner := None, inFlight := n, fromThread := if n == 0 then None else s.fromThread);
    var s2 := if s.shouldClose || !s.keepAlive || !ret then CloseSocket(s1) else s1;
    SetThread(s2, t, u.(pc := Returning, frames := Less(u.frames)))
  }

  /** Stopping a busy client only shuts the connection down and asks the request to close it. */
  function StopBody(s: State, t: nat): State
    requires t < |s.threads|
  {
    var u := s.threads[t];
    var s1 := s.(socketOwner := None);
    var s2 := if s.inFlight > 0 then s1.(shut := s.socket.Some?, shouldClose := true) else CloseSocket(s1);
    SetThread(s2, t, u.(pc := Home(u)))
  }

  /** The client's assertions at this step: a socket is closed, and a second request counted, only by the thread whose
      requests are in flight; the count never drops below zero. */
  predicate Asserts(s: State, t: nat, a: Action)
  {
    var mine := s.inFlight == 0 || s.fromThread == Some(t);
    match a
    case Enter(alive, connected) =>
      (s.socket.Some? && !alive ==> mine) && (s.inFlight > 1 ==> s.fromThread == Some(t))
    case Drop => mine
    case Exit =>
      s.inFlight > 0 && t < |s.threads| && s.threads[t].frames > 0 && (s.inFlight == 1 || s.fromThread == Some(t))
    case Stop => s.inFlight == 0 ==> mine
    case _ => true
  }

  function Do(s: State, t: nat, a: Action): State
    requires Enabled(s, t, a)
  {
    var u := s.threads[t];
    match a
    case CallSend => SetThread(s, t, u.(pc := WantRequest))
    case TakeRequest =>
      SetThread(s.(requestOwner := Some(t), requestDepth := s.requestDepth + 1), t, u.(pc := WantEnter, locks := u.locks + 1))
    case Lock => SetThread(s.(socketOwner := Some(t)), t, u.(pc := Locked(u.pc)))
    case Enter(alive, connected) => EnterBody(s, t, alive, connected)
    case AskDrop => SetThread(s, t, u.(pc := WantDrop))
    case Drop => SetThread(CloseSocket(s.(socketOwner := None)), t, u.(pc := Running))
    case Finish(ok) => SetThread(s, t, u.(pc := WantExit(ok)))
    case Exit => ExitBody(s, t, u.pc.ret)
    case Return =>
      var d := Less(s.requestDepth);
      SetThread(s.(requestDepth := d, requestOwner := if d == 0 then None else s.requestOwner), t,
                u.(pc := Home(u), locks := Less(u.locks)))
    case CallStop => SetThread(s, t, u.(pc := WantStop))
    case Stop => StopBody(s, t)
  }

  // ---------- the invariant ----------

  /** A thread's holds on the request mutex are its requests in flight, plus one while it enters or returns. */
  predicate ThreadOk(u: Thread)
  {
    u.locks == u.frames + (if u.pc.WantEnter? || u.pc.InEnter? || u.pc.Returning? then 1 else 0) &&
    (u.pc.Idle? ==> u.frames == 0) &&
    (u.pc.Running? || u.pc.WantDrop? || u.pc.InDrop? || u.pc.WantExit? || u.pc.InExit? ==> u.frames > 0)
  }

  predicate RequestMutexOk(s: State)
  {
    match s.requestOwner
    case None => s.requestDepth == 0 && forall i :: 0 <= i < |s.threads| ==> s.threads[i].locks == 0
    case Some(o) =>
      o < |s.threads| && s.requestDepth > 0 && s.threads[o].locks == s.requestDepth &&
      forall i :: 0 <= i < |s.threads| && i != o ==> s.threads[i].locks == 0
  }

  predicate SocketMutexOk(s: State)
  {
    (s.socketOwner.Some? ==> s.socketOwner.value < |s.threads|) &&
    forall i :: 0 <= i < |s.threads| ==> (HoldsSocket(s.threads[i].pc) <==> s.socketOwner == Some(i))
  }

  /** The count is the owner's nesting depth, and the owner is recorded exactly while it is positive. */
  predicate CountOk(s: State)
  {
    match s.requestOwner
    case None => s.inFlight == 0 && s.fromThread == None
    case Some(o) =>
      o < |s.threads| && s.inFlight == s.threads[o].frames && s.fromThread == (if s.inFlight > 0 then Some(o) else None)
  }

  predicate Inv(s: State)
  {
    (forall i :: 0 <= i < |s.threads| ==> ThreadOk(s.threads[i])) &&
    RequestMutexOk(s) && SocketMutexOk(s) && CountOk(s) && (s.shut ==> s.socket.Some?)
  }

  /** A thread that holds the request mutex is its owner. */
  lemma OwnerIs(s: State, t: nat)
    requires Inv(s) && t < |s.threads| && s.threads[t].locks > 0
    ensures s.requestOwner == Some(t)
  {
  }

  /** The assertions never fire. */
  lemma AssertsHold(s: State, t: nat, a: Action)
    requires Inv(s) && Enabled(s, t, a)
    ensures Asserts(s, t, a)
  {
    assert ThreadOk(s.threads[t]);
    if s.threads[t].locks > 0 {
      OwnerIs(s, t);
    }
  }

  lemma InvInit(n: nat, keepAlive: bool)
    ensures Inv(Init(n, keepAlive))
  {
  }

  /** Moving between places that hold the same mutexes. */
  lemma InvMove(s: State, t: nat, p: Pc)
    requires Inv(s) && t < |s.threads| && !HoldsSocket(s.threads[t].pc) && !HoldsSocket(p)
    requires ThreadOk(s.threads[t].(pc := p))
    ensures Inv(SetThread(s, t, s.threads[t].(pc := p)))
  {
  }

  lemma InvTakeRequest(s: State, t: nat)
    requires Inv(s) && Enabled(s, t, TakeRequest)
    ensures Inv(Do(s, t, TakeRequest))
  {
    assert ThreadOk(s.threads[t]);
  }

  lemma InvLock(s: State, t: nat)
    requires Inv(s) && Enabled(s, t, Lock)
    ensures Inv(Do(s, t, Lock))
  {
    assert ThreadOk(s.threads[t]);
  }

  /** Leaving the socket mutex with the thread's holds unchanged. */
  lemma InvUnlock(s: State, t: nat, p: Pc)
    requires Inv(s) && t < |s.threads| && HoldsSocket(s.threads[t].pc) && !HoldsSocket(p)
    requires ThreadOk(s.threads[t].(pc := p))
    ensures Inv(SetThread(s.(socketOwner := None), t, s.threads[t].(pc := p)))
  {
  }

  /** The invariant does not look at the socket, nor at the close request. */
  lemma InvSocket(s: State, r: State)
    requires Inv(s) && r == s.(socket := r.socket, shut := r.shut, nextId := r.nextId, shouldClose := r.shouldClose)
    requires r.shut ==> r.socket.Some?
    ensures Inv(r)
  {
  }

  lemma InvCounted(s: State, t: nat)
    requires Inv(s) && t < |s.threads| && s.threads[t].pc.InEnter?
    ensures Inv(SetThread(s.(socketOwner := None, inFlight := s.inFlight + 1, fromThread := Some(t)), t,
                          s.threads[t].(pc := Running, frames := s.threads[t].frames + 1)))
  {
    assert ThreadOk(s.threads[t]);
    OwnerIs(s, t);
  }

  lemma InvEnter(s: State, t: nat, alive: bool, connected: bool)
    requires Inv(s) && Enabled(s, t, Enter(alive, connected))
    ensures Inv(Do(s, t, Enter(alive, connected)))
  {
    hide Inv, ThreadOk;
    var r := Do(s, t, Enter(alive, connected));
    var b := s.(socket := r.socket, shut := r.shut, nextId := r.nextId, shouldClose := r.shouldClose);
    ShutFact(s);
    InvSocket(s, b);
    if alive || connected {
      InvCounted(b, t);
    } else {
      EnterFails(s, t);
      InvUnlock(b, t, Returning);
    }
  }

  lemma ShutFact(s: State)
    requires Inv(s)
    ensures s.shut ==> s.socket.Some?
  {
  }

  lemma EnterFails(s: State, t: nat)
    requires Inv(s) && t < |s.threads| && s.threads[t].pc.InEnter?
    ensures ThreadOk(s.threads[t].(pc := Returning))
  {
    assert ThreadOk(s.threads[t]);
  }

  lemma InvUncounted(s: State, t: nat)
    requires Inv(s) && t < |s.threads| && s.threads[t].pc.InExit?
    ensures s.inFlight > 0 && s.threads[t].frames > 0
    ensures Inv(SetThread(s.(socketOwner := None, inFlight := s.inFlight - 1,
                             fromThread := if s.inFlight - 1 == 0 then None else s.fromThread), t,
                          s.threads[t].(pc := Returning, frames := s.threads[t].frames - 1)))
  {
    assert ThreadOk(s.threads[t]);
    OwnerIs(s, t);
  }

  lemma InvExit(s: State, t: nat)
    requires Inv(s) && Enabled(s, t, Exit)
    ensures Inv(Do(s, t, Exit))
  {
    hide Inv, ThreadOk;
    var r := Do(s, t, Exit);
    var b := s.(socket := r.socket, shut := r.shut, nextId := r.nextId, shouldClose := r.shouldClose);
    ShutFact(s);
    InvSocket(s, b);
    InvUncounted(b, t);
  }

  lemma InvReturn(s: State, t: nat)
    requires Inv(s) && Enabled(s, t, Return)
    ensures Inv(Do(s, t, Return))
  {
    assert ThreadOk(s.threads[t]);
    OwnerIs(s, t);
  }

  lemma InvDropStop(s: State, t: nat, a: Action)
    requires Inv(s) && Enabled(s, t, a) && (a.Drop? || a.Stop?)
    ensures Inv(Do(s, t, a))
  {
    hide Inv, ThreadOk, RequestMutexOk, SocketMutexOk, CountOk;
    var r := Do(s, t, a);
    var b := s.(socket := r.socket, shut := r.shut, nextId := r.nextId, shouldClose := r.shouldClose);
    ShutFact(s);
    InvSocket(s, b);
    GoesHome(s, t);
    InvUnlock(b, t, r.threads[t].pc);
  }

  lemma GoesHome(s: State, t: nat)
    requires Inv(s) && t < |s.threads| && (s.threads[t].pc.InDrop? || s.threads[t].pc.InStop?)
    ensures ThreadOk(s.threads[t].(pc := Home(s.threads[t])))
    ensures s.threads[t].pc.InDrop? ==> Home(s.threads[t]) == Running
  {
    assert ThreadOk(s.threads[t]);
  }

  /** Every step keeps the invariant. */
  lemma InvStep(s: State, t: nat, a: Action)
    requires Inv(s) && Enabled(s, t, a)
    ensures Inv(Do(s, t, a))
  {
    hide RequestMutexOk, SocketMutexOk, CountOk, EnterBody, ExitBody, StopBody;
    assert ThreadOk(s.threads[t]);
    match a
    case TakeRequest => InvTakeRequest(s, t);
    case Lock => InvLock(s, t);
    case Enter(alive, connected) => InvEnter(s, t, alive, connected);
    case Exit => InvExit(s, t);
    case Return => InvReturn(s, t);
    case Drop => InvDropStop(s, t, a);
    case Stop => InvDropStop(s, t, a);
    case CallSend => InvMove(s, t, WantRequest);
    case AskDrop => InvMove(s, t, WantDrop);
    case Finish(ok) => InvMove(s, t, WantExit(ok));
    case CallStop => InvMove(s, t, WantStop);
  }

  // ---------- whole runs ----------

  datatype Event = Event(t: nat, a: Action)

  /** The events can happen one after the other. */
  predicate Possible(s: State, run: seq<Event>)
    decreases |run|
  {
    run == [] || (Enabled(s, run[0].t, run[0].a) && Possible(Do(s, run[0].t, run[0].a), run[1..]))
  }

  function After(s: State, run: seq<Event>): State
    requires Possible(s, run)
    decreases |run|
  {
    if run == [] then s else After(Do(s, run[0].t, run[0].a), run[1..])
  }

  /** Extending a run by one event. */
  lemma {:induction false} Extended(s: State, run: seq<Event>, e: Event)
    requires Possible(s, run)
    ensures Possible(s, run + [e]) <==> Enabled(After(s, run), e.t, e.a)
    ensures Possible(s, run + [e]) ==> After(s, run + [e]) == Do(After(s, run), e.t, e.a)
    decreases |run|
  {
    hide Do, Enabled;
    if run == [] {
      assert run + [e] == [e];
    } else {
      assert (run + [e])[1..] == run[1..] + [e];
      Extended(Do(s, run[0].t, run[0].a), run[1..], e);
    }
  }

  lemma {:induction false} RunInv(s: State, run: seq<Event>)
    requires Inv(s) && Possible(s, run)
    ensures Inv(After(s, run))
    decreases |run|
  {
    hide Inv, Do, Enabled;
    if run != [] {
      InvStep(s, run[0].t, run[0].a);
      RunInv(Do(s, run[0].t, run[0].a), run[1..]);
    }
  }

  /** In every interleaving of any number of threads, whatever step comes next finds its assertions true. */
  lemma RunsAssert(n: nat, keepAlive: bool, run: seq<Event>, t: nat, a: Action)
    requires Possible(Init(n, keepAlive), run) && Enabled(After(Init(n, keepAlive), run), t, a)
    ensures Inv(After(Init(n, keepAlive), run)) && Asserts(After(Init(n, keepAlive), run), t, a)
  {
    hide Inv, Asserts, Enabled, Possible, After, Init;
    InvInit(n, keepAlive);
    RunInv(Init(n, keepAlive), run);
    AssertsHold(After(Init(n, keepAlive), run), t, a);
  }

  /** While one thread has a request in flight, no other thread's step opens, closes or replaces the descriptor. */
  lemma DescriptorStable(s: State, u: nat, t: nat, a: Action)
    requires Inv(s) && Enabled(s, t, a) && u < |s.threads| && s.threads[u].frames > 0 && t != u
    ensures Do(s, t, a).socket == s.socket
  {
    assert ThreadOk(s.threads[u]) && ThreadOk(s.threads[t]);
    OwnerIs(s, u);
  }

  /** The count is positive exactly while some thread has a request in flight, and that thread is the one recorded. */
  lemma CountIsOwners(s: State)
    requires Inv(s)
    ensures s.inFlight > 0 <==> exists u :: 0 <= u < |s.threads| && s.threads[u].frames > 0
    ensures forall u :: 0 <= u < |s.threads| && s.threads[u].frames > 0 ==>
              s.fromThread == Some(u) && s.inFlight == s.threads[u].frames
  {
    forall u | 0 <= u < |s.threads| && s.threads[u].frames > 0
      ensures s.fromThread == Some(u) && s.inFlight == s.threads[u].frames
    {
      assert ThreadOk(s.threads[u]);
      OwnerIs(s, u);
    }
  }

  // ---------- what stopping an idle client achieves ----------

  /** Some thread has a request in flight. */
  ghost predicate Busy(s: State)
  {
    exists u :: 0 <= u < |s.threads| && s.threads[u].frames > 0
  }

  /** A stop while no request is in flight leaves no socket; one that lands in a request leaves the socket, shut down, and
      asks for it to be closed. So behind a stop the socket is open exactly if it was and a request is in flight. */
  lemma StopLeaves(s: State, t: nat)
    requires Inv(s) && Enabled(s, t, Stop)
    ensures !Busy(s) ==> Do(s, t, Stop).socket == None && !Do(s, t, Stop).shut
    ensures Busy(s) ==>
              var r := Do(s, t, Stop); r.socket == s.socket && (r.shut <==> r.socket.Some?) && r.shouldClose
    ensures Do(s, t, Stop).socket.Some? <==> s.socket.Some? && Busy(s)
  {
    hide Inv;
    CountIsOwners(s);
  }

  /** A socket is opened by entering a request without a living connection, and by nothing else; its descriptor is new. */
  lemma SocketStep(s: State, t: nat, a: Action)
    requires Enabled(s, t, a)
    ensures var r := Do(s, t, a);
            s.nextId <= r.nextId &&
            (a == Enter(false, true) ==> r.socket == Some(s.nextId) && !r.shut && r.nextId == s.nextId + 1) &&
            (a == Enter(false, false) || a.Drop? ==> r.socket == None && !r.shut) &&
            (a != Enter(false, true) ==> r.socket == None || r.socket == s.socket)
  {
  }

  /** Some thread connects. */
  ghost predicate Connects(run: seq<Event>)
  {
    exists i :: 0 <= i < |run| && run[i].a == Enter(false, true)
  }

  /** Without a socket there is none until a thread enters a request and connects, and then it is a new one. */
  lemma {:induction false} NoSocketRun(s: State, run: seq<Event>, low: nat)
    requires Possible(s, run) && low <= s.nextId && (s.socket.Some? ==> s.socket.value >= low)
    ensures After(s, run).socket.Some? ==> (s.socket.Some? || Connects(run)) && After(s, run).socket.value >= low
    decreases |run|
  {
    hide Do, Enabled;
    if run != [] {
      SocketStep(s, run[0].t, run[0].a);
      NoSocketRun(Do(s, run[0].t, run[0].a), run[1..], low);
      assert forall i :: 0 <= i < |run[1..]| ==> run[1..][i] == run[i + 1];
    }
  }

  /** A stop with no request in flight: whatever the threads do behind it, there is no socket until one of them enters a
      request and connects, and no descriptor from before the stop comes back. */
  lemma IdleStop(s: State, t: nat, run: seq<Event>)
    requires Inv(s) && Enabled(s, t, Stop) && !Busy(s) && Possible(Do(s, t, Stop), run)
    ensures After(Do(s, t, Stop), run).socket.Some? ==>
              Connects(run) && After(Do(s, t, Stop), run).socket.value >= s.nextId
  {
    hide Inv, Do, Enabled, Possible, After, Busy, Connects;
    StopLeaves(s, t);
    SocketStep(s, t, Stop);
    NoSocketRun(Do(s, t, Stop), run, s.nextId);
  }

  // ---------- what stopping a busy client achieves ----------

  /** Thread u has a request in flight before, during and after the run. */
  ghost predicate Throughout(s: State, u: nat, run: seq<Event>)
    requires Possible(s, run)
    decreases |run|
  {
    u < |s.threads| && s.threads[u].frames > 0 &&
    (run != [] ==> Throughout(Do(s, run[0].t, run[0].a), u, run[1..]))
  }

  /** Thread u enters no request: no redirect, no second try. */
  ghost predicate NoEnter(u: nat, run: seq<Event>)
  {
    forall i :: 0 <= i < |run| ==> !(run[i].t == u && run[i].a.Enter?)
  }

  /** Some thread stops the client, and u enters no request afterwards. */
  ghost predicate StopPending(u: nat, run: seq<Event>)
  {
    exists i :: 0 <= i < |run| && run[i].a.Stop? && NoEnter(u, run[i + 1..])
  }

  lemma NoEnterFirst(u: nat, run: seq<Event>)
    requires run != []
    ensures NoEnter(u, run) <==> !(run[0].t == u && run[0].a.Enter?) && NoEnter(u, run[1..])
  {
    if !(run[0].t == u && run[0].a.Enter?) && NoEnter(u, run[1..]) {
      forall i | 0 <= i < |run|
        ensures !(run[i].t == u && run[i].a.Enter?)
      {
        if i > 0 {
          assert run[1..][i - 1] == run[i];
        }
      }
    }
    if NoEnter(u, run) {
      assert forall i :: 0 <= i < |run[1..]| ==> run[1..][i] == run[i + 1];
    }
  }

  lemma StopPendingFirst(u: nat, run: seq<Event>)
    requires run != []
    ensures StopPending(u, run) <==> (run[0].a.Stop? && NoEnter(u, run[1..])) || StopPending(u, run[1..])
  {
    hide NoEnter;
    if run[0].a.Stop? && NoEnter(u, run[1..]) {
      assert run[0 + 1..] == run[1..];
    }
    if StopPending(u, run[1..]) {
      var i :| 0 <= i < |run[1..]| && run[1..][i].a.Stop? && NoEnter(u, run[1..][i + 1..]);
      assert run[1..][i + 1..] == run[i + 1 + 1..];
      assert run[i + 1].a.Stop?;
    }
    if StopPending(u, run) {
      var i :| 0 <= i < |run| && run[i].a.Stop? && NoEnter(u, run[i + 1..]);
      if i > 0 {
        assert run[1..][i - 1 + 1..] == run[i + 1..];
        assert run[1..][i - 1].a.Stop?;
      }
    }
  }

  /** The request mutex: while u has a request in flight no other thread enters one, drops the connection or leaves one. */
  lemma OthersWait(s: State, u: nat, t: nat, a: Action)
    requires Inv(s) && u < |s.threads| && s.threads[u].frames > 0 && Enabled(s, t, a) && t != u
    ensures !a.Enter? && !a.Drop? && !a.Exit? && Do(s, t, a).threads[u] == s.threads[u]
  {
    assert ThreadOk(s.threads[u]) && ThreadOk(s.threads[t]);
    OwnerIs(s, u);
  }

  /** While u has a request in flight every stop lands in it, and only u itself can take the close request back. */
  lemma FlagStep(s: State, u: nat, t: nat, a: Action)
    requires Inv(s) && u < |s.threads| && s.threads[u].frames > 0 && Enabled(s, t, a)
    ensures Do(s, t, a).shouldClose == if t == u && a.Enter? then false else a.Stop? || s.shouldClose
  {
    hide Inv;
    CountIsOwners(s);
    if t != u {
      OthersWait(s, u, t, a);
    }
  }

  /** The close request at the end of a run: it stood at the beginning, or a stop came, and u has entered no request since. */
  lemma {:induction false} FlagIsStopPending(s: State, u: nat, run: seq<Event>)
    requires Inv(s) && Possible(s, run) && Throughout(s, u, run)
    ensures After(s, run).shouldClose <==> StopPending(u, run) || (s.shouldClose && NoEnter(u, run))
    decreases |run|
  {
    hide Do, Enabled, NoEnter, StopPending, Inv;
    if run == [] {
      NothingEntered(u);
    } else {
      var next := Do(s, run[0].t, run[0].a);
      InvStep(s, run[0].t, run[0].a);
      FlagStep(s, u, run[0].t, run[0].a);
      FlagIsStopPending(next, u, run[1..]);
      NoEnterFirst(u, run);
      StopPendingFirst(u, run);
    }
  }

  lemma NothingEntered(u: nat)
    ensures NoEnter(u, []) && !StopPending(u, [])
  {
  }

  lemma FramesStep(s: State, u: nat, t: nat, a: Action)
    requires Enabled(s, t, a) && u < |s.threads|
    ensures u < |Do(s, t, a).threads|
    ensures !(t == u && a.Enter?) ==> Do(s, t, a).threads[u].frames <= s.threads[u].frames
  {
    OnlyOwn(s, t, a);
    if t == u && !a.Enter? {
      OwnFrames(s, t, a);
    }
  }

  /** A step leaves the other threads as they are. */
  lemma OnlyOwn(s: State, t: nat, a: Action)
    requires Enabled(s, t, a)
    ensures var now := Do(s, t, a).threads;
            |now| == |s.threads| && forall v :: 0 <= v < |now| && v != t ==> now[v] == s.threads[v]
  {
  }

  lemma OwnFrames(s: State, t: nat, a: Action)
    requires Enabled(s, t, a) && !a.Enter?
    ensures |Do(s, t, a).threads| == |s.threads| && Do(s, t, a).threads[t].frames <= s.threads[t].frames
  {
  }

  /** Without a new request the number of those in flight only falls; if some are left at the end, some were all along. */
  lemma {:induction false} HeldThroughout(s: State, u: nat, run: seq<Event>)
    requires Possible(s, run) && NoEnter(u, run) && u < |s.threads|
    requires u < |After(s, run).threads| && After(s, run).threads[u].frames > 0
    ensures Throughout(s, u, run)
    ensures After(s, run).threads[u].frames <= s.threads[u].frames
    decreases |run|
  {
    hide Do, Enabled, NoEnter;
    if run != [] {
      NoEnterFirst(u, run);
      FramesStep(s, u, run[0].t, run[0].a);
      HeldThroughout(Do(s, run[0].t, run[0].a), u, run[1..]);
    }
  }

  /** A stop that lands in a request of u forces the connection to be closed when that request is left, whatever the other
      threads do in between, provided u has entered no other request (for a redirect or an authentication retry) since. */
  lemma StopForcesClose(s: State, u: nat, t: nat, run: seq<Event>)
    requires Inv(s) && u < |s.threads| && s.threads[u].frames > 0 && Enabled(s, t, Stop)
    requires Possible(Do(s, t, Stop), run) && NoEnter(u, run)
    requires Enabled(After(Do(s, t, Stop), run), u, Exit)
    ensures Do(After(Do(s, t, Stop), run), u, Exit).socket == None
  {
    hide Possible, After, NoEnter, StopPending, Inv, Throughout;
    var m := Do(s, t, Stop);
    InvStep(s, t, Stop);
    FlagStep(s, u, t, Stop);
    RunInv(m, run);
    InRequest(After(m, run), u);
    HeldThroughout(m, u, run);
    FlagIsStopPending(m, u, run);
  }

  lemma InRequest(s: State, u: nat)
    requires Inv(s) && u < |s.threads| && s.threads[u].pc.InExit?
    ensures s.threads[u].frames > 0
  {
    assert ThreadOk(s.threads[u]);
  }

  /** A request of u, from entering it to leaving it: it leaves no socket open exactly when it was closed already, failed, is
      not kept alive, or a stop has come since u last entered a request. */
  lemma ExitCloses(s: State, u: nat, alive: bool, connected: bool, run: seq<Event>)
    requires Inv(s) && Enabled(s, u, Enter(alive, connected)) && (alive || connected)
    requires Possible(Do(s, u, Enter(alive, connected)), run) && Throughout(Do(s, u, Enter(alive, connected)), u, run)
    requires Enabled(After(Do(s, u, Enter(alive, connected)), run), u, Exit)
    ensures var r := After(Do(s, u, Enter(alive, connected)), run);
            Do(r, u, Exit).socket == None <==>
              r.socket == None || !r.threads[u].pc.ret || !r.keepAlive || StopPending(u, run)
  {
    hide Possible, StopPending, Inv, Throughout;
    InvStep(s, u, Enter(alive, connected));
    FlagIsStopPending(Do(s, u, Enter(alive, connected)), u, run);
  }

  /** Nothing but a stop goes wrong: the server never asks to close, every request succeeds, every connection is made. */
  predicate Smooth(u: nat, e: Event)
  {
    e.t == u ==> !e.a.AskDrop? && (e.a.Finish? ==> e.a.ok) && (e.a.Enter? ==> e.a.alive || e.a.connected)
  }

  ghost predicate AllSmooth(u: nat, run: seq<Event>)
  {
    forall i :: 0 <= i < |run| ==> Smooth(u, run[i])
  }

  /** The socket of a kept-alive client is gone only if a close request stands. */
  predicate Kept(s: State, u: nat)
  {
    u < |s.threads| && s.keepAlive && (s.socket == None ==> s.shouldClose) &&
    var p := s.threads[u].pc;
    !p.WantDrop? && !p.InDrop? && (p.WantExit? ==> p.ret) && (p.InExit? ==> p.ret)
  }

  lemma KeptStep(s: State, u: nat, t: nat, a: Action)
    requires Inv(s) && Kept(s, u) && s.threads[u].frames > 0 && Enabled(s, t, a) && Smooth(u, Event(t, a))
    ensures Kept(Do(s, t, a), u)
  {
    hide Inv;
    CountIsOwners(s);
    if t != u {
      OthersWait(s, u, t, a);
    }
  }

  lemma {:induction false} KeptRun(s: State, u: nat, run: seq<Event>)
    requires Inv(s) && Kept(s, u) && Possible(s, run) && Throughout(s, u, run) && AllSmooth(u, run)
    ensures Kept(After(s, run), u)
    decreases |run|
  {
    hide Do, Enabled, Inv, Kept, Smooth;
    if run != [] {
      InvStep(s, run[0].t, run[0].a);
      assert Smooth(u, run[0]) && run[0] == Event(run[0].t, run[0].a);
      KeptStep(s, u, run[0].t, run[0].a);
      assert forall i :: 0 <= i < |run[1..]| ==> run[1..][i] == run[i + 1];
      KeptRun(Do(s, run[0].t, run[0].a), u, run[1..]);
    }
  }

  /** So when nothing else goes wrong, a kept-alive client is left without a socket exactly if a stop came since u last
      entered a request: a stop is forgotten exactly by entering another one after it. */
  lemma StopDecides(s: State, u: nat, alive: bool, connected: bool, run: seq<Event>)
    requires Inv(s) && s.keepAlive && Enabled(s, u, Enter(alive, connected)) && (alive || connected)
    requires Possible(Do(s, u, Enter(alive, connected)), run) && Throughout(Do(s, u, Enter(alive, connected)), u, run)
    requires AllSmooth(u, run)
    requires Enabled(After(Do(s, u, Enter(alive, connected)), run), u, Exit)
    ensures Do(After(Do(s, u, Enter(alive, connected)), run), u, Exit).socket == None <==> StopPending(u, run)
  {
    hide Possible, StopPending, Inv, Throughout, AllSmooth;
    InvStep(s, u, Enter(alive, connected));
    var m := Do(s, u, Enter(alive, connected));
    KeptRun(m, u, run);
    FlagIsStopPending(m, u, run);
  }

  lemma {:induction false} Appended(s: State, a: seq<Event>, b: seq<Event>)
    requires Possible(s, a) && Possible(After(s, a), b)
    ensures Possible(s, a + b) && After(s, a + b) == After(After(s, a), b)
    decreases |a|
  {
    hide Do, Enabled;
    if a == [] {
      assert a + b == b;
    } else {
      assert (a + b)[1..] == a[1..] + b;
      Appended(Do(s, a[0].t, a[0].a), a[1..], b);
    }
  }

  lemma Two(s: State, d: Event, e: Event)
    requires Enabled(s, d.t, d.a) && Enabled(Do(s, d.t, d.a), e.t, e.a)
    ensures Possible(s, [d, e]) && After(s, [d, e]) == Do(Do(s, d.t, d.a), e.t, e.a)
  {
    hide Do, Enabled;
    Extended(s, [], d);
    assert [] + [d] == [d] && [d] + [e] == [d, e];
    Extended(s, [d], e);
  }

  /** send up to the point where the request has a fresh connection. */
  function SendRun(t: nat): seq<Event>
  {
    [Event(t, CallSend), Event(t, TakeRequest)] + [Event(t, Lock), Event(t, Enter(false, true))]
  }

  lemma TakesRequest(s: State, t: nat)
    requires Enabled(s, t, CallSend) && (s.requestOwner == None || s.requestOwner == Some(t))
    ensures var r := [Event(t, CallSend), Event(t, TakeRequest)];
            Possible(s, r) && After(s, r) == s.(requestOwner := Some(t), requestDepth := s.requestDepth + 1,
              threads := s.threads[t := Thread(WantEnter, s.threads[t].frames, s.threads[t].locks + 1)])
  {
    hide Possible, After;
    var m := Do(s, t, CallSend);
    Two(s, Event(t, CallSend), Event(t, TakeRequest));
  }

  lemma EntersFresh(s: State, t: nat)
    requires t < |s.threads| && s.threads[t].pc == WantEnter && s.socketOwner == None
    ensures var r := [Event(t, Lock), Event(t, Enter(false, true))];
            Possible(s, r) && After(s, r) == s.(shouldClose := false, socket := Some(s.nextId), shut := false,
              nextId := s.nextId + 1, inFlight := s.inFlight + 1, fromThread := Some(t),
              threads := s.threads[t := Thread(Running, s.threads[t].frames + 1, s.threads[t].locks)])
  {
    hide Possible, After;
    var m := Do(s, t, Lock);
    Two(s, Event(t, Lock), Event(t, Enter(false, true)));
  }

  lemma SendsFresh(s: State, t: nat)
    requires Enabled(s, t, CallSend) && s.socketOwner == None && (s.requestOwner == None || s.requestOwner == Some(t))
    ensures Possible(s, SendRun(t))
    ensures After(s, SendRun(t)) ==
            s.(requestOwner := Some(t), requestDepth := s.requestDepth + 1, shouldClose := false, socket := Some(s.nextId),
               shut := false, nextId := s.nextId + 1, inFlight := s.inFlight + 1, fromThread := Some(t),
               threads := s.threads[t := Thread(Running, s.threads[t].frames + 1, s.threads[t].locks + 1)])
  {
    hide Possible, After, Do;
    TakesRequest(s, t);
    var m := After(s, [Event(t, CallSend), Event(t, TakeRequest)]);
    EntersFresh(m, t);
    Appended(s, [Event(t, CallSend), Event(t, TakeRequest)], [Event(t, Lock), Event(t, Enter(false, true))]);
  }

  /** A successful request on its way out. */
  function ExitRun(t: nat): seq<Event>
  {
    [Event(t, Finish(true)), Event(t, Lock)] + [Event(t, Exit), Event(t, Return)]
  }

  lemma Finishes(s: State, t: nat)
    requires Enabled(s, t, Finish(true)) && s.socketOwner == None
    ensures var r := [Event(t, Finish(true)), Event(t, Lock)];
            Possible(s, r) && After(s, r) == s.(socketOwner := Some(t),
              threads := s.threads[t := Thread(InExit(true), s.threads[t].frames, s.threads[t].locks)])
  {
    hide Possible, After;
    var m := Do(s, t, Finish(true));
    Two(s, Event(t, Finish(true)), Event(t, Lock));
  }

  lemma Leaves(s: State, t: nat)
    requires t < |s.threads| && s.threads[t].pc == InExit(true) && s.keepAlive && !s.shouldClose
    requires s.inFlight > 0 && s.threads[t].frames > 0 && s.threads[t].locks > 0 && s.requestDepth > 0
    ensures var r := [Event(t, Exit), Event(t, Return)]; var n, f := s.inFlight - 1, s.threads[t].frames - 1;
            Possible(s, r) && After(s, r) ==
            s.(socketOwner := None, requestDepth := s.requestDepth - 1,
               requestOwner := if s.requestDepth == 1 then None else s.requestOwner,
               inFlight := n, fromThread := if n == 0 then None else s.fromThread,
               threads := s.threads[t := Thread(if f > 0 then Running else Idle, f, s.threads[t].locks - 1)])
  {
    hide Possible, After;
    var m := Do(s, t, Exit);
    Two(s, Event(t, Exit), Event(t, Return));
  }

  lemma ExitsOpen(s: State, t: nat)
    requires Enabled(s, t, Finish(true)) && s.socketOwner == None && s.keepAlive && !s.shouldClose
    requires s.inFlight > 0 && s.threads[t].frames > 0 && s.threads[t].locks > 0 && s.requestDepth > 0
    ensures Possible(s, ExitRun(t))
    ensures var n, f := s.inFlight - 1, s.threads[t].frames - 1;
            After(s, ExitRun(t)) ==
            s.(requestDepth := s.requestDepth - 1, requestOwner := if s.requestDepth == 1 then None else s.requestOwner,
               inFlight := n, fromThread := if n == 0 then None else s.fromThread,
               threads := s.threads[t := Thread(if f > 0 then Running else Idle, f, s.threads[t].locks - 1)])
  {
    hide Possible, After, Do;
    Finishes(s, t);
    var m := After(s, [Event(t, Finish(true)), Event(t, Lock)]);
    Leaves(m, t);
    Appended(s, [Event(t, Finish(true)), Event(t, Lock)], [Event(t, Exit), Event(t, Return)]);
  }

  function StopRun(t: nat): seq<Event>
  {
    [Event(t, CallStop), Event(t, Lock)] + [Event(t, Stop)]
  }

  lemma StopsBusy(s: State, t: nat)
    requires t < |s.threads| && s.threads[t].pc == Idle && s.threads[t].frames == 0
    requires s.socketOwner == None && s.inFlight > 0
    ensures Possible(s, StopRun(t)) && After(s, StopRun(t)) == s.(shut := s.socket.Some?, shouldClose := true)
  {
    Two(s, Event(t, CallStop), Event(t, Lock));
    var m := Do(Do(s, t, CallStop), t, Lock);
    Extended(s, [Event(t, CallStop), Event(t, Lock)], Event(t, Stop));
    assert Do(m, t, Stop).threads == s.threads;
  }

  lemma StopsIdle(s: State, t: nat)
    requires t < |s.threads| && s.threads[t] == Thread(Idle, 0, 0) && s.socketOwner == None && s.inFlight == 0
    ensures Possible(s, StopRun(t)) && After(s, StopRun(t)).socket == None
  {
    Two(s, Event(t, CallStop), Event(t, Lock));
    Extended(s, [Event(t, CallStop), Event(t, Lock)], Event(t, Stop));
  }

  /** A kept-alive request leaves its socket open; a stop behind it closes it. */
  lemma StopBehindRequest()
    ensures var s, r := Init(1, true), SendRun(0) + ExitRun(0);
            Possible(s, r) && After(s, r).socket == Some(0) &&
            Possible(After(s, r), StopRun(0)) && After(After(s, r), StopRun(0)).socket == None
  {
    hide Possible, After, Enabled, SendRun, StopRun, ExitRun, Do;
    var s := Init(1, true);
    CanSend(s, 0);
    SendsFresh(s, 0);
    var m := After(s, SendRun(0));
    CanSend(m, 0);
    ExitsOpen(m, 0);
    Appended(s, SendRun(0), ExitRun(0));
    StopsIdle(After(m, ExitRun(0)), 0);
  }

  /** A stop that lands in a request can be lost. Thread 0 sends and is redirected, thread 1 stops the client in between:
      both calls have returned, and the client still holds an open socket. */
  lemma StopForgotten() returns (run: seq<Event>)
    ensures run == SendRun(0) + (StopRun(1) + (SendRun(0) + (ExitRun(0) + ExitRun(0))))
    ensures Possible(Init(2, true), run)
    ensures var r := After(Init(2, true), run);
            |r.threads| == 2 && r.threads[0].pc == Idle && r.threads[1].pc == Idle && r.socket == Some(1)
  {
    hide Possible, After, Enabled, SendRun, StopRun, ExitRun, Do;
    var s0 := Init(2, true);
    CanSend(s0, 0);
    SendsFresh(s0, 0);
    var s1 := After(s0, SendRun(0));
    StopsBusy(s1, 1);
    var s2 := After(s1, StopRun(1));
    CanSend(s2, 0);
    SendsFresh(s2, 0);
    var s3 := After(s2, SendRun(0));
    assert s3.threads[0] == Thread(Running, 2, 2) && s3.inFlight == 2 && s3.requestDepth == 2 && s3.socket == Some(1);
    run := LeaveTwice(s3);
    Appended(s2, SendRun(0), run);
    Appended(s1, StopRun(1), SendRun(0) + run);
    Appended(s0, SendRun(0), StopRun(1) + (SendRun(0) + run));
    run := SendRun(0) + (StopRun(1) + (SendRun(0) + run));
  }

  lemma LeaveTwice(s: State) returns (run: seq<Event>)
    requires |s.threads| == 2 && s.threads[0] == Thread(Running, 2, 2) && s.inFlight == 2 && s.requestDepth == 2
    requires s.socketOwner == None && s.keepAlive && !s.shouldClose
    ensures run == ExitRun(0) + ExitRun(0) && Possible(s, run)
    ensures var r := After(s, run); |r.threads| == 2 && r.threads[0].pc == Idle && r.threads[1] == s.threads[1] && r.socket == s.socket
  {
    hide Possible, After, Enabled, ExitRun, Do;
    CanSend(s, 0);
    ExitsOpen(s, 0);
    var m := After(s, ExitRun(0));
    CanSend(m, 0);
    ExitsOpen(m, 0);
    Appended(s, ExitRun(0), ExitRun(0));
    run := ExitRun(0) + ExitRun(0);
  }

  lemma CanSend(s: State, t: nat)
    requires t < |s.threads| && (s.threads[t].pc.Idle? || s.threads[t].pc.Running?)
    ensures Enabled(s, t, CallSend) && (s.threads[t].pc.Running? ==> Enabled(s, t, Finish(true)))
  {
  }

  // ---------- progress ----------

  /** Whenever a call is under way, some call can take a step: the two mutexes never deadlock. */
  lemma NoDeadlock(s: State, t: nat) returns (u: nat, a: Action)
    requires Inv(s) && t < |s.threads| && !s.threads[t].pc.Idle?
    ensures u < |s.threads| && !s.threads[u].pc.Idle? && Enabled(s, u, a)
  {
    if s.socketOwner.Some? {
      u := s.socketOwner.value;
      var p := s.threads[u].pc;
      a := if p.InEnter? then Enter(false, true) else if p.InDrop? then Drop else if p.InExit? then Exit else Stop;
    } else {
      u := if s.threads[t].pc.WantRequest? && s.requestOwner.Some? then s.requestOwner.value else t;
      assert ThreadOk(s.threads[u]);
      var p := s.threads[u].pc;
      a := if p.WantRequest? then TakeRequest else if WantsSocket(p) then Lock else if p.Running? then Finish(true) else Return;
    }
  }
}
