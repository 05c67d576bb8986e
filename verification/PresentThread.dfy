/**
  Remote calls between the main thread and the present thread (src/Glamor/PresentThread.cc), over
  two message queues, with the shutdown handshake by null messages. The steps of the two threads
  interleave freely.
 */
module PresentThread {
  import opened MessageQueue

  /** To the present thread: a remote call, or the null message that asks it to exit. */
  datatype Request = Call(id: nat) | Quit

  /** To the main thread: a call that has been executed, a signal, or the null message that says goodbye. */
  datatype Reply = Response(id: nat) | Signal | Bye

  /** An event loop: idle, woken but not yet draining, working through what it took. */
  datatype Loop<T> = Idle | Woken | Handling(batch: seq<T>)

  /** The present thread runs its loop, has left it, or has said goodbye and ended. */
  datatype Client = InLoop(loop: Loop<Request>) | LoopExited | Gone

  /**
    `alive` tells whether the present thread's queue still exists, `handles` how many other handles
    keep the present thread's event loop running. History: the calls that were
    enqueued, those whose callback has run, those that were still queued when the queue was
    destroyed; whether Dispose was called, whether anything was enqueued after it, and which calls.
   */
  datatype State = State(
    present: Channel<Request>, alive: bool, handles: nat, client: Client,
    main: Channel<Reply>, host: Loop<Reply>, hasExited: bool,
    issued: seq<nat>, callbacks: seq<nat>, lost: seq<nat>, disposed: bool, late: bool, lateCalls: seq<nat>)

  datatype Event =
    | HostCall(id: nat) | HostDispose
    | ClientNotice | ClientDrain | ClientHandle | ClientIdle | ClientSignal | ClientExitLoop | ClientBye
    | ClientOpenHandle | ClientCloseHandle
    | HostNotice | HostDrain | HostHandle | HostIdle

  /**
    Handling a message after the queue was destroyed is undefined behaviour, so ClientHandle is not
    enabled then; `UndefinedIff` says exactly which runs get there.
   */
  predicate Enabled(s: State, e: Event)
  {
    match e
    case HostCall(_) => true
    case HostDispose => true
    case ClientNotice => s.client == InLoop(Idle) && s.alive && s.present.pending
    case ClientDrain => s.client == InLoop(Woken)
    case ClientHandle => s.client.InLoop? && s.client.loop.Handling? && s.client.loop.batch != [] && s.alive
    case ClientIdle => s.client == InLoop(Handling([]))
    case ClientSignal => s.client.InLoop?
    case ClientOpenHandle => s.client.InLoop?
    case ClientCloseHandle => s.client.InLoop? && s.handles > 0
    case ClientExitLoop => s.client == InLoop(Idle) && !s.alive && s.handles == 0
    case ClientBye => s.client.LoopExited?
    case HostNotice => s.host.Idle? && s.main.pending
    case HostDrain => s.host.Woken?
    case HostHandle => s.host.Handling? && s.host.batch != []
    case HostIdle => s.host == Handling([])
  }

  /** What the main thread knows: whether the present thread has exited, and the callbacks it has run. */
  datatype Heard = Heard(hasExited: bool, callbacks: seq<nat>)

  function Hear(h: Heard, r: Reply): Heard
  {
    if h.hasExited then h
    else
      match r
      case Bye => h.(hasExited := true)
      case Response(id) => h.(callbacks := h.callbacks + [id])
      case Signal => h
  }

  function Next(s: State, e: Event): State
    requires Enabled(s, e)
  {
    match e
    case HostCall(id) =>
      if !s.alive then s
      else s.(present := Enqueued(s.present, Call(id)), issued := s.issued + [id], late := s.late || s.disposed,
              lateCalls := if s.disposed then s.lateCalls + [id] else s.lateCalls)
    case HostDispose =>
      if !s.alive then s
      else s.(present := Enqueued(s.present, Quit), disposed := true, late := s.late || s.disposed)
    case ClientNotice => s.(present := Noticed(s.present), client := InLoop(Woken))
    case ClientDrain => s.(present := Drained(s.present), client := InLoop(Handling(s.present.queue)))
    case ClientHandle =>
      var batch := s.client.loop.batch;
      var rest := InLoop(Handling(batch[1..]));
      (match batch[0]
       case Quit => s.(alive := false, client := rest, lost := Calls(s.present.queue), present := Drained(s.present))
       case Call(id) => s.(client := rest, main := Enqueued(s.main, Response(id))))
    case ClientIdle => s.(client := InLoop(Idle))
    case ClientSignal => s.(main := Enqueued(s.main, Signal))
    case ClientOpenHandle => s.(handles := s.handles + 1)
    case ClientCloseHandle => s.(handles := s.handles - 1)
    case ClientExitLoop => s.(client := LoopExited)
    case ClientBye => s.(client := Gone, main := Enqueued(s.main, Bye))
    case HostNotice => s.(main := Noticed(s.main), host := Woken)
    case HostDrain => s.(main := Drained(s.main), host := Handling(s.main.queue))
    case HostHandle =>
      var h := Hear(Heard(s.hasExited, s.callbacks), s.host.batch[0]);
      s.(host := Handling(s.host.batch[1..]), hasExited := h.hasExited, callbacks := h.callbacks)
    case HostIdle => s.(host := Idle)
  }

  // ---------- messages in flight ----------

  function Calls(ms: seq<Request>): seq<nat>
  {
    if ms == [] then [] else (if ms[0].Call? then [ms[0].id] else []) + Calls(ms[1..])
  }

  function Responses(ms: seq<Reply>): seq<nat>
  {
    if ms == [] then [] else (if ms[0].Response? then [ms[0].id] else []) + Responses(ms[1..])
  }

  lemma {:induction false} CallsOfSum(a: seq<Request>, b: seq<Request>)
    ensures Calls(a + b) == Calls(a) + Calls(b)
  {
    if a == [] {
      assert a + b == b;
    } else {
      CallsOfSum(a[1..], b);
      assert (a + b)[1..] == a[1..] + b;
      var first := if a[0].Call? then [a[0].id] else [];
      assert first + (Calls(a[1..]) + Calls(b)) == first + Calls(a[1..]) + Calls(b);
    }
  }

  lemma {:induction false} ResponsesOfSum(a: seq<Reply>, b: seq<Reply>)
    ensures Responses(a + b) == Responses(a) + Responses(b)
  {
    if a == [] {
      assert a + b == b;
    } else {
      ResponsesOfSum(a[1..], b);
      assert (a + b)[1..] == a[1..] + b;
      var first := if a[0].Response? then [a[0].id] else [];
      assert first + (Responses(a[1..]) + Responses(b)) == first + Responses(a[1..]) + Responses(b);
    }
  }

  /** The requests the present thread has not executed yet, in order. */
  function Requests(s: State): seq<Request> { Batch(s) + s.present.queue }

  /** The requests taken from the queue and not executed yet. */
  function Batch(s: State): seq<Request>
  {
    if s.client.InLoop? && s.client.loop.Handling? then s.client.loop.batch else []
  }

  /** The replies the main thread has not handled yet, in order. */
  function Replies(s: State): seq<Reply>
  {
    (if s.host.Handling? then s.host.batch else []) + s.main.queue
  }

  // ---------- invariants ----------

  /** Every call is accounted for, in the order of issue. */
  ghost predicate OrderInv(s: State)
  {
    s.issued == s.callbacks + Responses(Replies(s)) + Calls(Requests(s)) + s.lost
  }

  /** A queue that is not empty has a wakeup pending or being served. */
  ghost predicate WakeupInv(s: State)
  {
    && (s.present.queue != [] ==> s.alive && (s.present.pending || s.client == InLoop(Woken)))
    && (s.main.queue != [] ==> s.main.pending || s.host.Woken?)
  }

  /** The goodbye is the last thing the main thread hears. */
  ghost predicate ByeInv(s: State)
  {
    && (forall k :: 0 <= k < |Replies(s)| && Replies(s)[k].Bye? ==> k == |Replies(s)| - 1 && s.client.Gone?)
    && (s.hasExited ==> s.client.Gone? && Replies(s) == [])
    && (s.client.Gone? && !s.hasExited ==> Replies(s) != [] && Replies(s)[|Replies(s)| - 1].Bye?)
    && (!s.client.InLoop? ==> !s.alive)
    && (s.alive ==> s.lost == [])
  }

  /** As long as nothing is enqueued after Dispose: the request to quit is the last one. */
  ghost predicate QuitInv(s: State)
  {
    !s.late ==>
      && (forall k :: 0 <= k < |Requests(s)| && Requests(s)[k].Quit? ==> k == |Requests(s)| - 1 && s.disposed)
      && (s.disposed && s.alive ==> Requests(s) != [] && Requests(s)[|Requests(s)| - 1].Quit?)
      && (!s.alive ==> Requests(s) == [] && s.lost == [] && s.disposed)
  }

  ghost predicate Inv(s: State) { OrderInv(s) && WakeupInv(s) && ByeInv(s) && QuitInv(s) }

  /** Steps that neither send nor consume a message. */
  predicate IsSilent(e: Event)
  {
    || e.ClientNotice? || e.ClientDrain? || e.ClientIdle? || e.ClientExitLoop? || e.HostNotice? || e.HostDrain? || e.HostIdle?
    || e.ClientOpenHandle? || e.ClientCloseHandle?
  }

  lemma SilentKeepsStreams(s: State, e: Event)
    requires Enabled(s, e) && IsSilent(e)
    ensures Requests(Next(s, e)) == Requests(s) && Replies(Next(s, e)) == Replies(s)
  {
    match e
    case ClientDrain => assert [] + s.present.queue == s.present.queue + [];
    case HostDrain => assert [] + s.main.queue == s.main.queue + [];
    case _ =>
  }

  lemma SilentStep(s: State, e: Event)
    requires Inv(s) && Enabled(s, e) && IsSilent(e)
    ensures Inv(Next(s, e))
  {
    SilentKeepsStreams(s, e);
    SilentWakeups(s, e);
    SilentKeepsHistory(s, e);
    hide Requests, Replies, Next, Enabled, WakeupInv, Calls, Responses;
  }

  lemma SilentKeepsHistory(s: State, e: Event)
    requires Enabled(s, e) && IsSilent(e)
    ensures var s' := Next(s, e);
      && s'.issued == s.issued && s'.callbacks == s.callbacks && s'.lost == s.lost
      && s'.disposed == s.disposed && s'.late == s.late && s'.alive == s.alive && s'.hasExited == s.hasExited
      && s'.client.Gone? == s.client.Gone? && (!s'.client.InLoop? ==> !s.client.InLoop? || !s.alive)
  {
  }

  lemma SilentWakeups(s: State, e: Event)
    requires WakeupInv(s) && Enabled(s, e) && IsSilent(e)
    ensures WakeupInv(Next(s, e))
  {
  }

  /** The main thread sends a request. */
  lemma SendStep(s: State, e: Event, r: Request)
    requires Inv(s) && s.alive
    requires (e == HostDispose && r == Quit) || (r.Call? && e == HostCall(r.id))
    ensures Inv(Next(s, e))
  {
    var s' := Next(s, e);
    assert Requests(s') == Requests(s) + [r];
    assert Replies(s') == Replies(s);
    CallsOfSum(Requests(s), [r]);
    SendKeepsOrder(s, s', r);
    SendKeepsQuit(s, s', r);
  }

  lemma SendKeepsOrder(s: State, s': State, r: Request)
    requires OrderInv(s) && s.lost == [] && s'.lost == [] && s'.callbacks == s.callbacks && Replies(s') == Replies(s)
    requires Calls(Requests(s')) == Calls(Requests(s)) + Calls([r])
    requires s'.issued == if r.Call? then s.issued + [r.id] else s.issued
    ensures OrderInv(s')
  {
    assert Calls([r]) == if r.Call? then [r.id] else [];
  }

  lemma SendKeepsQuit(s: State, s': State, r: Request)
    requires QuitInv(s) && s.alive && s'.alive && Requests(s') == Requests(s) + [r]
    requires s'.disposed == (s.disposed || r.Quit?) && s'.late == (s.late || s.disposed)
    ensures QuitInv(s')
  {
  }

  /** The present thread executes a call and sends the response. */
  lemma CallStep(s: State)
    requires Inv(s) && Enabled(s, ClientHandle) && s.client.loop.batch[0].Call?
    ensures Inv(Next(s, ClientHandle))
  {
    var s' := Next(s, ClientHandle);
    var id := s.client.loop.batch[0].id;
    assert Requests(s) == [Call(id)] + Requests(s');
    assert Replies(s') == Replies(s) + [Response(id)];
    ResponsesOfSum(Replies(s), [Response(id)]);
    CallKeepsOrder(s, s', id);
    FirstGone(s, s', Call(id));
    ReplyKeepsBye(s, s', Response(id));
  }

  lemma CallKeepsOrder(s: State, s': State, id: nat)
    requires OrderInv(s) && s'.lost == s.lost && s'.callbacks == s.callbacks && s'.issued == s.issued
    requires Requests(s) == [Call(id)] + Requests(s')
    requires Responses(Replies(s')) == Responses(Replies(s)) + Responses([Response(id)])
    ensures OrderInv(s')
  {
    assert Requests(s)[1..] == Requests(s');
    assert Calls(Requests(s)) == [id] + Calls(Requests(s'));
    assert Responses([Response(id)]) == [id];
    assert s.callbacks + Responses(Replies(s)) + ([id] + Calls(Requests(s'))) + s.lost
      == s.callbacks + (Responses(Replies(s)) + [id]) + Calls(Requests(s')) + s.lost;
  }

  /** The first request is consumed and is not the request to quit. */
  lemma FirstGone(s: State, s': State, r: Request)
    requires QuitInv(s) && r.Call? && Requests(s) == [r] + Requests(s') && s.alive && s'.alive
    requires s'.disposed == s.disposed && s'.late == s.late && s'.lost == s.lost
    ensures QuitInv(s')
  {
    if !s.late {
      forall k | 0 <= k < |Requests(s')| && Requests(s')[k].Quit? ensures k == |Requests(s')| - 1 && s.disposed {
        assert Requests(s)[k + 1].Quit?;
      }
      if s.disposed { assert Requests(s)[|Requests(s)| - 1].Quit?; }
    }
  }

  lemma ReplyKeepsBye(s: State, s': State, r: Reply)
    requires ByeInv(s) && s.client.InLoop? && Replies(s') == Replies(s) + [r] && !r.Bye?
    requires s'.client.InLoop? && s'.alive == s.alive && s'.lost == s.lost && s'.hasExited == s.hasExited
    ensures ByeInv(s')
  {
    assert forall k :: 0 <= k < |Replies(s)| ==> Replies(s')[k] == Replies(s)[k];
  }

  /** The present thread is asked to quit: its queue is destroyed. */
  lemma QuitStep(s: State)
    requires Inv(s) && Enabled(s, ClientHandle) && s.client.loop.batch[0].Quit?
    ensures Inv(Next(s, ClientHandle))
  {
    var s' := Next(s, ClientHandle);
    var batch := s.client.loop.batch;
    assert Requests(s)[0] == Quit && Requests(s)[1..] == batch[1..] + s.present.queue;
    assert Requests(s') == batch[1..];
    assert Replies(s') == Replies(s);
    CallsOfSum(batch[1..], s.present.queue);
    QuitKeepsOrder(s, s', Calls(batch[1..]), Calls(s.present.queue));
    QuitIsLast(s, s');
  }

  lemma QuitKeepsOrder(s: State, s': State, handling: seq<nat>, queued: seq<nat>)
    requires OrderInv(s) && s.lost == [] && s'.lost == queued && s'.callbacks == s.callbacks && s'.issued == s.issued
    requires Replies(s') == Replies(s) && Calls(Requests(s)) == handling + queued && Calls(Requests(s')) == handling
    ensures OrderInv(s')
  {
    assert s.callbacks + Responses(Replies(s)) + (handling + queued) + []
      == s.callbacks + Responses(Replies(s)) + handling + queued;
  }

  lemma QuitIsLast(s: State, s': State)
    requires QuitInv(s) && Requests(s) != [] && Requests(s)[0].Quit? && s'.late == s.late && s'.disposed == s.disposed
    requires Requests(s') <= Requests(s)[1..] && s'.lost <= Calls(s.present.queue) && !s'.alive
    requires s.present.queue == Requests(s)[|Requests(s)| - |s.present.queue|..] && |s.present.queue| < |Requests(s)|
    ensures QuitInv(s')
  {
    if !s.late { assert 0 == |Requests(s)| - 1; }
  }

  /** The present thread sends a signal or says goodbye. */
  lemma SayStep(s: State, e: Event)
    requires Inv(s) && Enabled(s, e) && (e.ClientSignal? || e.ClientBye?)
    ensures Inv(Next(s, e))
  {
    var s' := Next(s, e);
    var r := if e.ClientSignal? then Signal else Bye;
    assert Replies(s') == Replies(s) + [r] && Requests(s') == Requests(s);
    NotAResponse(Replies(s), r);
    if e.ClientSignal? { ReplyKeepsBye(s, s', r); } else { GoodbyeIsLast(s, s'); }
  }

  lemma NotAResponse(replies: seq<Reply>, r: Reply)
    requires !r.Response?
    ensures Responses(replies + [r]) == Responses(replies)
  {
    ResponsesOfSum(replies, [r]);
    assert Responses([r]) == [];
  }

  lemma GoodbyeIsLast(s: State, s': State)
    requires ByeInv(s) && s.client.LoopExited? && Replies(s') == Replies(s) + [Bye]
    requires s'.client.Gone? && s'.alive == s.alive && s'.lost == s.lost && s'.hasExited == s.hasExited
    ensures ByeInv(s')
  {
    assert forall k :: 0 <= k < |Replies(s)| ==> Replies(s')[k] == Replies(s)[k];
  }

  /** The main thread handles a reply. */
  lemma HostHandleStep(s: State)
    requires Inv(s) && Enabled(s, HostHandle)
    ensures Inv(Next(s, HostHandle))
  {
    var s' := Next(s, HostHandle);
    var r := s.host.batch[0];
    hide OrderInv, WakeupInv, ByeInv, QuitInv, Replies, Requests;
    HostHandleStreams(s);
    HandledKeepsOrder(s, s', r);
    ReplyHandledBye(s, s', r);
    HandledWakeups(s);
    HandledQuit(s);
  }

  lemma HostHandleStreams(s: State)
    requires ByeInv(s) && Enabled(s, HostHandle)
    ensures var s' := Next(s, HostHandle);
      Replies(s) == [s.host.batch[0]] + Replies(s') && Requests(s') == Requests(s) && !s.hasExited
  {
    assert Replies(s) == [s.host.batch[0]] + Replies(Next(s, HostHandle));
  }

  lemma HandledWakeups(s: State)
    requires WakeupInv(s) && Enabled(s, HostHandle)
    ensures WakeupInv(Next(s, HostHandle))
  {
  }

  lemma HandledQuit(s: State)
    requires QuitInv(s) && Enabled(s, HostHandle)
    ensures QuitInv(Next(s, HostHandle))
  {
    assert Requests(Next(s, HostHandle)) == Requests(s);
  }

  lemma HandledKeepsOrder(s: State, s': State, r: Reply)
    requires OrderInv(s) && Replies(s) == [r] + Replies(s') && Requests(s') == Requests(s)
    requires s'.lost == s.lost && s'.issued == s.issued
    requires s'.callbacks == if r.Response? then s.callbacks + [r.id] else s.callbacks
    ensures OrderInv(s')
  {
    var one := if r.Response? then [r.id] else [];
    assert Replies(s)[1..] == Replies(s');
    assert Responses(Replies(s)) == one + Responses(Replies(s'));
    assert s.callbacks + (one + Responses(Replies(s'))) == s.callbacks + one + Responses(Replies(s'));
    assert s.callbacks + [] == s.callbacks;
  }

  lemma ReplyHandledBye(s: State, s': State, r: Reply)
    requires ByeInv(s) && !s.hasExited && Replies(s) == [r] + Replies(s')
    requires s'.client == s.client && s'.alive == s.alive && s'.lost == s.lost && s'.hasExited == r.Bye?
    ensures ByeInv(s')
  {
    assert forall k :: 0 <= k < |Replies(s')| ==> Replies(s)[k + 1] == Replies(s')[k];
    if r.Bye? { assert Replies(s)[0].Bye?; }
  }

  /** All four invariants hold in every reachable state of every interleaving. */
  lemma Step(s: State, e: Event)
    requires Inv(s) && Enabled(s, e)
    ensures Inv(Next(s, e))
  {
    hide Inv;
    match e
    case HostCall(id) => if s.alive { SendStep(s, e, Call(id)); }
    case HostDispose => if s.alive { SendStep(s, e, Quit); }
    case ClientHandle => if s.client.loop.batch[0].Call? { CallStep(s); } else { QuitStep(s); }
    case ClientSignal => SayStep(s, e);
    case ClientBye => SayStep(s, e);
    case HostHandle => HostHandleStep(s);
    case _ => SilentStep(s, e);
  }

  // ---------- runs ----------

  /** Both threads are in their loops and nothing has been sent. */
  function Start(): State
  {
    State(Channel([], false), true, 0, InLoop(Idle), Channel([], false), Idle, false, [], [], [], false, false, [])
  }

  lemma StartIsInv()
    ensures Inv(Start())
  {
  }

  ghost predicate IsRun(states: seq<State>, events: seq<Event>)
  {
    && |states| == |events| + 1 && states[0] == Start()
    && forall i :: 0 <= i < |events| ==> Enabled(states[i], events[i]) && states[i + 1] == Next(states[i], events[i])
  }

  lemma {:induction false} RunKeepsInv(states: seq<State>, events: seq<Event>, i: nat)
    requires IsRun(states, events) && i < |states|
    ensures Inv(states[i])
  {
    if i == 0 {
      StartIsInv();
    } else {
      RunKeepsInv(states, events, i - 1);
      Step(states[i - 1], events[i - 1]);
    }
  }

  /** In every reachable state the callbacks that have run are the first calls issued, in order and once each. */
  lemma CallbacksInOrder(states: seq<State>, events: seq<Event>, i: nat)
    requires IsRun(states, events) && i < |states|
    ensures states[i].callbacks <= states[i].issued
  {
    hide IsRun, WakeupInv, ByeInv, QuitInv, Requests, Replies, Responses, Calls;
    RunKeepsInv(states, events, i);
    var s := states[i];
    FirstOfFour(s.callbacks, Responses(Replies(s)), Calls(Requests(s)), s.lost);
  }

  lemma FirstOfFour(a: seq<nat>, b: seq<nat>, c: seq<nat>, d: seq<nat>)
    ensures a <= a + b + c + d
  {
  }

  // ---------- which calls are lost ----------

  /** What stands behind the first request to quit. */
  function BehindQuit(ms: seq<Request>): seq<Request>
  {
    if ms == [] then [] else if ms[0].Quit? then ms[1..] else BehindQuit(ms[1..])
  }

  /** The late calls are those behind the request to quit; once the queue is destroyed, those taken along or lost. */
  ghost predicate LateInv(s: State)
  {
    if s.alive then s.lateCalls == Calls(BehindQuit(Requests(s))) && (Quit in Requests(s) <==> s.disposed)
    else s.lateCalls == Calls(Requests(s)) + s.lost
  }

  lemma {:induction false} BehindQuitOfLonger(ms: seq<Request>, r: Request)
    ensures Quit in ms ==> BehindQuit(ms + [r]) == BehindQuit(ms) + [r]
    ensures Quit !in ms ==> BehindQuit(ms) == [] && BehindQuit(ms + [r]) == []
  {
    if ms == [] {
      assert ms + [r] == [r] && [r][1..] == [];
    } else {
      assert ms == [ms[0]] + ms[1..] && (ms + [r])[1..] == ms[1..] + [r];
      BehindQuitOfLonger(ms[1..], r);
    }
  }

  lemma SendKeepsLate(s: State, e: Event, r: Request)
    requires LateInv(s) && s.alive
    requires (e == HostDispose && r == Quit) || (r.Call? && e == HostCall(r.id))
    ensures LateInv(Next(s, e))
  {
    var ms := Requests(s);
    assert Requests(Next(s, e)) == ms + [r];
    BehindQuitOfLonger(ms, r);
    CallsOfSum(BehindQuit(ms), [r]);
    assert Calls([r]) == if r.Call? then [r.id] else [];
    hide BehindQuit, Calls, Requests;
    assert Calls(BehindQuit(ms)) + [] == Calls(BehindQuit(ms));
  }

  lemma HandleKeepsLate(s: State)
    requires LateInv(s) && Enabled(s, ClientHandle)
    ensures LateInv(Next(s, ClientHandle))
  {
    var s', batch := Next(s, ClientHandle), s.client.loop.batch;
    assert Requests(s)[0] == batch[0] && Requests(s)[1..] == batch[1..] + s.present.queue;
    assert Requests(s) == [batch[0]] + Requests(s)[1..];
    if batch[0].Call? {
      assert Requests(s') == Requests(s)[1..];
    } else {
      assert Requests(s') == batch[1..];
      CallsOfSum(batch[1..], s.present.queue);
    }
  }

  /** No other step touches the requests. */
  lemma OthersKeepLate(s: State, e: Event)
    requires LateInv(s) && Enabled(s, e) && e != ClientHandle
    requires s.alive ==> !e.HostCall? && !e.HostDispose?
    ensures LateInv(Next(s, e))
  {
    var s' := Next(s, e);
    if IsSilent(e) { SilentKeepsStreams(s, e); }
    assert Requests(s') == Requests(s);
  }

  lemma {:induction false} RunKeepsLate(states: seq<State>, events: seq<Event>, i: nat)
    requires IsRun(states, events) && i < |states|
    ensures LateInv(states[i])
  {
    if i > 0 {
      RunKeepsLate(states, events, i - 1);
      var s, e := states[i - 1], events[i - 1];
      match e
      case HostCall(id) => if s.alive { SendKeepsLate(s, e, Call(id)); } else { OthersKeepLate(s, e); }
      case HostDispose => if s.alive { SendKeepsLate(s, e, Quit); } else { OthersKeepLate(s, e); }
      case ClientHandle => HandleKeepsLate(s);
      case _ => OthersKeepLate(s, e);
    }
  }

  /**
    When the main thread learns that the present thread has exited, the callbacks of all calls have
    run but those of the late ones: the calls that were enqueued after Dispose, while the queue was
    still there, are lost, in order. So every call gets its callback if and only if there was none.
   */
  lemma AllCallbacksRunBeforeExit(states: seq<State>, events: seq<Event>, i: nat)
    requires IsRun(states, events) && i < |states| && states[i].hasExited
    ensures states[i].lost == states[i].lateCalls
    ensures states[i].issued == states[i].callbacks + states[i].lateCalls
    ensures states[i].callbacks == states[i].issued <==> states[i].lateCalls == []
  {
    RunKeepsInv(states, events, i);
    RunKeepsLate(states, events, i);
    ExitedHasNothingLeft(states[i]);
  }

  lemma ExitedHasNothingLeft(s: State)
    requires Inv(s) && LateInv(s) && s.hasExited
    ensures s.issued == s.callbacks + s.lost && (s.callbacks == s.issued <==> s.lost == []) && s.lost == s.lateCalls
  {
    assert Requests(s) == [];
    assert [] + s.lost == s.lost;
    assert s.callbacks + [] + [] + s.lost == s.callbacks + s.lost;
    assert |s.issued| == |s.callbacks| + |s.lost|;
    if s.lost == [] { assert s.callbacks + s.lost == s.callbacks; }
  }

  /** Late calls are those, and only those, that are issued on a disposed queue that still exists. */
  lemma LateCallsAreLate(s: State, e: Event)
    requires Enabled(s, e)
    ensures Next(s, e).lateCalls == s.lateCalls + if e.HostCall? && s.alive && s.disposed then [e.id] else []
    ensures Next(s, e).disposed == (s.disposed || (e.HostDispose? && s.alive))
  {
  }

  /** From then on no callback runs and no call is issued. */
  lemma {:induction false} NoneAfterExit(states: seq<State>, events: seq<Event>, i: nat, j: nat)
    requires IsRun(states, events) && i <= j < |states| && states[i].hasExited
    ensures states[j].hasExited && states[j].callbacks == states[i].callbacks && states[j].issued == states[i].issued
    decreases j - i
  {
    if i < j {
      NoneAfterExit(states, events, i, j - 1);
      RunKeepsInv(states, events, j - 1);
      StaysExited(states[j - 1], events[j - 1]);
    }
  }

  lemma StaysExited(s: State, e: Event)
    requires Inv(s) && s.hasExited && Enabled(s, e)
    ensures Next(s, e).hasExited && Next(s, e).callbacks == s.callbacks && Next(s, e).issued == s.issued
  {
  }

  // ---------- what was sent and heard ----------

  function RequestOf(e: Event): Request
    requires e.HostCall? || e.HostDispose?
  {
    if e.HostCall? then Call(e.id) else Quit
  }

  /** What the steps of a run have sent and handled, in order, each way. */
  datatype Log = Log(sent: seq<Request>, executed: seq<Request>, said: seq<Reply>, heard: seq<Reply>)

  /** Calls and Dispose are sent as long as the queue is there; a call that is executed is answered. */
  function Logged(l: Log, s: State, e: Event): Log
    requires Enabled(s, e)
  {
    match e
    case HostCall(_) => if s.alive then l.(sent := l.sent + [RequestOf(e)]) else l
    case HostDispose => if s.alive then l.(sent := l.sent + [RequestOf(e)]) else l
    case ClientHandle =>
      var r := s.client.loop.batch[0];
      l.(executed := l.executed + [r], said := l.said + if r.Call? then [Response(r.id)] else [])
    case ClientSignal => l.(said := l.said + [Signal])
    case ClientBye => l.(said := l.said + [Bye])
    case HostHandle => l.(heard := l.heard + [s.host.batch[0]])
    case _ => l
  }

  ghost function LogOf(states: seq<State>, events: seq<Event>, i: nat): Log
    requires IsRun(states, events) && i < |states|
  {
    if i == 0 then Log([], [], [], []) else Logged(LogOf(states, events, i - 1), states[i - 1], events[i - 1])
  }

  /** What was sent is what has been executed, then what is in flight, then what is lost. */
  ghost predicate SentInv(s: State, l: Log)
  {
    && s.issued == Calls(l.sent)
    && if s.alive then l.sent == l.executed + Requests(s)
       else l.executed + Batch(s) <= l.sent && Calls(l.sent[|l.executed + Batch(s)|..]) == s.lost
  }

  /** What was said is what has been heard, then what is in flight. */
  ghost predicate HeardInv(s: State, l: Log)
  {
    l.said == l.heard + Replies(s) && s.callbacks == Responses(l.heard) && (s.hasExited <==> Bye in l.heard)
  }

  /** Whether Dispose was called, and what was sent after it. */
  ghost predicate DisposeInv(s: State, l: Log)
  {
    && (s.disposed <==> Quit in l.sent) && (s.late <==> BehindQuit(l.sent) != [])
    && s.lateCalls == Calls(BehindQuit(l.sent))
  }

  lemma SendIsLogged(s: State, l: Log, e: Event)
    requires (e.HostCall? || e.HostDispose?) && SentInv(s, l) && DisposeInv(s, l)
    ensures SentInv(Next(s, e), Logged(l, s, e)) && DisposeInv(Next(s, e), Logged(l, s, e))
  {
    if s.alive {
      var r, s' := RequestOf(e), Next(s, e);
      assert Requests(s') == Requests(s) + [r];
      assert l.executed + Requests(s) + [r] == l.executed + (Requests(s) + [r]);
      CallsOfSum(l.sent, [r]);
      BehindQuitOfLonger(l.sent, r);
      CallsOfSum(BehindQuit(l.sent), [r]);
      assert Calls([r]) == if r.Call? then [r.id] else [];
      hide Calls, BehindQuit;
      assert s.issued + [] == s.issued && s.lateCalls + [] == s.lateCalls;
    }
  }

  lemma HandlingIsLogged(s: State, l: Log)
    requires Enabled(s, ClientHandle) && SentInv(s, l)
    ensures SentInv(Next(s, ClientHandle), Logged(l, s, ClientHandle))
  {
    hide Calls;
    FirstIsExecuted(l.executed, s.client.loop.batch, s.present.queue);
  }

  lemma FirstIsExecuted(done: seq<Request>, batch: seq<Request>, queue: seq<Request>)
    requires batch != []
    ensures done + (batch + queue) == done + [batch[0]] + (batch[1..] + queue)
    ensures var after := done + [batch[0]] + batch[1..];
      after <= done + (batch + queue) && (done + (batch + queue))[|after|..] == queue
  {
    assert done + (batch + queue) == done + [batch[0]] + batch[1..] + queue;
  }

  lemma OthersKeepSent(s: State, l: Log, e: Event)
    requires Enabled(s, e) && !e.HostCall? && !e.HostDispose? && !e.ClientHandle? && WakeupInv(s) && SentInv(s, l)
    ensures SentInv(Next(s, e), Logged(l, s, e))
  {
    var s' := Next(s, e);
    if IsSilent(e) { SilentKeepsStreams(s, e); }
    assert Requests(s') == Requests(s);
    if !s.alive { assert Batch(s') == Batch(s); }
  }

  lemma SayingIsLogged(s: State, l: Log, e: Event)
    requires Enabled(s, e) && !e.HostHandle? && HeardInv(s, l)
    ensures HeardInv(Next(s, e), Logged(l, s, e))
  {
    var s', said := Next(s, e), Logged(l, s, e).said[|l.said|..];
    if IsSilent(e) { SilentKeepsStreams(s, e); }
    assert Logged(l, s, e).said == l.said + said;
    assert Replies(s') == Replies(s) + said;
    assert l.heard + Replies(s) + said == l.heard + (Replies(s) + said);
  }

  lemma HearingIsLogged(s: State, l: Log)
    requires Enabled(s, HostHandle) && ByeInv(s) && HeardInv(s, l)
    ensures HeardInv(Next(s, HostHandle), Logged(l, s, HostHandle))
  {
    hide ByeInv, Replies, Responses;
    HostHandleStreams(s);
    HeardOneMore(l.heard, s.host.batch[0], Replies(Next(s, HostHandle)));
  }

  lemma HeardOneMore(heard: seq<Reply>, r: Reply, rest: seq<Reply>)
    ensures heard + ([r] + rest) == heard + [r] + rest
    ensures Responses(heard + [r]) == if r.Response? then Responses(heard) + [r.id] else Responses(heard)
    ensures Bye in heard + [r] <==> Bye in heard || r == Bye
  {
    ResponsesOfSum(heard, [r]);
    assert Responses([r]) == if r.Response? then [r.id] else [];
    hide Responses;
    assert Responses(heard) + [] == Responses(heard);
  }

  /**
    In every run: the calls issued are those of the HostCall events before, as long as the queue was
    there, in order; each is executed, answered and heard in order, or still in flight, or lost.
    Signals take the same way as responses.
   */
  lemma {:induction false} RunIsLogged(states: seq<State>, events: seq<Event>, i: nat)
    requires IsRun(states, events) && i < |states|
    ensures SentInv(states[i], LogOf(states, events, i))
    ensures HeardInv(states[i], LogOf(states, events, i))
    ensures DisposeInv(states[i], LogOf(states, events, i))
  {
    if i > 0 {
      RunIsLogged(states, events, i - 1);
      RunKeepsInv(states, events, i - 1);
      LogStep(states[i - 1], LogOf(states, events, i - 1), events[i - 1]);
    }
  }

  lemma LogStep(s: State, l: Log, e: Event)
    requires Inv(s) && Enabled(s, e) && SentInv(s, l) && HeardInv(s, l) && DisposeInv(s, l)
    ensures var (s', l') := (Next(s, e), Logged(l, s, e)); SentInv(s', l') && HeardInv(s', l') && DisposeInv(s', l')
  {
    hide SentInv, HeardInv, Requests, Replies, Calls, Responses, BehindQuit, OrderInv, WakeupInv, ByeInv, QuitInv;
    if e.HostHandle? { HearingIsLogged(s, l); } else { SayingIsLogged(s, l, e); }
    if e.HostCall? || e.HostDispose? {
      SendIsLogged(s, l, e);
    } else if e.ClientHandle? {
      HandlingIsLogged(s, l);
    } else {
      OthersKeepSent(s, l, e);
    }
  }

  // ---------- messages left for a destroyed queue ----------

  /** The loop over the batch goes on with a handler that went with the queue. */
  ghost predicate IsUndefined(s: State) { !s.alive && Batch(s) != [] }

  /** The main thread sends something while the request to quit is queued and not yet taken. */
  predicate Follows(s: State, e: Event)
  {
    (e.HostCall? || e.HostDispose?) && s.alive && Quit in s.present.queue && Quit !in Batch(s)
  }

  /** What is sent that way in the first `i` steps of a run. */
  ghost function Followers(states: seq<State>, events: seq<Event>, i: nat): seq<Request>
    requires IsRun(states, events) && i < |states|
  {
    if i == 0 then []
    else
      Followers(states, events, i - 1) + (if Follows(states[i - 1], events[i - 1]) then [RequestOf(events[i - 1])] else [])
  }

  /** The requests that will be taken together with the first request to quit, behind it. */
  function TakenAlong(s: State): seq<Request>
  {
    if !s.alive then Batch(s) else if Quit in Batch(s) then BehindQuit(Batch(s)) else BehindQuit(s.present.queue)
  }

  lemma FollowStep(s: State, e: Event)
    requires WakeupInv(s) && Enabled(s, e)
    ensures TakenAlong(Next(s, e)) == TakenAlong(s) + if Follows(s, e) then [RequestOf(e)] else []
  {
    match e
    case HostCall(id) => SendTakesAlong(s, e);
    case HostDispose => SendTakesAlong(s, e);
    case ClientHandle =>
      var batch := s.client.loop.batch;
      assert batch == [batch[0]] + batch[1..];
    case ClientDrain => BehindQuitOfLonger(s.present.queue, Quit);
    case _ => assert Batch(Next(s, e)) == Batch(s);
  }

  lemma SendTakesAlong(s: State, e: Event)
    requires e.HostCall? || e.HostDispose?
    ensures TakenAlong(Next(s, e)) == TakenAlong(s) + if Follows(s, e) then [RequestOf(e)] else []
  {
    if s.alive { BehindQuitOfLonger(s.present.queue, RequestOf(e)); }
  }

  /** The requests taken along behind the request to quit are exactly those sent while it was queued, in order. */
  lemma {:induction false} RunTakesAlong(states: seq<State>, events: seq<Event>, i: nat)
    requires IsRun(states, events) && i < |states|
    ensures TakenAlong(states[i]) == Followers(states, events, i)
  {
    if i > 0 {
      RunTakesAlong(states, events, i - 1);
      RunKeepsInv(states, events, i - 1);
      FollowStep(states[i - 1], events[i - 1]);
    }
  }

  lemma {:induction false} FollowersExist(states: seq<State>, events: seq<Event>, i: nat)
    requires IsRun(states, events) && i < |states|
    ensures Followers(states, events, i) != [] <==> exists k :: 0 <= k < i && Follows(states[k], events[k])
  {
    if i > 0 { FollowersExist(states, events, i - 1); }
  }

  /**
    In every reachable state: messages are left to handle on the destroyed queue if and only if the
    queue is destroyed and something was sent while the request to quit was queued and not yet taken;
    and then exactly these messages are left.
   */
  lemma UndefinedIff(states: seq<State>, events: seq<Event>, i: nat)
    requires IsRun(states, events) && i < |states|
    ensures IsUndefined(states[i]) <==> !states[i].alive && exists k :: 0 <= k < i && Follows(states[k], events[k])
    ensures !states[i].alive ==> Batch(states[i]) == Followers(states, events, i)
  {
    RunTakesAlong(states, events, i);
    FollowersExist(states, events, i);
  }

  /** From there the model goes nowhere: the exit is never known. */
  lemma {:induction false} UndefinedForever(states: seq<State>, events: seq<Event>, i: nat, j: nat)
    requires IsRun(states, events) && i <= j < |states| && IsUndefined(states[i])
    ensures IsUndefined(states[j]) && !states[j].hasExited && Batch(states[j]) == Batch(states[i])
    decreases j - i
  {
    if i < j {
      UndefinedForever(states, events, i, j - 1);
      StaysUndefined(states[j - 1], events[j - 1]);
    }
    RunKeepsInv(states, events, j);
  }

  lemma StaysUndefined(s: State, e: Event)
    requires IsUndefined(s) && Enabled(s, e)
    ensures IsUndefined(Next(s, e)) && Batch(Next(s, e)) == Batch(s)
  {
  }

  /** So if the exit gets known, whatever was lost was sent after the request to quit had been taken. */
  lemma KnownExitHasNoFollowers(states: seq<State>, events: seq<Event>, i: nat)
    requires IsRun(states, events) && i < |states| && states[i].hasExited
    ensures forall k :: 0 <= k < i ==> !Follows(states[k], events[k])
  {
    RunKeepsInv(states, events, i);
    UndefinedIff(states, events, i);
  }

  /** A main thread that sends nothing after Dispose never makes the present thread use the destroyed queue. */
  lemma NeverUndefined(states: seq<State>, events: seq<Event>, i: nat)
    requires IsRun(states, events) && i < |states| && !states[i].late
    ensures !IsUndefined(states[i])
  {
    RunKeepsInv(states, events, i);
  }

  lemma Extended(states: seq<State>, events: seq<Event>, e: Event) returns (states': seq<State>, events': seq<Event>)
    requires IsRun(states, events) && Enabled(states[|events|], e)
    ensures IsRun(states', events') && |events'| == |events| + 1
    ensures states'[|events'|] == Next(states[|events|], e)
  {
    states', events' := states + [Next(states[|events|], e)], events + [e];
  }

  /** The discipline is needed: a call issued while the request to quit is being handled gets lost. */
  lemma LateCallIsLost() returns (states: seq<State>, events: seq<Event>)
    ensures IsRun(states, events)
    ensures states[|events|].issued == [7] && states[|events|].callbacks == [] && states[|events|].hasExited
  {
    states, events := QueueDestroyedTooSoon();
    states, events := Extended(states, events, ClientIdle);
    states, events := Extended(states, events, ClientExitLoop);
    states, events := Extended(states, events, ClientBye);
    states, events := Extended(states, events, HostNotice);
    states, events := Extended(states, events, HostDrain);
    assert states[|events|].host == Handling([Bye]);
    states, events := Extended(states, events, HostHandle);
  }

  lemma QueueDestroyedTooSoon() returns (states: seq<State>, events: seq<Event>)
    ensures IsRun(states, events)
    ensures var s := states[|events|];
      && s.issued == [7] && s.callbacks == [] && !s.hasExited && s.host == Idle && s.main == Channel([], false)
      && s.client == InLoop(Handling([])) && !s.alive && s.handles == 0
  {
    states, events := [Start()], [];
    states, events := Extended(states, events, HostDispose);
    assert states[|events|].present.queue == [Quit];
    states, events := Extended(states, events, ClientNotice);
    states, events := Extended(states, events, ClientDrain);
    assert states[|events|].client == InLoop(Handling([Quit]));
    states, events := Extended(states, events, HostCall(7));
    assert states[|events|].handles == 0;
    states, events := Extended(states, events, ClientHandle);
    assert [Quit][1..] == [];
  }

  /** A call issued while the request to quit is still queued is taken along and meets a destroyed queue. */
  lemma CallBehindQuitIsUndefined() returns (states: seq<State>, events: seq<Event>)
    ensures IsRun(states, events)
    ensures var s := states[|events|];
      IsUndefined(s) && Batch(s) == [Call(7)] && s.lateCalls == [7] && s.lost == [] && !Enabled(s, ClientHandle)
  {
    states, events := [Start()], [];
    states, events := Extended(states, events, HostDispose);
    states, events := Extended(states, events, HostCall(7));
    assert states[|events|].present.queue == [Quit, Call(7)];
    states, events := Extended(states, events, ClientNotice);
    states, events := Extended(states, events, ClientDrain);
    assert states[|events|].lateCalls == [7] && states[|events|].lost == [];
    states, events := Extended(states, events, ClientHandle);
    assert [Quit, Call(7)][1..] == [Call(7)];
  }

  // ---------- the handshake ends ----------

  ghost function LoopWeight<T>(l: Loop<T>): nat
  {
    match l case Idle => 0 case Woken => 2 case Handling(_) => 1
  }

  ghost function BatchSize<T>(l: Loop<T>): nat { if l.Handling? then |l.batch| else 0 }

  ghost function PendingWeight<T>(c: Channel<T>): nat { if c.pending then 3 else 0 }

  ghost function ClientWeight(c: Client): nat
  {
    match c
    case InLoop(l) => 10 + LoopWeight(l) + 8 * BatchSize(l)
    case LoopExited => 9
    case Gone => 0
  }

  /** What is left to do for both threads. */
  ghost function Measure(s: State): nat
  {
    s.handles + 8 * |s.present.queue| + (if s.alive then PendingWeight(s.present) else 0) + ClientWeight(s.client)
    + 3 * |s.main.queue| + PendingWeight(s.main) + LoopWeight(s.host) + 3 * BatchSize(s.host)
  }

  /** Steps other than new work: new calls, Dispose, signals and new handles. */
  predicate IsWork(e: Event) { !e.HostCall? && !e.HostDispose? && !e.ClientSignal? && !e.ClientOpenHandle? }

  lemma MeasureDecreases(s: State, e: Event)
    requires Enabled(s, e) && IsWork(e)
    ensures Measure(Next(s, e)) < Measure(s)
  {
    if e == ClientHandle {
      HandlingCosts(s);
    } else if e == HostHandle {
      assert |s.host.batch[1..]| == |s.host.batch| - 1;
    }
  }

  lemma HandlingCosts(s: State)
    requires Enabled(s, ClientHandle)
    ensures Measure(Next(s, ClientHandle)) < Measure(s)
  {
    var batch := s.client.loop.batch;
    assert |batch[1..]| == |batch| - 1;
    var s' := Next(s, ClientHandle);
    assert ClientWeight(s'.client) == ClientWeight(s.client) - 8;
    if batch[0].Call? { assert |s'.main.queue| == |s.main.queue| + 1; }
  }

  /**
    After Dispose, and unless messages are left for the destroyed queue, some step leads on until the
    exit is known. It is the closing of another handle only if these are all the event loop waits for.
   */
  lemma ShutdownNeverStuck(states: seq<State>, events: seq<Event>, i: nat) returns (e: Event)
    requires IsRun(states, events) && i < |states|
    requires states[i].disposed && !states[i].hasExited && !IsUndefined(states[i])
    ensures Enabled(states[i], e) && IsWork(e)
    ensures e.ClientCloseHandle? ==> states[i].client == InLoop(Idle) && !states[i].alive && states[i].handles > 0
  {
    RunKeepsInv(states, events, i);
    RunKeepsLate(states, events, i);
    e := NextWork(states[i]);
  }

  lemma NextWork(s: State) returns (e: Event)
    requires Inv(s) && LateInv(s) && s.disposed && !s.hasExited && !IsUndefined(s)
    ensures Enabled(s, e) && IsWork(e)
    ensures e.ClientCloseHandle? ==> s.client == InLoop(Idle) && !s.alive && s.handles > 0
  {
    match s.client
    case LoopExited => e := ClientBye;
    case InLoop(l) =>
      match l {
        case Woken => e := ClientDrain;
        case Handling(batch) =>
          if batch == [] { e := ClientIdle; } else { e := ClientHandle; }
        case Idle =>
          if s.alive {
            assert Requests(s) == s.present.queue;
            e := ClientNotice;
          } else {
            e := if s.handles > 0 then ClientCloseHandle else ClientExitLoop;
          }
      }
    case Gone =>
      match s.host {
        case Woken => e := HostDrain;
        case Handling(batch) =>
          if batch == [] { e := HostIdle; } else { e := HostHandle; }
        case Idle =>
          assert Replies(s) == s.main.queue;
          e := HostNotice;
      }
  }

  /** Hence, when nothing new is sent from step `i` on, only boundedly many steps remain. */
  lemma {:induction false} ShutdownTerminates(states: seq<State>, events: seq<Event>, i: nat)
    requires IsRun(states, events) && i <= |events|
    requires forall k :: i <= k < |events| ==> IsWork(events[k])
    ensures |events| - i + Measure(states[|events|]) <= Measure(states[i])
    decreases |events| - i
  {
    if i < |events| {
      MeasureDecreases(states[i], events[i]);
      ShutdownTerminates(states, events, i + 1);
    }
  }

  // ---------- the main thread's handler ----------

  function HearAll(h: Heard, rs: seq<Reply>): Heard
  {
    if rs == [] then h else Hear(HearAll(h, rs[..|rs| - 1]), rs[|rs| - 1])
  }

  /** The part of the main thread that handles replies. */
  class MainThread {
    var threadHasExited: bool
    var callbacks: seq<nat>

    ghost function Knows(): Heard
      reads this
    {
      Heard(threadHasExited, callbacks)
    }

    method OnMainThreadMessage(message: Reply)
      modifies this
      ensures Knows() == Hear(old(Knows()), message)
    {
      if threadHasExited { return; }
      match message
      case Bye => threadHasExited := true;
      case Response(id) => callbacks := callbacks + [id];
      case Signal =>
    }

    /** One wakeup of the main thread's loop: everything queued is handled in order. */
    method OnMessageComing(queue: AsyncMessageQueue<Reply>)
      modifies this, queue
      ensures queue.State() == Drained(old(queue.State()))
      ensures Knows() == HearAll(old(Knows()), old(queue.queue))
    {
      var messages := queue.TakeAll();
      for i := 0 to |messages|
        invariant queue.State() == Drained(old(queue.State()))
        invariant Knows() == HearAll(old(Knows()), messages[..i])
      {
        assert messages[..i + 1][..i] == messages[..i];
        OnMainThreadMessage(messages[i]);
      }
      assert messages[..|messages|] == messages;
    }
  }

  lemma HearNothing(h: Heard)
    requires !h.hasExited
    ensures HearAll(h, []) == Heard(false, h.callbacks + Responses([]))
  {
    assert h.callbacks + [] == h.callbacks;
  }

  lemma HearOne(before: seq<nat>, responses: seq<nat>, r: Reply)
    ensures Hear(Heard(false, before + responses), r)
      == Heard(r.Bye?, before + if r.Response? then responses + [r.id] else responses)
  {
    if r.Response? { assert before + (responses + [r.id]) == before + responses + [r.id]; }
  }

  /** As long as the goodbye is the last thing heard, the callbacks are the responses, in order. */
  lemma {:induction false} HearAllIsResponses(h: Heard, rs: seq<Reply>)
    requires !h.hasExited && forall k :: 0 <= k < |rs| && rs[k].Bye? ==> k == |rs| - 1
    ensures HearAll(h, rs) == Heard(rs != [] && rs[|rs| - 1].Bye?, h.callbacks + Responses(rs))
    decreases |rs|
  {
    hide Responses, Hear;
    if rs == [] {
      HearNothing(h);
    } else {
      var front, last := rs[..|rs| - 1], rs[|rs| - 1];
      HearAllIsResponses(h, front);
      assert front + [last] == rs;
      HeardOneMore(front, last, []);
      HearOne(h.callbacks, Responses(front), last);
    }
  }
}
