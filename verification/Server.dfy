/** Accepting, serving and closing connections: slots, the registry of live
    connections, the wait group and the shutdown sequence, as a step relation
    over the accept loop, one handler per connection, and Serve. */
module Server {

  /** How far a connection has got, from Accept to the end of its handler. */
  datatype Stage =
    | Accepted | Slotted | Counted | Registered | Added     // in the accept loop
    | Checking                                              // handler: about to look at the context
    | Reading                                               // handler: in ReadCommand
    | Executing                                             // handler: running a command, replying
    | Returning | Deregistered | Released | Uncounted | Closed  // handler: deferred clean-up
    | Gone
    | Rejected

  datatype Conn = Conn(stage: Stage, closed: bool)

  datatype Acceptor = Looping | Holding(id: nat) | Stopped

  datatype Serving =
    | Serving                     // waiting for the context
    | ClosingListener
    | Ranging(todo: set<nat>)     // the closing pass over the registry
    | Draining                    // wg.Wait
    | Collecting                  // waiting for the accept loop's result
    | Returned

  datatype Sys = Sys(
    cap: nat, cancelled: bool, listening: bool,
    slots: int, clients: int, wg: int, registry: set<nat>,
    conns: seq<Conn>, acceptor: Acceptor, serve: Serving)

  function Move(s: Sys, id: nat, stage: Stage): Sys
    requires id < |s.conns|
  {
    s.(conns := s.conns[id := s.conns[id].(stage := stage)])
  }

  // ------------------------------------------------------------------- steps

  /** The accept loop. */
  predicate AcceptStep(s: Sys, s': Sys) {
    match s.acceptor
    case Looping =>
      (s.listening && s' == s.(conns := s.conns + [Conn(Accepted, false)], acceptor := Holding(|s.conns|))) ||
      (s.cancelled && s' == s.(acceptor := Stopped))
    case Holding(id) =>
      id < |s.conns| &&
      (match s.conns[id].stage
       case Accepted =>
         if s.slots < s.cap then s' == Move(s, id, Slotted).(slots := s.slots + 1)
         else s' == s.(conns := s.conns[id := Conn(Rejected, true)], acceptor := Looping)
       case Slotted => s' == Move(s, id, Counted).(clients := s.clients + 1)
       case Counted => s' == Move(s, id, Registered).(registry := s.registry + {id})
       case Registered => s' == Move(s, id, Added).(wg := s.wg + 1)
       case Added => s' == Move(s, id, Checking).(acceptor := Looping)
       case _ => false)
    case Stopped => false
  }

  /** The loop of the handler of connection id. A read ends with a command, with
      one that the authentication gate answers, or with an error. */
  predicate LoopStep(s: Sys, s': Sys, id: nat) {
    id < |s.conns| &&
    match s.conns[id].stage
    case Checking => s' == Move(s, id, if s.cancelled then Returning else Reading)
    case Reading => s' == Move(s, id, Executing) || s' == Move(s, id, Checking) || s' == Move(s, id, Returning)
    case Executing => s' == Move(s, id, Checking) || s' == Move(s, id, Returning)
    case _ => false
  }

  /** The handler's deferred clean-up, which every way out of the loop leads to. */
  predicate CleanupStep(s: Sys, s': Sys, id: nat) {
    id < |s.conns| &&
    match s.conns[id].stage
    case Returning => s' == Move(s, id, Deregistered).(registry := s.registry - {id})
    case Deregistered => s' == Move(s, id, Released).(slots := s.slots - 1)
    case Released => s' == Move(s, id, Uncounted).(clients := s.clients - 1)
    case Uncounted => s' == s.(conns := s.conns[id := Conn(Closed, true)])
    case Closed => s' == Move(s, id, Gone).(wg := s.wg - 1)
    case _ => false
  }

  predicate HandlerStep(s: Sys, s': Sys, id: nat) {
    LoopStep(s, s', id) || CleanupStep(s, s', id)
  }

  /** Serve. The closing pass visits every connection that was registered when it
      began and still is; it may also meet ones registered meanwhile. */
  predicate ServeStep(s: Sys, s': Sys, id: nat) {
    match s.serve
    case Serving => s.cancelled && s' == s.(serve := ClosingListener)
    case ClosingListener => s' == s.(listening := false, serve := Ranging(s.registry))
    case Ranging(todo) =>
      if todo == {} then s' == s.(serve := Draining)
      else
        id < |s.conns| &&
        ((id in s.registry &&
          s' == s.(conns := s.conns[id := s.conns[id].(closed := true)], serve := Ranging(todo - {id}))) ||
         (id in todo && id !in s.registry && s' == s.(serve := Ranging(todo - {id}))))
    case Draining => s.wg == 0 && s' == s.(serve := Collecting)
    case Collecting => s.acceptor.Stopped? && s' == s.(serve := Returned)
    case Returned => false
  }

  ghost predicate Next(s: Sys, s': Sys) {
    s' == s.(cancelled := true) || AcceptStep(s, s') ||
    (exists id :: HandlerStep(s, s', id)) || exists id :: ServeStep(s, s', id)
  }

  predicate Init(s: Sys) {
    s == Sys(s.cap, false, true, 0, 0, 0, {}, [], Looping, Serving)
  }

  ghost predicate Run(ss: seq<Sys>) {
    ss != [] && Init(ss[0]) && forall i :: 0 <= i < |ss| - 1 ==> Next(ss[i], ss[i + 1])
  }

  // --------------------------------------------------------------- invariant

  predicate HasSlot(st: Stage) {
    st.Slotted? || st.Counted? || st.Registered? || st.Added? || st.Checking? || st.Reading? || st.Executing? ||
    st.Returning? || st.Deregistered?
  }

  predicate IsCounted(st: Stage) {
    st.Counted? || st.Registered? || st.Added? || st.Checking? || st.Reading? || st.Executing? ||
    st.Returning? || st.Deregistered? || st.Released?
  }

  predicate IsRegistered(st: Stage) {
    st.Registered? || st.Added? || st.Checking? || st.Reading? || st.Executing? || st.Returning?
  }

  predicate IsWaitedFor(st: Stage) {
    st.Added? || st.Checking? || st.Reading? || st.Executing? || st.Returning? || st.Deregistered? ||
    st.Released? || st.Uncounted? || st.Closed?
  }

  predicate InAcceptLoop(st: Stage) {
    st.Accepted? || st.Slotted? || st.Counted? || st.Registered? || st.Added?
  }

  /** The handler has passed its look at the context and not returned to it. */
  predicate Busy(st: Stage) {
    st.Reading? || st.Executing?
  }

  /** The connections whose stage satisfies p. */
  ghost function Where(conns: seq<Conn>, p: Stage -> bool): set<nat> {
    set id: nat | id < |conns| && p(conns[id].stage)
  }

  /** Slots, clients and the wait group count exactly the connections that are
      between taking and giving back; the registry holds exactly the registered
      ones; the accept loop works on one connection at a time. */
  ghost predicate Books(s: Sys) {
    s.slots == |Where(s.conns, HasSlot)| &&
    s.clients == |Where(s.conns, IsCounted)| &&
    s.wg == |Where(s.conns, IsWaitedFor)| &&
    s.registry == Where(s.conns, IsRegistered) &&
    s.slots <= s.cap &&
    forall id :: 0 <= id < |s.conns| ==> (InAcceptLoop(s.conns[id].stage) <==> s.acceptor == Holding(id))
  }

  ghost predicate Shutdown(s: Sys) {
    (!s.serve.Serving? ==> s.cancelled) &&
    (s.serve.Ranging? ==>
       forall id :: 0 <= id < |s.conns| && Busy(s.conns[id].stage) ==> s.conns[id].closed || id in s.serve.todo) &&
    (s.serve.Draining? ==>
       forall id :: 0 <= id < |s.conns| && Busy(s.conns[id].stage) ==> s.conns[id].closed) &&
    (s.serve.Collecting? || s.serve.Returned? ==>
       forall id :: 0 <= id < |s.conns| ==> !Busy(s.conns[id].stage))
  }

  lemma WhereMove(conns: seq<Conn>, id: nat, c: Conn, p: Stage -> bool)
    requires id < |conns|
    ensures Where(conns[id := c], p) == if p(c.stage) then Where(conns, p) + {id} else Where(conns, p) - {id}
    ensures |Where(conns[id := c], p)|
         == |Where(conns, p)| - (if p(conns[id].stage) then 1 else 0) + if p(c.stage) then 1 else 0
  {
    var a, b := Where(conns, p), Where(conns[id := c], p);
    WhereMembers(conns, id, c, p);
    hide Where;
    if p(c.stage) {
      assert b == a + {id};
    } else {
      assert b == a - {id};
    }
  }

  lemma WhereMembers(conns: seq<Conn>, id: nat, c: Conn, p: Stage -> bool)
    requires id < |conns|
    ensures id in Where(conns, p) <==> p(conns[id].stage)
    ensures id in Where(conns[id := c], p) <==> p(c.stage)
    ensures forall j: nat :: j != id ==> (j in Where(conns[id := c], p) <==> j in Where(conns, p))
  {
  }

  lemma WhereAppend(conns: seq<Conn>, c: Conn, p: Stage -> bool)
    requires !p(c.stage)
    ensures Where(conns + [c], p) == Where(conns, p)
  {
  }

  /** The books after one connection has moved: each count by what the two stages
      say. */
  predicate Rebooked(s: Sys, s': Sys, old_: Stage, new_: Stage) {
    s'.slots == s.slots - (if HasSlot(old_) then 1 else 0) + (if HasSlot(new_) then 1 else 0) &&
    s'.clients == s.clients - (if IsCounted(old_) then 1 else 0) + (if IsCounted(new_) then 1 else 0) &&
    s'.wg == s.wg - (if IsWaitedFor(old_) then 1 else 0) + if IsWaitedFor(new_) then 1 else 0
  }

  lemma MoveBooks(s: Sys, s': Sys, id: nat)
    requires Books(s) && id < |s.conns| == |s'.conns| && s'.conns == s.conns[id := s'.conns[id]]
    requires Rebooked(s, s', s.conns[id].stage, s'.conns[id].stage) && s'.slots <= s'.cap
    requires s'.registry == if IsRegistered(s'.conns[id].stage) then s.registry + {id} else s.registry - {id}
    requires forall j :: 0 <= j < |s.conns| ==> (InAcceptLoop(s'.conns[j].stage) <==> s'.acceptor == Holding(j))
    ensures Books(s')
  {
    hide Where, HasSlot, IsCounted, IsRegistered, IsWaitedFor, InAcceptLoop;
    var c := s'.conns[id];
    WhereMove(s.conns, id, c, HasSlot);
    WhereMove(s.conns, id, c, IsCounted);
    WhereMove(s.conns, id, c, IsRegistered);
    WhereMove(s.conns, id, c, IsWaitedFor);
  }

  /** Whether a connection is registered can be read off the registry. */
  lemma RegistryAt(s: Sys, id: nat)
    requires Books(s) && id < |s.conns|
    ensures id in s.registry <==> IsRegistered(s.conns[id].stage)
  {
  }

  /** What a step of a handler books. */
  ghost predicate HandlerMoved(s: Sys, s': Sys, id: nat) {
    id < |s.conns| && |s'.conns| == |s.conns| && s'.conns == s.conns[id := s'.conns[id]] &&
    Rebooked(s, s', s.conns[id].stage, s'.conns[id].stage) &&
    s'.registry == (if IsRegistered(s'.conns[id].stage) then s.registry + {id} else s.registry - {id}) &&
    s'.cap == s.cap && s'.acceptor == s.acceptor && s'.slots <= s.slots &&
    !InAcceptLoop(s.conns[id].stage) && !InAcceptLoop(s'.conns[id].stage)
  }

  lemma LoopMoves(s: Sys, s': Sys, id: nat)
    requires LoopStep(s, s', id) && (id in s.registry <==> IsRegistered(s.conns[id].stage))
    ensures HandlerMoved(s, s', id)
  {
  }

  lemma CleanupMoves(s: Sys, s': Sys, id: nat)
    requires CleanupStep(s, s', id) && (id in s.registry <==> IsRegistered(s.conns[id].stage))
    ensures HandlerMoved(s, s', id)
  {
  }

  lemma HandlerBooks(s: Sys, s': Sys, id: nat)
    requires Books(s) && HandlerStep(s, s', id)
    ensures Books(s')
  {
    hide Where, LoopStep, CleanupStep, IsRegistered, InAcceptLoop, Rebooked;
    HandlerInRange(s, s', id);
    RegistryAt(s, id);
    if LoopStep(s, s', id) { LoopMoves(s, s', id); } else { CleanupMoves(s, s', id); }
    MoveBooks(s, s', id);
  }

  lemma HandlerInRange(s: Sys, s': Sys, id: nat)
    requires HandlerStep(s, s', id)
    ensures id < |s.conns|
  {
  }

  lemma AcceptMoves(s: Sys, s': Sys, id: nat)
    requires AcceptStep(s, s') && s.acceptor == Holding(id) && id < |s.conns| && s.slots <= s.cap
    ensures |s'.conns| == |s.conns| && s'.conns == s.conns[id := s'.conns[id]] && s'.slots <= s'.cap
    ensures if InAcceptLoop(s'.conns[id].stage) then s'.acceptor == Holding(id) else s'.acceptor == Looping
  {
  }

  lemma AcceptRebooks(s: Sys, s': Sys, id: nat)
    requires AcceptStep(s, s') && s.acceptor == Holding(id) && id < |s.conns| == |s'.conns|
    requires id in s.registry <==> IsRegistered(s.conns[id].stage)
    ensures Rebooked(s, s', s.conns[id].stage, s'.conns[id].stage)
    ensures s'.registry == if IsRegistered(s'.conns[id].stage) then s.registry + {id} else s.registry - {id}
  {
  }

  lemma AcceptBooks(s: Sys, s': Sys)
    requires Books(s) && AcceptStep(s, s')
    ensures Books(s')
  {
    hide Where;
    if s.acceptor.Holding? {
      RegistryAt(s, s.acceptor.id);
      AcceptMoves(s, s', s.acceptor.id);
      AcceptRebooks(s, s', s.acceptor.id);
      hide AcceptStep, Rebooked, InAcceptLoop, IsRegistered;
      MoveBooks(s, s', s.acceptor.id);
    } else if s' != s.(acceptor := Stopped) {
      var c := Conn(Accepted, false);
      WhereAppend(s.conns, c, HasSlot);
      WhereAppend(s.conns, c, IsCounted);
      WhereAppend(s.conns, c, IsRegistered);
      WhereAppend(s.conns, c, IsWaitedFor);
    }
  }

  lemma ServeBooks(s: Sys, s': Sys, id: nat)
    requires Books(s) && ServeStep(s, s', id)
    ensures Books(s')
  {
    hide Where;
    if s.serve.Ranging? && s'.conns != s.conns {
      RegistryAt(s, id);
      MoveBooks(s, s', id);
    }
  }

  lemma StepShutdown(s: Sys, s': Sys)
    requires Books(s) && Shutdown(s) && Next(s, s')
    ensures Shutdown(s')
  {
    hide Where, Books, Shutdown, AcceptStep, LoopStep, CleanupStep, ServeStep;
    if s' == s.(cancelled := true) {
      CancelShutdown(s, s');
    } else if AcceptStep(s, s') {
      AcceptShutdown(s, s');
    } else if id :| LoopStep(s, s', id) {
      LoopShutdown(s, s', id);
    } else if id :| CleanupStep(s, s', id) {
      CleanupShutdown(s, s', id);
    } else {
      var id :| ServeStep(s, s', id);
      ServeShutdown(s, s', id);
    }
  }

  lemma CancelShutdown(s: Sys, s': Sys)
    requires Shutdown(s) && s' == s.(cancelled := true)
    ensures Shutdown(s')
  {
  }

  lemma AcceptShutdown(s: Sys, s': Sys)
    requires Shutdown(s) && AcceptStep(s, s')
    ensures Shutdown(s')
  {
    AcceptNotBusy(s, s');
    hide AcceptStep;
  }

  /** The accept loop makes no handler busy and leaves the busy ones alone. */
  lemma AcceptNotBusy(s: Sys, s': Sys)
    requires AcceptStep(s, s')
    ensures s'.serve == s.serve && s'.cancelled == s.cancelled && |s.conns| <= |s'.conns|
    ensures forall id :: 0 <= id < |s'.conns| && Busy(s'.conns[id].stage) ==>
              id < |s.conns| && s'.conns[id] == s.conns[id]
  {
  }

  lemma LoopShutdown(s: Sys, s': Sys, id: nat)
    requires Shutdown(s) && LoopStep(s, s', id)
    ensures Shutdown(s')
  {
  }

  lemma CleanupShutdown(s: Sys, s': Sys, id: nat)
    requires Shutdown(s) && CleanupStep(s, s', id)
    ensures Shutdown(s')
  {
  }

  lemma ServeShutdown(s: Sys, s': Sys, id: nat)
    requires Books(s) && Shutdown(s) && ServeStep(s, s', id)
    ensures Shutdown(s')
  {
    forall i | 0 <= i < |s.conns| && Busy(s.conns[i].stage)
      ensures i in s.registry && i in Where(s.conns, IsWaitedFor)
    {
      RegistryAt(s, i);
    }
    hide Where;
    if s.serve.Draining? {
      assert Where(s.conns, IsWaitedFor) == {};
    }
  }

  ghost predicate Inv(s: Sys) {
    Books(s) && Shutdown(s)
  }

  lemma {:induction false} RunInv(ss: seq<Sys>, i: nat)
    requires Run(ss) && i < |ss|
    ensures Inv(ss[i])
  {
    hide Books, Shutdown, AcceptStep, HandlerStep, ServeStep;
    if i == 0 {
      InitInv(ss[0]);
    } else {
      RunInv(ss, i - 1);
      var s, s' := ss[i - 1], ss[i];
      assert Next(s, s');
      StepShutdown(s, s');
      if s' == s.(cancelled := true) {
        CancelBooks(s, s');
      } else if AcceptStep(s, s') {
        AcceptBooks(s, s');
      } else if id :| HandlerStep(s, s', id) {
        HandlerBooks(s, s', id);
      } else {
        var id :| ServeStep(s, s', id);
        ServeBooks(s, s', id);
      }
    }
  }

  lemma CancelBooks(s: Sys, s': Sys)
    requires Books(s) && s' == s.(cancelled := true)
    ensures Books(s')
  {
  }

  lemma InitInv(s: Sys)
    requires Init(s)
    ensures Inv(s)
  {
    assert Where([], HasSlot) == {} && Where([], IsCounted) == {} && Where([], IsWaitedFor) == {};
  }

  // ---------------------------------------------------------------- theorems

  /** At every moment the slots taken are those of the connections accepted and
      not yet released, never more than the cap, and the client counter counts
      the same connections but for those between the two bookings. */
  lemma SlotsAreExact(ss: seq<Sys>, i: nat)
    requires Run(ss) && i < |ss|
    ensures ss[i].slots == |Where(ss[i].conns, HasSlot)| <= ss[i].cap
    ensures ss[i].clients == |Where(ss[i].conns, IsCounted)|
    ensures ss[i].clients <= ss[i].cap + |Where(ss[i].conns, (st: Stage) => st.Released?)|
  {
    RunInv(ss, i);
    ClientsBounded(ss[i].conns);
  }

  lemma ClientsBounded(conns: seq<Conn>)
    ensures |Where(conns, IsCounted)| <= |Where(conns, HasSlot)| + |Where(conns, (st: Stage) => st.Released?)|
  {
    var a, b, c := Where(conns, IsCounted), Where(conns, HasSlot), Where(conns, (st: Stage) => st.Released?);
    assert a <= b + c;
    SubsetSize(a, b + c);
    UnionSize(b, c);
  }

  lemma {:induction false} SubsetSize(a: set<nat>, b: set<nat>)
    requires a <= b
    ensures |a| <= |b|
  {
    assert b == a + (b - a);
  }

  lemma UnionSize(b: set<nat>, c: set<nat>)
    ensures |b + c| <= |b| + |c|
  {
    assert b + c == b + (c - b);
    SubsetSize(c - b, c);
  }

  /** Once the closing pass is over, a handler that still waits for a command has
      had its connection closed. */
  lemma NoHandlerLeftWaiting(ss: seq<Sys>, i: nat, id: nat)
    requires Run(ss) && i < |ss| && id < |ss[i].conns|
    requires ss[i].serve.Draining? || ss[i].serve.Collecting? || ss[i].serve.Returned?
    requires ss[i].conns[id].stage.Reading?
    ensures ss[i].conns[id].closed
  {
    RunInv(ss, i);
  }

  /** When Serve has returned, no command is running and none will: a handler that
      is left over, from a connection accepted just before the listener closed,
      can only find the context cancelled. */
  lemma ReturnedIsQuiet(ss: seq<Sys>, i: nat, id: nat, s': Sys)
    requires Run(ss) && i < |ss| && id < |ss[i].conns| && ss[i].serve.Returned?
    ensures !Busy(ss[i].conns[id].stage)
    ensures HandlerStep(ss[i], s', id) ==> |s'.conns| == |ss[i].conns| && !Busy(s'.conns[id].stage)
  {
    hide Books, Next, LoopStep, CleanupStep;
    RunInv(ss, i);
    var s := ss[i];
    assert !Busy(s.conns[id].stage);
    if LoopStep(s, s', id) {
      QuietLoop(s, s', id);
    } else if CleanupStep(s, s', id) {
      QuietCleanup(s, s', id);
    }
  }

  lemma QuietLoop(s: Sys, s': Sys, id: nat)
    requires LoopStep(s, s', id) && s.cancelled && !Busy(s.conns[id].stage)
    ensures |s'.conns| == |s.conns| && !Busy(s'.conns[id].stage)
  {
  }

  lemma QuietCleanup(s: Sys, s': Sys, id: nat)
    requires CleanupStep(s, s', id)
    ensures |s'.conns| == |s.conns| && !Busy(s'.conns[id].stage)
  {
  }

  // ------------------------------------------- what Serve can leave behind

  /** Nothing will happen to the connection any more. */
  predicate Over(st: Stage) {
    st.Gone? || st.Rejected?
  }

  predicate Drained(v: Serving) {
    v.Collecting? || v.Returned?
  }

  /** The listener is closed before the registry is visited, and Serve returns
      after the accept loop. */
  predicate Ordered(s: Sys) {
    (s.serve.Serving? || s.serve.ClosingListener? || !s.listening) &&
    (s.serve.Returned? ==> s.acceptor.Stopped?)
  }

  lemma StepOrdered(s: Sys, s': Sys)
    requires Ordered(s) && Next(s, s')
    ensures Ordered(s')
  {
    hide LoopStep, CleanupStep;
    if id :| LoopStep(s, s', id) {
      LoopKeeps(s, s', id);
    } else if id :| CleanupStep(s, s', id) {
      CleanupKeeps(s, s', id);
    }
  }

  lemma LoopKeeps(s: Sys, s': Sys, id: nat)
    requires LoopStep(s, s', id)
    ensures s'.serve == s.serve && s'.listening == s.listening && s'.acceptor == s.acceptor
    ensures |s'.conns| == |s.conns|
    ensures forall i :: 0 <= i < |s.conns| && Over(s.conns[i].stage) ==> Over(s'.conns[i].stage)
  {
  }

  lemma CleanupKeeps(s: Sys, s': Sys, id: nat)
    requires CleanupStep(s, s', id)
    ensures s'.serve == s.serve && s'.listening == s.listening && s'.acceptor == s.acceptor
    ensures |s'.conns| == |s.conns|
    ensures forall i :: 0 <= i < |s.conns| && Over(s.conns[i].stage) ==> Over(s'.conns[i].stage)
  {
  }

  /** Once the wait group has been found at zero no connection is added, and none
      that is over comes back. */
  lemma DrainedStep(s: Sys, s': Sys)
    requires Ordered(s) && Drained(s.serve) && Next(s, s')
    ensures Drained(s'.serve) && |s'.conns| == |s.conns|
    ensures forall i :: 0 <= i < |s.conns| && Over(s.conns[i].stage) ==> Over(s'.conns[i].stage)
  {
    hide LoopStep, CleanupStep;
    if id :| LoopStep(s, s', id) {
      LoopKeeps(s, s', id);
    } else if id :| CleanupStep(s, s', id) {
      CleanupKeeps(s, s', id);
    }
  }

  lemma DrainingEnds(s: Sys, s': Sys)
    requires Next(s, s') && Drained(s'.serve) && !Drained(s.serve)
    ensures s.serve.Draining? && s.wg == 0 && s' == s.(serve := Collecting)
  {
    hide LoopStep, CleanupStep;
    if id :| LoopStep(s, s', id) {
      LoopKeeps(s, s', id);
    } else if id :| CleanupStep(s, s', id) {
      CleanupKeeps(s, s', id);
    }
  }

  /** With the wait group at zero every connection is over but the one that the
      accept loop holds, if any. */
  lemma OnlyHeldIsLeft(s: Sys, id: nat)
    requires Books(s) && s.wg == 0 && id < |s.conns|
    ensures Over(s.conns[id].stage) || s.acceptor == Holding(id)
  {
    var waited := Where(s.conns, IsWaitedFor);
    assert waited == {};
    assert id !in waited;
  }

  lemma {:induction false} RunOrdered(ss: seq<Sys>, i: nat)
    requires Run(ss) && i < |ss|
    ensures Ordered(ss[i])
  {
    hide Next, Ordered;
    if i == 0 {
      InitOrdered(ss[0]);
    } else {
      RunOrdered(ss, i - 1);
      assert Next(ss[i - 1], ss[i - 1 + 1]);
      StepOrdered(ss[i - 1], ss[i]);
    }
  }

  lemma InitOrdered(s: Sys)
    requires Init(s)
    ensures Ordered(s) && !Drained(s.serve)
  {
  }

  /** The connections that can outlive the wait: at most one, the one that the
      accept loop held at the moment j when the wait group was found at zero. */
  lemma {:induction false} LeftOver(ss: seq<Sys>, i: nat) returns (j: nat)
    requires Run(ss) && i < |ss| && Drained(ss[i].serve)
    ensures j < i && ss[j].serve.Draining? && ss[j].wg == 0 && ss[j + 1] == ss[j].(serve := Collecting)
    ensures |ss[i].conns| == |ss[j].conns|
    ensures forall id :: 0 <= id < |ss[i].conns| && !Over(ss[i].conns[id].stage) ==> ss[j].acceptor == Holding(id)
  {
    hide Next, Ordered, Books, Shutdown, Init, Over;
    if i == 0 {
      InitOrdered(ss[0]);
      assert false;
    } else {
      var s, s' := ss[i - 1], ss[i];
      assert Next(ss[i - 1], ss[i - 1 + 1]);
      if Drained(s.serve) {
        j := LeftOver(ss, i - 1);
        RunOrdered(ss, i - 1);
        DrainedStep(s, s');
      } else {
        j := i - 1;
        DrainingEnds(s, s');
        RunInv(ss, i - 1);
        forall id | 0 <= id < |s.conns| && !Over(s.conns[id].stage) ensures s.acceptor == Holding(id) {
          OnlyHeldIsLeft(s, id);
        }
      }
    }
  }

  /** A connection that is not over when Serve has returned has its handler, which
      is past the accept loop and not busy. */
  lemma LeftOverHandler(ss: seq<Sys>, i: nat, id: nat)
    requires Run(ss) && i < |ss| && ss[i].serve.Returned? && id < |ss[i].conns| && !Over(ss[i].conns[id].stage)
    ensures IsWaitedFor(ss[i].conns[id].stage)
    ensures !InAcceptLoop(ss[i].conns[id].stage) && !Busy(ss[i].conns[id].stage)
  {
    RunOrdered(ss, i);
    hide Next, Where;
    RunInv(ss, i);
  }

  lemma RunExtend(ss: seq<Sys>, s': Sys)
    requires Run(ss) && Next(ss[|ss| - 1], s')
    ensures Run(ss + [s'])
  {
    hide Next;
    var tt := ss + [s'];
    forall i | 0 <= i < |tt| - 1 ensures Next(tt[i], tt[i + 1]) {
      if i < |ss| - 1 {
        assert tt[i] == ss[i] && tt[i + 1] == ss[i + 1];
      } else {
        assert tt[i] == ss[|ss| - 1] && tt[i + 1] == s';
      }
    }
  }

  lemma Accepts(ss: seq<Sys>, s': Sys) returns (tt: seq<Sys>)
    requires Run(ss) && AcceptStep(ss[|ss| - 1], s')
    ensures Run(tt) && tt == ss + [s']
  {
    hide Run, AcceptStep;
    tt := ss + [s'];
    RunExtend(ss, s');
  }

  lemma Serves(ss: seq<Sys>, s': Sys) returns (tt: seq<Sys>)
    requires Run(ss) && ServeStep(ss[|ss| - 1], s', 0)
    ensures Run(tt) && tt == ss + [s']
  {
    hide Run, ServeStep;
    tt := ss + [s'];
    RunExtend(ss, s');
  }

  /** Such a connection exists: Serve returns while a handler, counted by the wait
      group since, has yet to look at the context. */
  lemma HandlerOutlivesServe() returns (ss: seq<Sys>)
    ensures Run(ss)
    ensures var s := ss[|ss| - 1];
            s.serve.Returned? && |s.conns| == 1 && s.conns[0].stage.Checking? && s.wg == 1 && s.slots == 1
  {
    hide Run;
    var s := Sys(1, false, true, 0, 0, 0, {}, [], Looping, Serving);
    ss := [s];
    assert Run(ss) by { StartRun(s); }
    s := s.(conns := [Conn(Accepted, false)], acceptor := Holding(0));
    ss := Accepts(ss, s);
    s := s.(conns := [Conn(Slotted, false)], slots := 1);
    ss := Accepts(ss, s);
    s := s.(cancelled := true);
    RunExtend(ss, s);
    ss := ss + [s];
    s := s.(serve := ClosingListener);
    ss := Serves(ss, s);
    s := s.(listening := false, serve := Ranging({}));
    ss := Serves(ss, s);
    s := s.(serve := Draining);
    ss := Serves(ss, s);
    s := s.(serve := Collecting);
    ss := Serves(ss, s);
    s := s.(conns := [Conn(Counted, false)], clients := 1);
    ss := Accepts(ss, s);
    s := s.(conns := [Conn(Registered, false)], registry := {0});
    ss := Accepts(ss, s);
    s := s.(conns := [Conn(Added, false)], wg := 1);
    ss := Accepts(ss, s);
    s := s.(conns := [Conn(Checking, false)], acceptor := Looping);
    ss := Accepts(ss, s);
    s := s.(acceptor := Stopped);
    ss := Accepts(ss, s);
    s := s.(serve := Returned);
    ss := Serves(ss, s);
  }

  lemma StartRun(s: Sys)
    requires Init(s)
    ensures Run([s])
  {
  }
}
