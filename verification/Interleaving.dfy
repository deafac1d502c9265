/** All interleavings of store operations: no reachable state is stuck, locks
    exclude each other, and the store is at every moment the outcome of a
    sequence of atomic operations. */
module Interleaving {
  import opened Basics
  import opened TimedMap
  import opened ExpHeap
  import opened Command
  import opened Concurrent
  import opened History
  import P = Persist
  import S = Store

  /** The shared state and the threads. `hist` lists the operations in the order
      in which they took effect; no step depends on it. */
  datatype Sys = Sys(now: int, flat: Flat, heap: multiset<ExpEntry>, threads: seq<Thread>, hist: seq<Atom>)

  /** Readings of an operation that starts at a and ends at b. */
  function Span(a: int, b: int): Ticks { Ticks(_ => a, b, b) }

  // ------------------------------------------------------------------- steps

  /** No thread but t holds the lock, in either mode. */
  ghost predicate Free(s: Sys, t: nat, l: Lock) {
    forall u :: 0 <= u < |s.threads| && u != t ==> l !in s.threads[u].held && l !in s.threads[u].reading
  }

  ghost predicate FreeToRead(s: Sys, t: nat, l: Lock) {
    forall u :: 0 <= u < |s.threads| && u != t ==> l !in s.threads[u].held
  }

  /** The heap entry that a single-key operation pushes after it has left an
      entry e under its key. */
  ghost function PushCode(m: Flat, cmd: Cmd, tk: Ticks, maxLen: int): seq<Instr>
    requires P.OneKey(cmd)
  {
    var r := Exec(m, cmd, tk, maxLen);
    if (cmd.Set? || cmd.ExpireIn? || cmd.ExpireAt? || cmd.PExpireAt?) && r.log != [] && cmd.key in r.m
       && r.m[cmd.key].expireAt != 0
    then Section(ExpMu, Push(ExpEntry(r.m[cmd.key].expireAt, cmd.key)))
    else []
  }

  function Without(m: Flat, slot: Bytes -> nat, i: nat): (r: Flat)
    ensures forall k :: k in r <==> k in m && slot(k) != i
    ensures forall k :: k in r ==> r[k] == m[k]
  {
    map k | k in m && slot(k) != i :: m[k]
  }

  function Tail(th: Thread): Thread
    requires th.cont != []
  {
    th.(cont := th.cont[1..])
  }

  /** Replace the instruction at the head. */
  function Head(th: Thread, a: Action): Thread
    requires th.cont != []
  {
    th.(cont := [Do(a)] + th.cont[1..])
  }

  function Put(s: Sys, t: nat, th: Thread): Sys
    requires t < |s.threads|
  {
    s.(threads := s.threads[t := th])
  }

  ghost predicate KeyStep(c: Config, s: Sys, s': Sys, t: nat, cmd: Cmd)
    requires t < |s.threads| && s.threads[t].cont != [] && P.OneKey(cmd)
  {
    var tk := Span(s.now, s'.now);
    var th := Tail(s.threads[t]);
    s.now <= s'.now < TWO63 &&
    s' == Sys(s'.now, Exec(s.flat, cmd, tk, c.maxLen).m, s.heap,
              s.threads[t := th.(cont := PushCode(s.flat, cmd, tk, c.maxLen) + th.cont)],
              s.hist + [Atom(cmd, tk)])
  }

  /** SetNXMulti looks at pair i: a live key ends the batch, an expired one is
      purged, and after the last pair the batch is decided. */
  ghost predicate ProbeStep(c: Config, s: Sys, s': Sys, t: nat, pairs: seq<Pair>, i: nat)
    requires t < |s.threads| && s.threads[t].cont != []
  {
    var th := s.threads[t];
    var decided := s.hist + [Atom(MSetNX(pairs), Span(s.now, s.now))];
    if i < |pairs| && Live(s.flat, pairs[i].0, s.now).Some? then
      s' == Put(s, t, Tail(th)).(hist := decided)
    else if i + 1 < |pairs| then
      s' == Put(s, t, Head(th, Probe(pairs, i + 1))).(flat := s.flat - {pairs[i].0})
    else
      s' == Put(s, t, Head(th, Write(pairs, 0)))
            .(flat := if i < |pairs| then s.flat - {pairs[i].0} else s.flat, hist := decided)
  }

  ghost predicate WriteStep(s: Sys, s': Sys, t: nat, pairs: seq<Pair>, i: nat)
    requires t < |s.threads| && s.threads[t].cont != []
  {
    var th := s.threads[t];
    if i >= |pairs| then s' == Put(s, t, Tail(th))
    else s' == Put(s, t, Head(th, Write(pairs, i + 1))).(flat := s.flat[pairs[i].0 := Entry(pairs[i].1, 0)])
  }

  ghost predicate ClearStep(c: Config, s: Sys, s': Sys, t: nat, i: nat)
    requires t < |s.threads| && s.threads[t].cont != []
  {
    var th := s.threads[t];
    if i >= c.n then s' == Put(s, t, Tail(th))
    else s' == Put(s, t, Head(th, Clear(i + 1)))
               .(flat := Without(s.flat, c.slot, i),
                 hist := if i == 0 then s.hist + [Atom(Flush, Span(s.now, s.now))] else s.hist)
  }

  /** The sweeper takes all entries that are due, in some order, and will visit
      each. */
  ghost predicate PopStep(c: Config, s: Sys, s': Sys, t: nat)
    requires t < |s.threads| && s.threads[t].cont != []
  {
    exists due :: PopOf(c, s, s', t, due)
  }

  ghost predicate PopOf(c: Config, s: Sys, s': Sys, t: nat, due: seq<ExpEntry>)
    requires t < |s.threads| && s.threads[t].cont != []
  {
    multiset(due) <= s.heap && (forall e :: e in due ==> e.deadline <= s.now) &&
    (forall e :: e in s.heap - multiset(due) ==> e.deadline > s.now) &&
    s' == Put(s, t, s.threads[t].(cont := s.threads[t].cont[1..] + Sections(c, Purges(due))))
          .(heap := s.heap - multiset(due))
  }

  ghost predicate ActStep(c: Config, s: Sys, s': Sys, t: nat, a: Action)
    requires t < |s.threads| && s.threads[t].cont != []
  {
    var th := s.threads[t];
    var next := Put(s, t, Tail(th));
    match a
    case One(cmd) => P.OneKey(cmd) && KeyStep(c, s, s', t, cmd)
    case Drop(key) =>
      s' == next.(flat := s.flat - {key}, hist := s.hist + [Atom(Del([key]), Span(s.now, s.now))])
    case Probe(pairs, i) => ProbeStep(c, s, s', t, pairs, i)
    case Write(pairs, i) => WriteStep(s, s', t, pairs, i)
    case Clear(i) => ClearStep(c, s, s', t, i)
    case ResetHeap => s' == next.(heap := multiset{})
    case Push(e) => s' == next.(heap := s.heap + multiset{e})
    case PopDue => PopStep(c, s, s', t)
    case PurgeIf(e) =>
      s' == next.(flat := if e.key in s.flat && s.flat[e.key].expireAt == e.deadline
                          then s.flat - {e.key} else s.flat)
    case LogRecord(_) => s' == next
    case Look(key) => s' == next.(hist := s.hist + [Atom(Exists([key]), Span(s.now, s.now))])
  }

  /** Thread t runs its next instruction. */
  ghost predicate Step(c: Config, s: Sys, s': Sys, t: nat) {
    t < |s.threads| && s.threads[t].cont != [] &&
    var th := s.threads[t];
    match th.cont[0]
    case Acquire(l) => Free(s, t, l) && s' == Put(s, t, Tail(th).(held := th.held + {l}))
    case AcquireShared(l) => FreeToRead(s, t, l) && s' == Put(s, t, Tail(th).(reading := th.reading + {l}))
    case Release(l) => s' == Put(s, t, Tail(th).(held := th.held - {l}))
    case ReleaseShared(l) => s' == Put(s, t, Tail(th).(reading := th.reading - {l}))
    case Do(a) => ActStep(c, s, s', t, a)
  }

  /** An idle thread takes up store operations, as a logged command or not. */
  ghost predicate Start(c: Config, s: Sys, s': Sys, t: nat, ops: seq<Op>, logged: Option<seq<Cmd>>) {
    t < |s.threads| && s.threads[t].cont == [] &&
    s' == Put(s, t, s.threads[t].(cont := if logged.None? then Codes(c, ops) else LoggedCode(c, ops, logged.value)))
  }

  ghost predicate TimePasses(s: Sys, s': Sys) {
    s.now <= s'.now < TWO63 && s' == s.(now := s'.now)
  }

  ghost predicate Next(c: Config, s: Sys, s': Sys) {
    TimePasses(s, s') || (exists t :: Step(c, s, s', t)) || exists t, ops, logged :: Start(c, s, s', t, ops, logged)
  }

  ghost predicate Init(s: Sys) {
    0 <= s.now < TWO63 && s.flat == map[] && s.heap == multiset{} && s.hist == [] &&
    forall t :: 0 <= t < |s.threads| ==> s.threads[t] == Thread({}, {}, [])
  }

  /** A run: each state leads to the next. */
  ghost predicate Run(c: Config, ss: seq<Sys>) {
    ss != [] && Init(ss[0]) && forall i :: 0 <= i < |ss| - 1 ==> Next(c, ss[i], ss[i + 1])
  }

  ghost predicate Reachable(c: Config, s: Sys) {
    exists ss :: Run(c, ss) && ss[|ss| - 1] == s
  }

  // --------------------------------------------------------------- invariants

  /** Beyond the head, a thread's code is untouched. */
  ghost predicate Untouched(code: seq<Instr>) {
    forall j :: 0 <= j < |code| && code[j].Do? ==>
      !code[j].a.Write? && (code[j].a.Probe? ==> code[j].a.i == 0) && (code[j].a.Clear? ==> code[j].a.i == 0)
  }

  ghost predicate Disciplined(c: Config, th: Thread) {
    Runs(c, th.held, th.reading, th.cont, {}) && (th.cont != [] ==> Untouched(th.cont[1..]))
  }

  ghost predicate Exclusive(s: Sys) {
    forall t, u, l :: 0 <= t < |s.threads| && 0 <= u < |s.threads| && t != u && l in s.threads[t].held ==>
      l !in s.threads[u].held && l !in s.threads[u].reading
  }

  /** No deadline in the heap or on its way there is 0; the sweeper is after
      passed deadlines only. */
  ghost predicate Deadlines(s: Sys) {
    (forall e :: e in s.heap ==> e.deadline != 0) &&
    forall t, j :: 0 <= t < |s.threads| && 0 <= j < |s.threads[t].cont| && s.threads[t].cont[j].Do? ==>
      (s.threads[t].cont[j].a.Push? ==> s.threads[t].cont[j].a.e.deadline != 0) &&
      (s.threads[t].cont[j].a.PurgeIf? ==>
         s.threads[t].cont[j].a.e.deadline != 0 && s.threads[t].cont[j].a.e.deadline <= s.now)
  }

  /** The thread is in the middle of writing a decided batch or flush, and has
      yet to reach key k. */
  ghost predicate Pending(c: Config, th: Thread, k: Bytes) {
    th.cont != [] && th.cont[0].Do? &&
    match th.cont[0].a
    case Write(pairs, i) => i <= LastPair(pairs, k)
    case Clear(i) => 0 < i <= c.slot(k)
    case _ => false
  }

  ghost function PendingEntry(c: Config, th: Thread, k: Bytes): Option<Entry>
    requires Pending(c, th, k)
  {
    match th.cont[0].a
    case Write(pairs, i) => Some(Entry(pairs[LastPair(pairs, k)].1, 0))
    case Clear(_) => None
  }

  /** A batch has found none of its first i keys. */
  ghost predicate Probed(s: Sys, th: Thread) {
    th.cont != [] && th.cont[0].Do? && th.cont[0].a.Probe? ==>
      forall j :: 0 <= j < th.cont[0].a.i && j < |th.cont[0].a.pairs| ==>
        Live(s.flat, th.cont[0].a.pairs[j].0, s.now).None?
  }

  /** What clients see under k is the outcome of the operations so far: the
      entry in the store, or the one that a thread holding its shard is about to
      write. */
  ghost predicate KeyLinear(c: Config, s: Sys, k: Bytes) {
    (forall t :: 0 <= t < |s.threads| && Pending(c, s.threads[t], k) ==>
       Live(Fold(s.hist, c.maxLen), k, s.now) == PendingEntry(c, s.threads[t], k)) &&
    ((forall t :: 0 <= t < |s.threads| ==> !Pending(c, s.threads[t], k)) ==>
       Live(s.flat, k, s.now) == Live(Fold(s.hist, c.maxLen), k, s.now))
  }

  ghost predicate Inv(c: Config, s: Sys) {
    0 <= s.now < TWO63 &&
    (forall t :: 0 <= t < |s.threads| ==> Disciplined(c, s.threads[t])) &&
    Exclusive(s) && Deadlines(s) &&
    (forall t :: 0 <= t < |s.threads| ==> Probed(s, s.threads[t])) &&
    forall k :: KeyLinear(c, s, k)
  }

  // --------------------------------------------------------- deadlock freedom

  ghost predicate Unfinished(s: Sys, t: nat) {
    t < |s.threads| && s.threads[t].cont != []
  }

  /** The thread waits for l, to write. */
  ghost predicate Wants(s: Sys, t: nat, l: Lock) {
    Unfinished(s, t) && s.threads[t].cont[0] == Acquire(l)
  }

  /** The next instruction cannot run. As with Go's RWMutex, a reader also waits
      while a writer does. */
  ghost predicate Blocked(s: Sys, t: nat)
    requires Unfinished(s, t)
  {
    var i := s.threads[t].cont[0];
    (i.Acquire? && !Free(s, t, i.l)) ||
    (i.AcquireShared? && (!FreeToRead(s, t, i.l) || exists u :: Wants(s, u, i.l)))
  }

  function WantedRank(c: Config, th: Thread): nat
    requires th.cont != []
  {
    if th.cont[0].Acquire? || th.cont[0].AcquireShared? then Rank(th.cont[0].l, c.n) else c.n + 2
  }

  lemma WantedRankBound(c: Config, th: Thread)
    requires th.cont != [] && Disciplined(c, th)
    ensures WantedRank(c, th) <= c.n + 2
  {
  }

  /** A thread that holds a lock has not finished, and if it waits, it waits for
      a lock further up. */
  lemma HolderWaitsHigher(c: Config, th: Thread, l: Lock)
    requires Disciplined(c, th) && (l in th.held || l in th.reading)
    ensures th.cont != []
    ensures th.cont[0].Acquire? || th.cont[0].AcquireShared? ==> Rank(l, c.n) < WantedRank(c, th)
  {
    assert l in th.held + th.reading;
  }

  /** From any unfinished thread, following who waits for whom leads to one that
      can run. */
  lemma {:induction false} Runnable(c: Config, s: Sys, t: nat) returns (u: nat)
    requires Inv(c, s) && Unfinished(s, t)
    ensures Unfinished(s, u) && !Blocked(s, u)
    decreases c.n + 2 - WantedRank(c, s.threads[t])
  {
    u := t;
    if Blocked(s, t) {
      var l := s.threads[t].cont[0].l;
      WantedRankBound(c, s.threads[t]);
      var w := t;
      if s.threads[t].cont[0].AcquireShared? && FreeToRead(s, t, l) {
        w :| Wants(s, w, l);
        if Free(s, w, l) { return w; }
      }
      var v: nat :| v < |s.threads| && (l in s.threads[v].held || l in s.threads[v].reading);
      HolderWaitsHigher(c, s.threads[v], l);
      if !Blocked(s, v) { return v; }
      WantedRankBound(c, s.threads[v]);
      u := Runnable(c, s, v);
    }
  }

  /** In a state that satisfies the invariant, some thread can run as long as any
      has not finished. */
  lemma DeadlockFree(c: Config, s: Sys)
    requires Inv(c, s) && exists t :: Unfinished(s, t)
    ensures exists u :: Unfinished(s, u) && !Blocked(s, u)
  {
    var t :| Unfinished(s, t);
    var u := Runnable(c, s, t);
  }

  /** A thread that is not blocked has a step. */
  lemma UnblockedSteps(c: Config, s: Sys, t: nat)
    requires Inv(c, s) && Unfinished(s, t) && !Blocked(s, t)
    ensures exists s' :: Step(c, s, s', t)
  {
    var th := s.threads[t];
    var next := Put(s, t, Tail(th));
    assert Disciplined(c, th);
    match th.cont[0]
    case Acquire(l) => assert Step(c, s, Put(s, t, Tail(th).(held := th.held + {l})), t);
    case AcquireShared(l) => assert Step(c, s, Put(s, t, Tail(th).(reading := th.reading + {l})), t);
    case Release(l) => assert Step(c, s, Put(s, t, Tail(th).(held := th.held - {l})), t);
    case ReleaseShared(l) => assert Step(c, s, Put(s, t, Tail(th).(reading := th.reading - {l})), t);
    case Do(a) =>
      hide Runs, Exec;
      var s' := ActWitness(c, s, t, a);
      assert Step(c, s, s', t);
  }

  lemma {:induction false} DueList(heap: multiset<ExpEntry>, now: int) returns (due: seq<ExpEntry>)
    ensures multiset(due) <= heap && (forall e :: e in due ==> e.deadline <= now)
    ensures forall e :: e in heap - multiset(due) ==> e.deadline > now
    decreases |heap|
  {
    if x :| x in heap && x.deadline <= now {
      due := DueList(heap - multiset{x}, now);
      assert heap - multiset(due + [x]) == heap - multiset{x} - multiset(due);
      due := due + [x];
    } else {
      due := [];
    }
  }

  lemma ActWitness(c: Config, s: Sys, t: nat, a: Action) returns (s': Sys)
    requires Unfinished(s, t) && 0 <= s.now < TWO63 && Protected(c, a, s.threads[t].held)
    ensures ActStep(c, s, s', t, a)
  {
    hide Exec, Fold;
    var th := s.threads[t];
    var next := Put(s, t, Tail(th));
    match a
    case One(cmd) =>
      var tk := Span(s.now, s.now);
      s' := Sys(s.now, Exec(s.flat, cmd, tk, c.maxLen).m, s.heap,
                s.threads[t := Tail(th).(cont := PushCode(s.flat, cmd, tk, c.maxLen) + th.cont[1..])],
                s.hist + [Atom(cmd, tk)]);
    case Drop(key) => s' := next.(flat := s.flat - {key}, hist := s.hist + [Atom(Del([key]), Span(s.now, s.now))]);
    case Probe(pairs, i) =>
      var decided := s.hist + [Atom(MSetNX(pairs), Span(s.now, s.now))];
      s' := if i < |pairs| && Live(s.flat, pairs[i].0, s.now).Some? then next.(hist := decided)
            else if i + 1 < |pairs| then Put(s, t, Head(th, Probe(pairs, i + 1))).(flat := s.flat - {pairs[i].0})
            else Put(s, t, Head(th, Write(pairs, 0)))
                   .(flat := if i < |pairs| then s.flat - {pairs[i].0} else s.flat, hist := decided);
    case Write(pairs, i) =>
      s' := if i >= |pairs| then next
            else Put(s, t, Head(th, Write(pairs, i + 1))).(flat := s.flat[pairs[i].0 := Entry(pairs[i].1, 0)]);
    case Clear(i) =>
      s' := if i >= c.n then next
            else Put(s, t, Head(th, Clear(i + 1)))
                   .(flat := Without(s.flat, c.slot, i),
                     hist := if i == 0 then s.hist + [Atom(Flush, Span(s.now, s.now))] else s.hist);
    case ResetHeap => s' := next.(heap := multiset{});
    case Push(e) => s' := next.(heap := s.heap + multiset{e});
    case PopDue =>
      var due := DueList(s.heap, s.now);
      s' := Put(s, t, th.(cont := th.cont[1..] + Sections(c, Purges(due)))).(heap := s.heap - multiset(due));
      assert PopOf(c, s, s', t, due);
    case PurgeIf(e) =>
      s' := next.(flat := if e.key in s.flat && s.flat[e.key].expireAt == e.deadline
                          then s.flat - {e.key} else s.flat);
    case LogRecord(_) => s' := next;
    case Look(key) => s' := next.(hist := s.hist + [Atom(Exists([key]), Span(s.now, s.now))]);
  }

  // -------------------------------------------- the invariant: locks and code

  lemma UntouchedTail(code: seq<Instr>)
    requires Untouched(code)
    ensures code != [] ==> Untouched(code[1..])
  {
  }

  lemma UntouchedAppend(a: seq<Instr>, b: seq<Instr>)
    requires Untouched(a) && Untouched(b)
    ensures Untouched(a + b)
  {
  }

  lemma {:induction false} SectionsUntouched(c: Config, due: seq<ExpEntry>)
    ensures Untouched(Sections(c, Purges(due)))
    ensures forall j :: 0 <= j < |Sections(c, Purges(due))| && Sections(c, Purges(due))[j].Do? ==>
              Sections(c, Purges(due))[j].a.PurgeIf? && Sections(c, Purges(due))[j].a.e in due
  {
    if due != [] {
      SectionsUntouched(c, due[1..]);
      assert Purges(due)[1..] == Purges(due[1..]);
      var one := Section(Shard(c, due[0].key), PurgeIf(due[0]));
      assert Sections(c, Purges(due)) == one + Sections(c, Purges(due[1..]));
      UntouchedAppend(one, Sections(c, Purges(due[1..])));
    }
  }

  lemma {:induction false} CodeUntouched(c: Config, op: Op)
    requires WellConfigured(c)
    ensures Untouched(Code(c, op)) && NoDeadlines(Code(c, op))
  {
    match op
    case OpKey(_) =>
    case OpDel(keys) => DropsUntouched(c, keys);
    case OpRead(keys) => ReadsUntouched(c, keys);
    case OpBatch(pairs) =>
      LocksUntouched(Slots(c, pairs), 0, c.n);
      UnlocksUntouched(Slots(c, pairs), c.n);
    case OpFlush =>
      LocksUntouched(AllSlots(c.n), 0, c.n);
      UnlocksUntouched(AllSlots(c.n), c.n);
    case OpSweep =>
  }

  /** Fresh code pushes and purges nothing yet. */
  ghost predicate NoDeadlines(code: seq<Instr>) {
    forall j :: 0 <= j < |code| && code[j].Do? ==> !code[j].a.Push? && !code[j].a.PurgeIf?
  }

  lemma {:induction false} DropsUntouched(c: Config, keys: seq<Bytes>)
    ensures Untouched(Sections(c, Drops(keys))) && NoDeadlines(Sections(c, Drops(keys)))
  {
    if keys != [] {
      DropsUntouched(c, keys[1..]);
      assert Drops(keys)[1..] == Drops(keys[1..]);
    }
  }

  lemma {:induction false} ReadsUntouched(c: Config, keys: seq<Bytes>)
    ensures Untouched(Reads(c, keys)) && NoDeadlines(Reads(c, keys))
  {
    if keys != [] { ReadsUntouched(c, keys[1..]); }
  }

  lemma {:induction false} LocksUntouched(wanted: set<nat>, from: nat, n: nat)
    requires from <= n
    ensures forall j :: 0 <= j < |LockAll(wanted, from, n)| ==> LockAll(wanted, from, n)[j].Acquire?
    decreases n - from
  {
    if from < n { LocksUntouched(wanted, from + 1, n); }
  }

  lemma {:induction false} UnlocksUntouched(wanted: set<nat>, upto: nat)
    ensures forall j :: 0 <= j < |UnlockAll(wanted, upto)| ==> UnlockAll(wanted, upto)[j].Release?
  {
    if upto > 0 { UnlocksUntouched(wanted, upto - 1); }
  }

  lemma {:induction false} LoggingUntouched(recs: seq<Cmd>)
    ensures Untouched(Logging(recs)) && NoDeadlines(Logging(recs))
  {
    if recs != [] { LoggingUntouched(recs[1..]); }
  }

  lemma {:induction false} CodesUntouched(c: Config, ops: seq<Op>)
    requires WellConfigured(c)
    ensures Untouched(Codes(c, ops)) && NoDeadlines(Codes(c, ops))
  {
    hide Code;
    if ops != [] {
      CodeUntouched(c, ops[0]);
      CodesUntouched(c, ops[1..]);
    }
  }

  lemma LoggedUntouched(c: Config, ops: seq<Op>, recs: seq<Cmd>)
    requires WellConfigured(c)
    ensures Untouched(LoggedCode(c, ops, recs)) && NoDeadlines(LoggedCode(c, ops, recs))
  {
    hide Codes, Logging;
    CodesUntouched(c, ops);
    LoggingUntouched(recs);
  }

  /** The stepping thread keeps to the lock order. */
  lemma StepDisciplined(c: Config, s: Sys, s': Sys, t: nat)
    requires WellConfigured(c) && Step(c, s, s', t) && Disciplined(c, s.threads[t])
    ensures |s'.threads| == |s.threads| && Disciplined(c, s'.threads[t])
    ensures s'.threads == s.threads[t := s'.threads[t]]
    ensures s'.threads[t].cont != [] && (!s.threads[t].cont[0].Do? || !Advances(s.threads[t].cont[0].a)) ==>
              Untouched(s'.threads[t].cont)
  {
    var th := s.threads[t];
    hide Exec, Fold;
    match th.cont[0]
    case Do(a) => ActDisciplined(c, s, s', t, a);
    case _ => UntouchedTail(th.cont[1..]);
  }

  /** The actions that may stay at the head of the code. */
  predicate Advances(a: Action) {
    a.Probe? || a.Write? || a.Clear?
  }

  /** b is what an advancing action leaves at the head. */
  predicate Follows(a: Action, b: Action) {
    (a.Probe? && (b == Probe(a.pairs, a.i + 1) || b == Write(a.pairs, 0))) ||
    (a.Write? && b == Write(a.pairs, a.i + 1)) ||
    (a.Clear? && b == Clear(a.i + 1))
  }

  /** What an action does to the code of its thread: it is done with, stays at
      the head in a later form, pushes a deadline, or sends the sweeper out. */
  ghost predicate NewCode(c: Config, s: Sys, a: Action, rest: seq<Instr>, code: seq<Instr>) {
    code == rest ||
    (exists b :: Follows(a, b) && code == [Do(b)] + rest) ||
    (a.One? && exists e: ExpEntry :: e.deadline != 0 && code == Section(ExpMu, Push(e)) + rest) ||
    (a.PopDue? && exists due :: DueEntries(s, due) && code == rest + Sections(c, Purges(due)))
  }

  ghost predicate DueEntries(s: Sys, due: seq<ExpEntry>) {
    forall e :: e in due ==> e in s.heap && e.deadline <= s.now
  }

  /** The step touches no thread but t, and of t only its code. */
  ghost predicate OnlyCode(s: Sys, s': Sys, t: nat)
    requires t < |s.threads|
  {
    |s'.threads| == |s.threads| && s.now <= s'.now &&
    s'.threads == s.threads[t := s.threads[t].(cont := s'.threads[t].cont)]
  }

  lemma KeyCode(c: Config, s: Sys, s': Sys, t: nat, cmd: Cmd)
    requires Unfinished(s, t) && P.OneKey(cmd) && KeyStep(c, s, s', t, cmd)
    ensures OnlyCode(s, s', t) && s'.heap == s.heap
    ensures NewCode(c, s, One(cmd), s.threads[t].cont[1..], s'.threads[t].cont)
  {
    hide Exec, Fold;
    var rest := s.threads[t].cont[1..];
    var push := PushCode(s.flat, cmd, Span(s.now, s'.now), c.maxLen);
    if push == [] { assert push + rest == rest; }
  }

  lemma ProbeCode(c: Config, s: Sys, s': Sys, t: nat, pairs: seq<Pair>, i: nat)
    requires Unfinished(s, t) && ProbeStep(c, s, s', t, pairs, i)
    ensures OnlyCode(s, s', t) && s'.heap == s.heap
    ensures NewCode(c, s, Probe(pairs, i), s.threads[t].cont[1..], s'.threads[t].cont)
  {
    assert Follows(Probe(pairs, i), Probe(pairs, i + 1)) && Follows(Probe(pairs, i), Write(pairs, 0));
  }

  lemma PopCode(c: Config, s: Sys, s': Sys, t: nat)
    requires Unfinished(s, t) && PopStep(c, s, s', t)
    ensures OnlyCode(s, s', t) && s'.heap <= s.heap && s'.flat == s.flat && s'.hist == s.hist && s'.now == s.now
    ensures NewCode(c, s, PopDue, s.threads[t].cont[1..], s'.threads[t].cont)
  {
    hide Sections, Purges;
    var due :| PopOf(c, s, s', t, due);
    forall e | e in due ensures e in s.heap { assert e in multiset(due); }
    assert DueEntries(s, due);
  }

  lemma ActCode(c: Config, s: Sys, s': Sys, t: nat, a: Action)
    requires Unfinished(s, t) && ActStep(c, s, s', t, a)
    ensures OnlyCode(s, s', t) && NewCode(c, s, a, s.threads[t].cont[1..], s'.threads[t].cont)
    ensures a.Push? || s'.heap <= s.heap
  {
    hide KeyStep, ProbeStep, PopStep, Sections, Section, DueEntries;
    match a
    case One(cmd) => KeyCode(c, s, s', t, cmd);
    case Probe(pairs, i) => ProbeCode(c, s, s', t, pairs, i);
    case Write(pairs, i) => assert Follows(a, Write(pairs, i + 1));
    case Clear(i) => assert Follows(a, Clear(i + 1));
    case PopDue => PopCode(c, s, s', t);
    case _ =>
  }

  lemma ActDisciplined(c: Config, s: Sys, s': Sys, t: nat, a: Action)
    requires WellConfigured(c) && Unfinished(s, t) && s.threads[t].cont[0] == Do(a)
    requires ActStep(c, s, s', t, a) && Disciplined(c, s.threads[t])
    ensures |s'.threads| == |s.threads| && Disciplined(c, s'.threads[t])
    ensures s'.threads == s.threads[t := s'.threads[t]]
    ensures s'.threads[t].held == s.threads[t].held && s'.threads[t].reading == s.threads[t].reading
    ensures s'.threads[t].cont != [] && !Advances(a) ==> Untouched(s'.threads[t].cont)
  {
    hide ActStep, Sections, Purges, Section, DueEntries;
    ActCode(c, s, s', t, a);
    var th, code := s.threads[t], s'.threads[t].cont;
    var rest := th.cont[1..];
    UntouchedTail(rest);
    if code == rest {
    } else if b :| Follows(a, b) && code == [Do(b)] + rest {
      assert code[1..] == rest;
    } else if a.One? {
      var e: ExpEntry :| e.deadline != 0 && code == Section(ExpMu, Push(e)) + rest;
      PushRuns(c, th, Section(ExpMu, Push(e)), rest);
    } else {
      var due :| DueEntries(s, due) && code == rest + Sections(c, Purges(due));
      PurgesRun(c, th, due, rest);
    }
  }

  lemma PurgesRun(c: Config, th: Thread, due: seq<ExpEntry>, rest: seq<Instr>)
    requires WellConfigured(c) && Runs(c, th.held, th.reading, rest, {}) && Untouched(rest)
    ensures var code := rest + Sections(c, Purges(due));
            Runs(c, th.held, th.reading, code, {}) && Untouched(code) && (code != [] ==> Untouched(code[1..]))
  {
    var visits := Sections(c, Purges(due));
    SectionsRun(c, {}, Purges(due));
    RunsAppend(c, th.held, th.reading, rest, {}, visits, {});
    SectionsUntouched(c, due);
    hide Sections, Runs;
    UntouchedAppend(rest, visits);
    UntouchedTail(rest + visits);
  }

  lemma PushRuns(c: Config, th: Thread, push: seq<Instr>, rest: seq<Instr>)
    requires Runs(c, th.held, th.reading, rest, {}) && Below(th.held + th.reading, ExpMu, c.n) && Untouched(rest)
    requires push == [] || exists e :: push == Section(ExpMu, Push(e))
    ensures Runs(c, th.held, th.reading, push + rest, {}) && Untouched(push + rest)
    ensures push + rest != [] ==> Untouched((push + rest)[1..])
  {
    if push == [] {
      assert push + rest == rest;
      UntouchedTail(rest);
    } else {
      var e :| push == Section(ExpMu, Push(e));
      var code := push + rest;
      assert code[1..] == [Do(Push(e)), Release(ExpMu)] + rest;
      assert code[1..][1..] == [Release(ExpMu)] + rest;
      assert code[1..][1..][1..] == rest;
      assert th.held + {ExpMu} - {ExpMu} == th.held by { assert ExpMu !in th.held + th.reading; }
      assert Runs(c, th.held + {ExpMu}, th.reading, code[1..][1..], {});
      assert Runs(c, th.held + {ExpMu}, th.reading, code[1..], {});
      UntouchedAppend(push, rest);
      UntouchedTail(code);
    }
  }

  lemma StepExclusive(c: Config, s: Sys, s': Sys, t: nat)
    requires WellConfigured(c) && Step(c, s, s', t) && Disciplined(c, s.threads[t]) && Exclusive(s)
    ensures Exclusive(s')
  {
    hide Runs, Fold, Exec, Untouched;
    StepDisciplined(c, s, s', t);
    if s.threads[t].cont[0].Do? { ActDisciplined(c, s, s', t, s.threads[t].cont[0].a); }
    forall u | 0 <= u < |s.threads| && u != t ensures s'.threads[u] == s.threads[u] {}
  }

  /** The part of `Deadlines` about one thread's code. */
  ghost predicate CodeDeadlines(code: seq<Instr>, now: int) {
    forall j :: 0 <= j < |code| && code[j].Do? ==>
      (code[j].a.Push? ==> code[j].a.e.deadline != 0) &&
      (code[j].a.PurgeIf? ==> code[j].a.e.deadline != 0 && code[j].a.e.deadline <= now)
  }

  lemma ActDeadlines(c: Config, s: Sys, s': Sys, t: nat, a: Action)
    requires Unfinished(s, t) && s.threads[t].cont[0] == Do(a) && ActStep(c, s, s', t, a)
    requires (forall e :: e in s.heap ==> e.deadline != 0) && CodeDeadlines(s.threads[t].cont, s.now)
    ensures s.now <= s'.now && |s'.threads| == |s.threads|
    ensures (forall e :: e in s'.heap ==> e.deadline != 0) && CodeDeadlines(s'.threads[t].cont, s'.now)
  {
    hide ActStep, NewCode;
    ActCode(c, s, s', t, a);
    if a.Push? {
      PushedDeadline(c, s, s', t, a);
    }
    NewCodeDeadlines(c, s, a, s.threads[t].cont, s'.threads[t].cont, s'.now);
  }

  lemma NewCodeDeadlines(c: Config, s: Sys, a: Action, cont: seq<Instr>, code: seq<Instr>, now: int)
    requires cont != [] && cont[0] == Do(a) && NewCode(c, s, a, cont[1..], code) && s.now <= now
    requires (forall e :: e in s.heap ==> e.deadline != 0) && CodeDeadlines(cont, s.now)
    ensures CodeDeadlines(code, now)
  {
    var rest := cont[1..];
    if a.PopDue? && code != rest {
      hide Sections, Purges, Follows;
      var due :| DueEntries(s, due) && code == rest + Sections(c, Purges(due));
      SectionsUntouched(c, due);
    }
  }

  lemma PushedDeadline(c: Config, s: Sys, s': Sys, t: nat, a: Action)
    requires Unfinished(s, t) && ActStep(c, s, s', t, a) && a.Push?
    ensures s'.heap == s.heap + multiset{a.e}
  {
  }

  lemma StepDeadlines(c: Config, s: Sys, s': Sys, t: nat)
    requires WellConfigured(c) && Step(c, s, s', t) && Disciplined(c, s.threads[t]) && Deadlines(s)
    ensures s.now <= s'.now && Deadlines(s')
  {
    hide Runs, Fold, Exec, Untouched, ActStep;
    StepDisciplined(c, s, s', t);
    assert CodeDeadlines(s.threads[t].cont, s.now);
    if s.threads[t].cont[0].Do? {
      ActDeadlines(c, s, s', t, s.threads[t].cont[0].a);
    }
    forall u | 0 <= u < |s.threads| ensures CodeDeadlines(s'.threads[u].cont, s'.now) {
      assert CodeDeadlines(s.threads[u].cont, s.now);
    }
  }

  // ------------------------------------------------- the invariant: contents

  predicate SameAt(a: Flat, b: Flat, k: Bytes) {
    (k in a <==> k in b) && (k in a ==> a[k] == b[k])
  }

  /** What is right about key k as far as one thread, its only writer, goes. */
  ghost predicate KeyRight(c: Config, flat: Flat, fold: Flat, th: Thread, k: Bytes, now: int) {
    if Pending(c, th, k) then Live(fold, k, now) == PendingEntry(c, th, k)
    else Live(flat, k, now) == Live(fold, k, now)
  }

  lemma PendingIsHeld(c: Config, th: Thread, k: Bytes)
    requires WellConfigured(c) && Disciplined(c, th) && Pending(c, th, k)
    ensures Shard(c, k) in th.held
  {
    match th.cont[0].a
    case Write(pairs, i) => assert pairs[LastPair(pairs, k)].0 == k;
    case Clear(_) => assert c.slot(k) < c.n;
  }

  lemma FreshNotPending(c: Config, th: Thread, k: Bytes)
    requires th.cont == [] || Untouched(th.cont)
    ensures !Pending(c, th, k)
  {
  }

  /** Under the shard lock, only the holder's view of the key matters. */
  lemma OwnedKey(c: Config, s: Sys, t: nat, k: Bytes)
    requires WellConfigured(c) && t < |s.threads| && Exclusive(s) && Shard(c, k) in s.threads[t].held
    requires forall u :: 0 <= u < |s.threads| ==> Disciplined(c, s.threads[u])
    ensures KeyLinear(c, s, k) <==> KeyRight(c, s.flat, Fold(s.hist, c.maxLen), s.threads[t], k, s.now)
  {
    hide Disciplined, Pending, Fold;
    forall u | 0 <= u < |s.threads| && u != t ensures !Pending(c, s.threads[u], k) {
      if Pending(c, s.threads[u], k) { PendingIsHeld(c, s.threads[u], k); }
    }
  }

  /** A key that the step does not touch, in the store or in the history, and
      whose pending entry it leaves alone, stays right. */
  lemma KeyUntouched(c: Config, s: Sys, s': Sys, k: Bytes)
    requires KeyLinear(c, s, k) && s.now <= s'.now && |s'.threads| == |s.threads|
    requires SameAt(s.flat, s'.flat, k) && SameAt(Fold(s.hist, c.maxLen), Fold(s'.hist, c.maxLen), k)
    requires forall u :: 0 <= u < |s.threads| ==>
               (Pending(c, s'.threads[u], k) <==> Pending(c, s.threads[u], k)) &&
               (Pending(c, s.threads[u], k) ==>
                  PendingEntry(c, s'.threads[u], k) == PendingEntry(c, s.threads[u], k))
    ensures KeyLinear(c, s', k)
  {
    var f, f' := Fold(s.hist, c.maxLen), Fold(s'.hist, c.maxLen);
    hide Fold, Pending;
    forall u | 0 <= u < |s.threads| && Pending(c, s'.threads[u], k)
      ensures Live(f', k, s'.now) == PendingEntry(c, s'.threads[u], k)
    {
      assert Live(f, k, s.now) == PendingEntry(c, s.threads[u], k);
      PendingForever(c, s.threads[u], k);
    }
    if forall u :: 0 <= u < |s.threads| ==> !Pending(c, s'.threads[u], k) {
      forall u | 0 <= u < |s.threads| ensures !Pending(c, s.threads[u], k) {
        assert Pending(c, s'.threads[u], k) <==> Pending(c, s.threads[u], k);
      }
      assert Live(s.flat, k, s.now) == Live(f, k, s.now);
    }
  }

  /** A pending entry carries no deadline. */
  lemma PendingForever(c: Config, th: Thread, k: Bytes)
    requires Pending(c, th, k)
    ensures PendingEntry(c, th, k).Some? ==> PendingEntry(c, th, k).value.expireAt == 0
  {
  }

  // ---- the actions, each on the keys of the shards its thread holds

  lemma KeyStepRight(c: Config, s: Sys, s': Sys, t: nat, cmd: Cmd, k: Bytes)
    requires Unfinished(s, t) && s.threads[t].cont[0] == Do(One(cmd)) && P.OneKey(cmd)
    requires KeyStep(c, s, s', t, cmd) && Untouched(s'.threads[t].cont)
    requires KeyRight(c, s.flat, Fold(s.hist, c.maxLen), s.threads[t], cmd.key, s.now)
    ensures k != cmd.key ==> SameAt(s.flat, s'.flat, k) && SameAt(Fold(s.hist, c.maxLen), Fold(s'.hist, c.maxLen), k)
    ensures KeyRight(c, s'.flat, Fold(s'.hist, c.maxLen), s'.threads[t], cmd.key, s'.now)
  {
    hide Fold, Exec, PushCode, Untouched, Pending;
    var tk, fold := Span(s.now, s'.now), Fold(s.hist, c.maxLen);
    FoldNext(s.hist, cmd, tk, c.maxLen);
    NotWriting(c, s.threads[t], One(cmd), cmd.key);
    P.OneKeyLocal(s.flat, fold, cmd, tk, c.maxLen);
    var o :| Exec(s.flat, cmd, tk, c.maxLen).m == Update(s.flat, cmd.key, o) &&
             Exec(fold, cmd, tk, c.maxLen).m == Update(fold, cmd.key, o);
    FreshNotPending(c, s'.threads[t], cmd.key);
  }

  lemma NotWriting(c: Config, th: Thread, a: Action, k: Bytes)
    requires th.cont != [] && th.cont[0] == Do(a) && !a.Write? && !a.Clear?
    ensures !Pending(c, th, k)
  {
  }

  lemma DropRight(c: Config, s: Sys, s': Sys, t: nat, key: Bytes, k: Bytes)
    requires Unfinished(s, t) && s.threads[t].cont[0] == Do(Drop(key)) && ActStep(c, s, s', t, Drop(key))
    requires Untouched(s'.threads[t].cont)
    ensures k != key ==> SameAt(s.flat, s'.flat, k) && SameAt(Fold(s.hist, c.maxLen), Fold(s'.hist, c.maxLen), k)
    ensures KeyRight(c, s'.flat, Fold(s'.hist, c.maxLen), s'.threads[t], key, s'.now)
  {
    var tk, fold := Span(s.now, s.now), Fold(s.hist, c.maxLen);
    FoldNext(s.hist, Del([key]), tk, c.maxLen);
    assert [key][..0] == [];
    assert DelAll(fold, [key][..0]) == fold;
    assert Exec(fold, Del([key]), tk, c.maxLen).m == fold - {key};
    FreshNotPending(c, s'.threads[t], key);
  }

  /** The batch of thread t is about to look at pair i; none of the keys has a
      pending entry, and those before i are not live. */
  ghost predicate AtProbe(c: Config, s: Sys, t: nat, pairs: seq<Pair>, i: nat) {
    Unfinished(s, t) && s.threads[t].cont[0] == Do(Probe(pairs, i)) && Untouched(s.threads[t].cont[1..]) &&
    (forall j :: 0 <= j < i && j < |pairs| ==> Live(s.flat, pairs[j].0, s.now).None?) &&
    forall j :: 0 <= j < |pairs| ==>
      Live(s.flat, pairs[j].0, s.now) == Live(Fold(s.hist, c.maxLen), pairs[j].0, s.now)
  }

  /** The outcome of a step on key k: untouched unless the key is named, and right
      if it is. */
  ghost predicate Settles(c: Config, s: Sys, s': Sys, t: nat, named: bool, k: Bytes) {
    |s'.threads| == |s.threads| && t < |s.threads| &&
    (!named ==>
       SameAt(s.flat, s'.flat, k) && SameAt(Fold(s.hist, c.maxLen), Fold(s'.hist, c.maxLen), k) &&
       !Pending(c, s'.threads[t], k)) &&
    (named ==> KeyRight(c, s'.flat, Fold(s'.hist, c.maxLen), s'.threads[t], k, s'.now))
  }

  /** A batch that meets a live key has no effect, as MSETNX says. */
  lemma ProbeAborts(c: Config, s: Sys, s': Sys, t: nat, pairs: seq<Pair>, i: nat, k: Bytes)
    requires AtProbe(c, s, t, pairs, i) && ProbeStep(c, s, s', t, pairs, i)
    requires i < |pairs| && Live(s.flat, pairs[i].0, s.now).Some?
    ensures Settles(c, s, s', t, LastPair(pairs, k) >= 0, k)
  {
    var fold, tk := Fold(s.hist, c.maxLen), Span(s.now, s.now);
    FoldNext(s.hist, MSetNX(pairs), tk, c.maxLen);
    hide Fold, PutAll;
    assert Live(fold, pairs[i].0, Sample(tk.check, |pairs|)[i]).Some?;
    assert Exec(fold, MSetNX(pairs), tk, c.maxLen).m == fold;
    FreshNotPending(c, s'.threads[t], k);
  }

  lemma ProbeGoesOn(c: Config, s: Sys, s': Sys, t: nat, pairs: seq<Pair>, i: nat, k: Bytes)
    requires AtProbe(c, s, t, pairs, i) && ProbeStep(c, s, s', t, pairs, i)
    requires i + 1 < |pairs| && Live(s.flat, pairs[i].0, s.now).None?
    ensures Settles(c, s, s', t, LastPair(pairs, k) >= 0, k) && Probed(s', s'.threads[t])
  {
    hide Fold;
    assert !Pending(c, s'.threads[t], k);
    if LastPair(pairs, k) >= 0 { assert pairs[LastPair(pairs, k)].0 == k; }
  }

  /** A batch that has met no live key is decided: all its pairs are as good as
      written. */
  lemma ProbeDecides(c: Config, s: Sys, s': Sys, t: nat, pairs: seq<Pair>, i: nat, k: Bytes)
    requires AtProbe(c, s, t, pairs, i) && ProbeStep(c, s, s', t, pairs, i)
    requires i + 1 >= |pairs| && (i < |pairs| ==> Live(s.flat, pairs[i].0, s.now).None?)
    ensures Settles(c, s, s', t, LastPair(pairs, k) >= 0, k)
  {
    var fold, tk := Fold(s.hist, c.maxLen), Span(s.now, s.now);
    FoldNext(s.hist, MSetNX(pairs), tk, c.maxLen);
    PutAllAt(fold, pairs, k);
    hide Fold, PutAll;
    forall j | 0 <= j < |pairs| ensures Live(fold, pairs[j].0, Sample(tk.check, |pairs|)[j]).None? {
      assert Live(s.flat, pairs[j].0, s.now).None?;
    }
    assert Exec(fold, MSetNX(pairs), tk, c.maxLen).m == PutAll(fold, pairs);
  }

  lemma WriteRight(c: Config, s: Sys, s': Sys, t: nat, pairs: seq<Pair>, i: nat, k: Bytes)
    requires Unfinished(s, t) && s.threads[t].cont[0] == Do(Write(pairs, i)) && WriteStep(s, s', t, pairs, i)
    requires Untouched(s.threads[t].cont[1..])
    requires LastPair(pairs, k) >= 0 ==> KeyRight(c, s.flat, Fold(s.hist, c.maxLen), s.threads[t], k, s.now)
    ensures Settles(c, s, s', t, LastPair(pairs, k) >= 0, k)
  {
    hide Fold;
    if i >= |pairs| {
      FreshNotPending(c, s'.threads[t], k);
    } else if pairs[i].0 == k {
      assert i <= LastPair(pairs, k);
    }
  }

  lemma ClearRight(c: Config, s: Sys, s': Sys, t: nat, i: nat, k: Bytes)
    requires WellConfigured(c)
    requires Unfinished(s, t) && s.threads[t].cont[0] == Do(Clear(i)) && ClearStep(c, s, s', t, i)
    requires Untouched(s.threads[t].cont[1..])
    requires KeyRight(c, s.flat, Fold(s.hist, c.maxLen), s.threads[t], k, s.now)
    ensures Settles(c, s, s', t, true, k)
  {
    if i == 0 { FoldNext(s.hist, Flush, Span(s.now, s.now), c.maxLen); }
    hide Fold;
    if i >= c.n { FreshNotPending(c, s'.threads[t], k); }
  }

  /** The sweeper purges only what has expired, whatever happened to the key since
      its deadline was taken from the heap. */
  lemma PurgeSafe(c: Config, s: Sys, s': Sys, t: nat, e: ExpEntry)
    requires Unfinished(s, t) && s.threads[t].cont[0] == Do(PurgeIf(e)) && ActStep(c, s, s', t, PurgeIf(e))
    requires Deadlines(s)
    ensures forall k :: k in s.flat && k !in s'.flat ==> Expired(s.flat[k], s.now)
    ensures SameView(s.flat, s'.flat, s.now)
  {
  }

  // -------------------------------------------------------- the whole invariant

  /** The keys an action may change. */
  ghost predicate Names(a: Action, k: Bytes) {
    match a
    case One(cmd) => P.OneKey(cmd) && cmd.key == k
    case Drop(key) => key == k
    case Probe(pairs, _) => LastPair(pairs, k) >= 0
    case Write(pairs, _) => LastPair(pairs, k) >= 0
    case Clear(_) => true
    case PurgeIf(e) => e.key == k
    case _ => false
  }

  lemma NamedIsHeld(c: Config, a: Action, held: set<Lock>, k: Bytes)
    requires WellConfigured(c) && Protected(c, a, held) && Names(a, k)
    ensures Shard(c, k) in held
  {
    if a.Probe? || a.Write? { assert a.pairs[LastPair(a.pairs, k)].0 == k; }
    assert c.slot(k) < c.n;
  }

  lemma ProbeOutcome(c: Config, s: Sys, s': Sys, t: nat, pairs: seq<Pair>, i: nat, k: Bytes)
    requires AtProbe(c, s, t, pairs, i) && ProbeStep(c, s, s', t, pairs, i)
    ensures Settles(c, s, s', t, LastPair(pairs, k) >= 0, k) && Probed(s', s'.threads[t])
  {
    if i < |pairs| && Live(s.flat, pairs[i].0, s.now).Some? {
      ProbeAborts(c, s, s', t, pairs, i, k);
    } else if i + 1 < |pairs| {
      ProbeGoesOn(c, s, s', t, pairs, i, k);
    } else {
      ProbeDecides(c, s, s', t, pairs, i, k);
    }
  }

  lemma PurgeRight(c: Config, s: Sys, s': Sys, t: nat, e: ExpEntry, k: Bytes)
    requires Unfinished(s, t) && s.threads[t].cont[0] == Do(PurgeIf(e)) && ActStep(c, s, s', t, PurgeIf(e))
    requires Deadlines(s) && Untouched(s'.threads[t].cont)
    requires k == e.key ==> KeyRight(c, s.flat, Fold(s.hist, c.maxLen), s.threads[t], k, s.now)
    ensures Settles(c, s, s', t, k == e.key, k)
  {
    hide Fold;
    PurgeSafe(c, s, s', t, e);
    FreshNotPending(c, s'.threads[t], k);
  }

  /** The key's right before the step, if the step may change it. */
  ghost predicate RightBefore(c: Config, s: Sys, t: nat, a: Action) {
    t < |s.threads| &&
    forall k :: Names(a, k) ==> KeyRight(c, s.flat, Fold(s.hist, c.maxLen), s.threads[t], k, s.now)
  }

  lemma KeyOutcome(c: Config, s: Sys, s': Sys, t: nat, cmd: Cmd, k: Bytes)
    requires Unfinished(s, t) && s.threads[t].cont[0] == Do(One(cmd)) && P.OneKey(cmd)
    requires KeyStep(c, s, s', t, cmd) && Untouched(s'.threads[t].cont) && RightBefore(c, s, t, One(cmd))
    ensures Settles(c, s, s', t, cmd.key == k, k)
  {
    hide Fold, Exec, KeyRight;
    assert Names(One(cmd), cmd.key);
    KeyStepRight(c, s, s', t, cmd, k);
    FreshNotPending(c, s'.threads[t], k);
  }

  lemma DropOutcome(c: Config, s: Sys, s': Sys, t: nat, key: Bytes, k: Bytes)
    requires Unfinished(s, t) && s.threads[t].cont[0] == Do(Drop(key)) && ActStep(c, s, s', t, Drop(key))
    requires Untouched(s'.threads[t].cont)
    ensures Settles(c, s, s', t, key == k, k)
  {
    hide Fold, Exec, KeyRight;
    DropRight(c, s, s', t, key, k);
    FreshNotPending(c, s'.threads[t], k);
  }

  lemma QuietOutcome(c: Config, s: Sys, s': Sys, t: nat, k: Bytes)
    requires t < |s.threads| == |s'.threads| && s'.flat == s.flat && s'.hist == s.hist
    requires Untouched(s'.threads[t].cont)
    ensures Settles(c, s, s', t, false, k)
  {
    hide Fold;
    FreshNotPending(c, s'.threads[t], k);
  }

  lemma LookOutcome(c: Config, s: Sys, s': Sys, t: nat, key: Bytes, k: Bytes)
    requires Unfinished(s, t) && ActStep(c, s, s', t, Look(key)) && Untouched(s'.threads[t].cont)
    ensures Settles(c, s, s', t, false, k)
  {
    hide Fold;
    FoldNext(s.hist, Exists([key]), Span(s.now, s.now), c.maxLen);
    FreshNotPending(c, s'.threads[t], k);
  }

  lemma QuietProbed(s: Sys, th: Thread)
    requires Untouched(th.cont)
    ensures Probed(s, th)
  {
  }

  lemma ProbeReady(c: Config, s: Sys, t: nat, pairs: seq<Pair>, i: nat)
    requires Unfinished(s, t) && s.threads[t].cont[0] == Do(Probe(pairs, i)) && Untouched(s.threads[t].cont[1..])
    requires Probed(s, s.threads[t]) && RightBefore(c, s, t, Probe(pairs, i))
    ensures AtProbe(c, s, t, pairs, i)
  {
    hide Fold;
    forall j | 0 <= j < |pairs|
      ensures Live(s.flat, pairs[j].0, s.now) == Live(Fold(s.hist, c.maxLen), pairs[j].0, s.now)
    {
      assert Names(Probe(pairs, i), pairs[j].0);
    }
  }

  /** Writing and clearing go on writing and clearing. */
  lemma WritingProbed(c: Config, s: Sys, s': Sys, t: nat, a: Action)
    requires Unfinished(s, t) && s.threads[t].cont[0] == Do(a) && ActStep(c, s, s', t, a)
    requires Untouched(s.threads[t].cont[1..]) && (a.Write? || a.Clear?)
    ensures |s'.threads| == |s.threads| && Probed(s', s'.threads[t])
  {
  }

  lemma {:induction false} ActOutcome(c: Config, s: Sys, s': Sys, t: nat, a: Action, k: Bytes)
    requires WellConfigured(c) && Unfinished(s, t) && s.threads[t].cont[0] == Do(a) && ActStep(c, s, s', t, a)
    requires Disciplined(c, s.threads[t]) && Deadlines(s) && Probed(s, s.threads[t]) && RightBefore(c, s, t, a)
    ensures Settles(c, s, s', t, Names(a, k), k) && Probed(s', s'.threads[t])
  {
    hide Runs, Fold, Exec, KeyStep, ProbeStep, PopStep, KeyRight, Untouched, Settles, Live, Probed, Deadlines;
    ActDisciplined(c, s, s', t, a);
    EmptyUntouched();
    if !Advances(a) { QuietProbed(s', s'.threads[t]); }
    match a
    case One(cmd) => KeyOutcome(c, s, s', t, cmd, k);
    case Drop(key) => DropOutcome(c, s, s', t, key, k);
    case Probe(pairs, i) =>
      ProbeReady(c, s, t, pairs, i);
      ProbeOutcome(c, s, s', t, pairs, i, k);
    case Write(pairs, i) =>
      assert RightBefore(c, s, t, a);
      WriteRight(c, s, s', t, pairs, i, k);
      WritingProbed(c, s, s', t, a);
    case Clear(i) =>
      assert Names(a, k);
      ClearRight(c, s, s', t, i, k);
      WritingProbed(c, s, s', t, a);
    case PurgeIf(e) => PurgeRight(c, s, s', t, e, k);
    case PopDue =>
      PopCode(c, s, s', t);
      QuietOutcome(c, s, s', t, k);
    case Look(key) => LookOutcome(c, s, s', t, key, k);
    case _ => QuietOutcome(c, s, s', t, k);
  }

  lemma EmptyUntouched()
    ensures Untouched([])
  {
  }

  lemma UnnamedNotPending(c: Config, s: Sys, t: nat, a: Action, k: Bytes)
    requires Unfinished(s, t) && s.threads[t].cont[0] == Do(a) && !Names(a, k)
    ensures !Pending(c, s.threads[t], k)
  {
  }

  lemma InvRightBefore(c: Config, s: Sys, t: nat, a: Action)
    requires WellConfigured(c) && Inv(c, s) && Unfinished(s, t) && s.threads[t].cont[0] == Do(a)
    ensures RightBefore(c, s, t, a)
  {
    hide Fold, Deadlines, Probed, KeyLinear, KeyRight;
    forall k | Names(a, k) ensures KeyRight(c, s.flat, Fold(s.hist, c.maxLen), s.threads[t], k, s.now) {
      NamedIsHeld(c, a, s.threads[t].held, k);
      OwnedKey(c, s, t, k);
      assert KeyLinear(c, s, k);
    }
  }

  /** What the locks and the code of a state must satisfy. */
  ghost predicate Sound(c: Config, s: Sys) {
    (forall t :: 0 <= t < |s.threads| ==> Disciplined(c, s.threads[t])) && Exclusive(s) && Deadlines(s)
  }

  lemma StepSound(c: Config, s: Sys, s': Sys, t: nat)
    requires WellConfigured(c) && Sound(c, s) && Step(c, s, s', t)
    ensures Sound(c, s') && s.now <= s'.now && |s'.threads| == |s.threads|
    ensures s'.threads == s.threads[t := s'.threads[t]]
  {
    hide Step, Exclusive, Deadlines, Disciplined;
    StepInRange(c, s, s', t);
    StepDisciplined(c, s, s', t);
    StepExclusive(c, s, s', t);
    StepDeadlines(c, s, s', t);
    forall u | 0 <= u < |s'.threads| ensures Disciplined(c, s'.threads[u]) {
      if u != t { assert s'.threads[u] == s.threads[u]; }
    }
  }

  lemma StepInRange(c: Config, s: Sys, s': Sys, t: nat)
    requires Step(c, s, s', t)
    ensures t < |s.threads|
  {
  }

  lemma ActLinear(c: Config, s: Sys, s': Sys, t: nat, a: Action, k: Bytes)
    requires WellConfigured(c) && Inv(c, s) && Step(c, s, s', t) && s.threads[t].cont[0] == Do(a) && Sound(c, s')
    requires |s'.threads| == |s.threads| && s.now <= s'.now && s'.threads == s.threads[t := s'.threads[t]]
    requires s'.threads[t].held == s.threads[t].held
    ensures KeyLinear(c, s', k)
  {
    InvRightBefore(c, s, t, a);
    hide Fold, Deadlines, Probed, KeyLinear, KeyRight, ActStep, Exclusive, Runs, Pending, SameAt;
    ActOutcome(c, s, s', t, a, k);
    if Names(a, k) {
      NamedIsHeld(c, a, s.threads[t].held, k);
      OwnedKey(c, s', t, k);
    } else {
      UnnamedNotPending(c, s, t, a, k);
      forall u | 0 <= u < |s.threads| && u != t ensures s'.threads[u] == s.threads[u] {}
      KeyUntouched(c, s, s', k);
    }
  }

  /** A batch's finds are safe from the steps of other threads. */
  lemma OthersProbed(c: Config, s: Sys, s': Sys, t: nat, a: Action, u: nat)
    requires WellConfigured(c) && Inv(c, s) && Step(c, s, s', t) && s.threads[t].cont[0] == Do(a)
    requires |s'.threads| == |s.threads| && s.now <= s'.now && s'.threads == s.threads[t := s'.threads[t]]
    requires u < |s.threads| && u != t
    ensures Probed(s', s'.threads[u])
  {
    hide Fold, Deadlines, KeyLinear, ActStep, Runs, Exclusive, Disciplined;
    var th := s.threads[u];
    assert s'.threads[u] == th && Disciplined(c, th) && Probed(s, th);
    if th.cont != [] && th.cont[0].Do? && th.cont[0].a.Probe? {
      var pairs, i := th.cont[0].a.pairs, th.cont[0].a.i;
      ProbeHoldsShards(c, th, pairs, i);
      forall j | 0 <= j < i && j < |pairs| ensures Live(s'.flat, pairs[j].0, s'.now).None? {
        OthersKey(c, s, s', t, a, u, pairs[j].0);
      }
    }
  }

  /** A key whose shard another thread holds does not come to life. */
  lemma OthersKey(c: Config, s: Sys, s': Sys, t: nat, a: Action, u: nat, k: Bytes)
    requires WellConfigured(c) && Inv(c, s) && Step(c, s, s', t) && s.threads[t].cont[0] == Do(a)
    requires s.now <= s'.now && u < |s.threads| && u != t && Shard(c, k) in s.threads[u].held
    requires Live(s.flat, k, s.now).None?
    ensures Live(s'.flat, k, s'.now).None?
  {
    hide Fold, Deadlines, KeyLinear, KeyRight, ActStep, Runs, Pending, Untouched, Probed;
    InvRightBefore(c, s, t, a);
    if Names(a, k) { NamedHeldBy(c, s, t, a, k); }
    ActOutcome(c, s, s', t, a, k);
  }

  lemma ProbeHoldsShards(c: Config, th: Thread, pairs: seq<Pair>, i: nat)
    requires Disciplined(c, th) && th.cont != [] && th.cont[0] == Do(Probe(pairs, i))
    ensures forall j :: 0 <= j < |pairs| ==> Shard(c, pairs[j].0) in th.held
  {
  }

  lemma NamedHeldBy(c: Config, s: Sys, t: nat, a: Action, k: Bytes)
    requires WellConfigured(c) && Unfinished(s, t) && Disciplined(c, s.threads[t]) && s.threads[t].cont[0] == Do(a)
    requires Names(a, k)
    ensures Shard(c, k) in s.threads[t].held
  {
    NamedIsHeld(c, a, s.threads[t].held, k);
  }

  lemma ActInv(c: Config, s: Sys, s': Sys, t: nat, a: Action)
    requires WellConfigured(c) && Inv(c, s) && Step(c, s, s', t) && s.threads[t].cont[0] == Do(a)
    ensures Inv(c, s')
  {
    assert Sound(c, s);
    StepSound(c, s, s', t);
    ActDisciplined(c, s, s', t, a);
    InvRightBefore(c, s, t, a);
    ActInTime(c, s, s', t, a);
    hide Fold, Deadlines, KeyLinear, ActStep, Exclusive, Probed, Disciplined, Step;
    forall u | 0 <= u < |s'.threads| ensures Probed(s', s'.threads[u]) {
      if u == t { ActOutcome(c, s, s', t, a, []); } else { OthersProbed(c, s, s', t, a, u); }
    }
    forall k ensures KeyLinear(c, s', k) { ActLinear(c, s, s', t, a, k); }
  }

  lemma ActInTime(c: Config, s: Sys, s': Sys, t: nat, a: Action)
    requires Unfinished(s, t) && ActStep(c, s, s', t, a) && 0 <= s.now < TWO63
    ensures 0 <= s'.now < TWO63
  {
    hide Exec, Fold, ProbeStep, WriteStep, ClearStep;
    if a.PopDue? { PopCode(c, s, s', t); }
    if a.Probe? { ProbeInTime(c, s, s', t, a.pairs, a.i); }
    if a.Write? { WriteInTime(s, s', t, a.pairs, a.i); }
    if a.Clear? { ClearInTime(c, s, s', t, a.i); }
  }

  lemma ProbeInTime(c: Config, s: Sys, s': Sys, t: nat, pairs: seq<Pair>, i: nat)
    requires Unfinished(s, t) && ProbeStep(c, s, s', t, pairs, i)
    ensures s'.now == s.now
  {
  }

  lemma WriteInTime(s: Sys, s': Sys, t: nat, pairs: seq<Pair>, i: nat)
    requires Unfinished(s, t) && WriteStep(s, s', t, pairs, i)
    ensures s'.now == s.now
  {
  }

  lemma ClearInTime(c: Config, s: Sys, s': Sys, t: nat, i: nat)
    requires Unfinished(s, t) && ClearStep(c, s, s', t, i)
    ensures s'.now == s.now
  {
  }

  /** Steps that only move a thread along, taking or giving back locks. */
  lemma QuietInv(c: Config, s: Sys, s': Sys, t: nat)
    requires WellConfigured(c) && Inv(c, s) && Sound(c, s') && t < |s.threads| == |s'.threads|
    requires s'.flat == s.flat && s'.hist == s.hist && s'.now == s.now
    requires s'.threads == s.threads[t := s'.threads[t]]
    requires forall k :: !Pending(c, s.threads[t], k)
    requires Untouched(s'.threads[t].cont)
    ensures Inv(c, s')
  {
    hide Fold, Deadlines, Exclusive, Disciplined, Pending;
    forall u | 0 <= u < |s'.threads| ensures Probed(s', s'.threads[u]) {
      if u == t { QuietProbed(s', s'.threads[t]); } else { assert Probed(s, s.threads[u]); }
    }
    forall k ensures KeyLinear(c, s', k) {
      FreshNotPending(c, s'.threads[t], k);
      assert KeyLinear(c, s, k) && !Pending(c, s.threads[t], k);
      KeyUntouched(c, s, s', k);
    }
  }

  lemma StepInv(c: Config, s: Sys, s': Sys, t: nat)
    requires WellConfigured(c) && Inv(c, s) && Step(c, s, s', t)
    ensures Inv(c, s')
  {
    assert Sound(c, s);
    if s.threads[t].cont[0].Do? {
      hide Inv, Step;
      ActInv(c, s, s', t, s.threads[t].cont[0].a);
    } else {
      StepSound(c, s, s', t);
      StepDisciplined(c, s, s', t);
      EmptyUntouched();
      hide Inv, Disciplined, Exclusive, Deadlines;
      QuietInv(c, s, s', t);
    }
  }

  lemma StartInv(c: Config, s: Sys, s': Sys, t: nat, ops: seq<Op>, logged: Option<seq<Cmd>>)
    requires WellConfigured(c) && Inv(c, s) && Start(c, s, s', t, ops, logged)
    ensures Inv(c, s')
  {
    hide Codes, LoggedCode, Runs, KeyLinear, Fold;
    var code := s'.threads[t].cont;
    CodesRun(c, {}, ops);
    CodesUntouched(c, ops);
    if logged.Some? {
      LoggedCodeRuns(c, ops, logged.value);
      LoggedUntouched(c, ops, logged.value);
    }
    IdleHoldsNothing(c, s.threads[t]);
    UntouchedTail(code);
    assert Disciplined(c, s'.threads[t]);
    forall u | 0 <= u < |s'.threads| ensures Disciplined(c, s'.threads[u]) {
      if u != t { assert s'.threads[u] == s.threads[u]; }
    }
    StartDeadlines(s, s', t);
    QuietInv(c, s, s', t);
  }

  lemma IdleHoldsNothing(c: Config, th: Thread)
    requires Disciplined(c, th) && th.cont == []
    ensures th.held == {} && th.reading == {}
  {
  }

  lemma StartDeadlines(s: Sys, s': Sys, t: nat)
    requires Deadlines(s) && t < |s.threads| == |s'.threads| && s' == Put(s, t, s'.threads[t])
    requires NoDeadlines(s'.threads[t].cont)
    ensures Deadlines(s')
  {
    forall u | 0 <= u < |s'.threads| && u != t ensures s'.threads[u] == s.threads[u] {}
  }

  lemma TimeInv(c: Config, s: Sys, s': Sys)
    requires Inv(c, s) && TimePasses(s, s')
    ensures Inv(c, s')
  {
    hide Fold, Disciplined, Pending;
    forall t | 0 <= t < |s.threads| ensures Probed(s', s'.threads[t]) { assert Probed(s, s.threads[t]); }
    forall k ensures KeyLinear(c, s', k) {
      assert KeyLinear(c, s, k);
      KeyUntouched(c, s, s', k);
    }
  }

  lemma InitInv(c: Config, s: Sys)
    requires Init(s)
    ensures Inv(c, s)
  {
  }

  lemma {:induction false} RunInv(c: Config, ss: seq<Sys>, i: nat)
    requires WellConfigured(c) && Run(c, ss) && i < |ss|
    ensures Inv(c, ss[i])
  {
    hide Inv, Init, TimePasses, Step, Start;
    if i == 0 {
      InitInv(c, ss[0]);
    } else {
      RunInv(c, ss, i - 1);
      assert Next(c, ss[i - 1], ss[i]);
      var s, s' := ss[i - 1], ss[i];
      if TimePasses(s, s') {
        TimeInv(c, s, s');
      } else if t :| Step(c, s, s', t) {
        StepInv(c, s, s', t);
      } else {
        var t, ops, logged :| Start(c, s, s', t, ops, logged);
        StartInv(c, s, s', t, ops, logged);
      }
    }
  }

  // ------------------------------------------------------------ what it means

  lemma ReachableInv(c: Config, s: Sys)
    requires WellConfigured(c) && Reachable(c, s)
    ensures Inv(c, s)
  {
    hide Inv, Next, Init;
    var ss :| Run(c, ss) && ss[|ss| - 1] == s;
    RunInv(c, ss, |ss| - 1);
  }

  /** No run of any number of threads over store operations, batches, flushes,
      sweeps and logged writes ever gets stuck, even if readers let waiting
      writers go first. */
  lemma NeverStuck(c: Config, s: Sys)
    requires WellConfigured(c) && Reachable(c, s) && exists t :: Unfinished(s, t)
    ensures exists u, s' :: Unfinished(s, u) && !Blocked(s, u) && Step(c, s, s', u)
  {
    hide Inv, Step, Blocked, Reachable;
    ReachableInv(c, s);
    DeadlockFree(c, s);
    var u :| Unfinished(s, u) && !Blocked(s, u);
    UnblockedSteps(c, s, u);
    var s' :| Step(c, s, s', u);
  }

  /** In every reachable state, what is visible under a key whose shard no thread
      has locked is the outcome of the operations so far, applied one by one. */
  lemma Linearizable(c: Config, s: Sys, k: Bytes)
    requires WellConfigured(c) && Reachable(c, s)
    requires forall t :: 0 <= t < |s.threads| ==> Shard(c, k) !in s.threads[t].held
    ensures Live(s.flat, k, s.now) == Live(Fold(s.hist, c.maxLen), k, s.now)
  {
    ReachableInv(c, s);
    hide Fold, Disciplined, Pending, Reachable;
    forall t | 0 <= t < |s.threads| ensures !Pending(c, s.threads[t], k) {
      if Pending(c, s.threads[t], k) { PendingIsHeld(c, s.threads[t], k); }
    }
    assert KeyLinear(c, s, k);
  }

  /** A single-key operation answers what it would answer on that outcome. */
  lemma AnswersLinear(c: Config, s: Sys, s': Sys, t: nat, cmd: Cmd)
    requires WellConfigured(c) && Inv(c, s) && Unfinished(s, t) && s.threads[t].cont[0] == Do(One(cmd))
    requires Step(c, s, s', t)
    ensures var tk := Span(s.now, s'.now);
            s'.hist == s.hist + [Atom(cmd, tk)] &&
            Exec(s.flat, cmd, tk, c.maxLen).answer == Exec(Fold(s.hist, c.maxLen), cmd, tk, c.maxLen).answer
  {
    InvRightBefore(c, s, t, One(cmd));
    hide Fold, Exec, KeyLinear, Deadlines, Exclusive;
    assert Names(One(cmd), cmd.key);
    P.OneKeyLocal(s.flat, Fold(s.hist, c.maxLen), cmd, Span(s.now, s'.now), c.maxLen);
  }

  /** Each key of a DEL is deleted in one step, and what it adds to the answer is
      what a DEL of that key alone would answer on the outcome so far. */
  lemma DropAnswersLinear(c: Config, s: Sys, s': Sys, t: nat, key: Bytes)
    requires WellConfigured(c) && Inv(c, s) && Unfinished(s, t) && s.threads[t].cont[0] == Do(Drop(key))
    requires Step(c, s, s', t)
    ensures var tk := Span(s.now, s.now);
            s'.hist == s.hist + [Atom(Del([key]), tk)] &&
            Exec(s.flat, Del([key]), tk, c.maxLen).answer
            == Exec(Fold(s.hist, c.maxLen), Del([key]), tk, c.maxLen).answer
  {
    InvRightBefore(c, s, t, Drop(key));
    hide Fold, KeyLinear, Deadlines, Exclusive, Runs;
    assert Names(Drop(key), key);
    DelOne(s.flat, key, s.now, c.maxLen);
    DelOne(Fold(s.hist, c.maxLen), key, s.now, c.maxLen);
  }

  lemma DelOne(m: Flat, key: Bytes, now: int, maxLen: int)
    ensures Exec(m, Del([key]), Span(now, now), maxLen).answer == Int(if Live(m, key, now).Some? then 1 else 0)
    ensures Exec(m, Exists([key]), Span(now, now), maxLen).answer == Int(if Live(m, key, now).Some? then 1 else 0)
  {
    var ks, ts := [key], Sample(Span(now, now).check, 1);
    assert ks[..0] == [];
    assert DelAll(m, ks[..0]) == m && DelCount(m, ks[..0], ts) == 0 && S.CountLive(m, ks[..0], ts) == 0;
    assert DelCount(m, ks, ts) == S.CountLive(m, ks, ts) == if Live(m, key, now).Some? then 1 else 0;
  }

  /** Each key of an EXISTS is looked at in one step, under the shared lock, and
      what it adds to the answer is what the outcome so far would say. */
  lemma LookAnswersLinear(c: Config, s: Sys, s': Sys, t: nat, key: Bytes)
    requires WellConfigured(c) && Inv(c, s) && Unfinished(s, t) && s.threads[t].cont[0] == Do(Look(key))
    requires Step(c, s, s', t)
    ensures var tk := Span(s.now, s.now);
            s'.hist == s.hist + [Atom(Exists([key]), tk)] && s'.flat == s.flat &&
            Exec(s.flat, Exists([key]), tk, c.maxLen).answer
            == Exec(Fold(s.hist, c.maxLen), Exists([key]), tk, c.maxLen).answer
  {
    LookerReads(c, s.threads[t], key);
    hide Fold, Deadlines, Runs, Pending;
    forall u | 0 <= u < |s.threads| ensures !Pending(c, s.threads[u], key) {
      UnnamedNotPending(c, s, t, Look(key), key);
      if u != t && Pending(c, s.threads[u], key) { PendingIsHeld(c, s.threads[u], key); }
    }
    assert KeyLinear(c, s, key);
    DelOne(s.flat, key, s.now, c.maxLen);
    DelOne(Fold(s.hist, c.maxLen), key, s.now, c.maxLen);
  }

  lemma LookerReads(c: Config, th: Thread, key: Bytes)
    requires Disciplined(c, th) && th.cont != [] && th.cont[0] == Do(Look(key))
    ensures Shard(c, key) in th.reading
  {
  }

  /** A batch takes effect in one step, as MSETNX: it stops at a live key having
      changed nothing, or all its pairs take effect together. */
  lemma BatchAtomic(c: Config, s: Sys, s': Sys, t: nat, pairs: seq<Pair>, i: nat)
    requires WellConfigured(c) && Inv(c, s) && Unfinished(s, t) && s.threads[t].cont[0] == Do(Probe(pairs, i))
    requires Step(c, s, s', t)
    ensures var tk := Span(s.now, s.now);
            var fold := Fold(s.hist, c.maxLen);
            s'.hist == s.hist ||
            (s'.hist == s.hist + [Atom(MSetNX(pairs), tk)] &&
             (Exec(fold, MSetNX(pairs), tk, c.maxLen) ==
              if s'.threads[t].cont == s.threads[t].cont[1..] then Outcome(fold, Int(0), [])
              else Outcome(PutAll(fold, pairs), Int(1), [MSet(pairs)])))
  {
    InvRightBefore(c, s, t, Probe(pairs, i));
    var fold, tk := Fold(s.hist, c.maxLen), Span(s.now, s.now);
    ProbeReady(c, s, t, pairs, i);
    hide Fold, PutAll, Inv;
    if i < |pairs| && Live(s.flat, pairs[i].0, s.now).Some? {
      assert Live(fold, pairs[i].0, Sample(tk.check, |pairs|)[i]).Some?;
    } else if i + 1 >= |pairs| {
      assert |s'.threads[t].cont| == |s.threads[t].cont|;
      forall j | 0 <= j < |pairs| ensures Live(fold, pairs[j].0, Sample(tk.check, |pairs|)[j]).None? {
        assert Live(s.flat, pairs[j].0, s.now).None?;
      }
    }
  }
}
