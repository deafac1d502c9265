/** What the code of an operation amounts to. In every interleaving, a thread that
    takes up store operations and has become idle again has put exactly the commands
    of those operations into the history, in order. */
module Programs {
  import opened Basics
  import opened TimedMap
  import opened ExpHeap
  import opened Command
  import opened Concurrent
  import opened History
  import opened Interleaving
  import P = Persist

  // ----------------------------------------------------- what code has to do yet

  /** The commands that an instruction will put into the history. */
  function Owes(i: Instr): seq<Cmd> {
    if !i.Do? then []
    else match i.a
      case One(cmd) => [cmd]
      case Drop(key) => [Del([key])]
      case Look(key) => [Exists([key])]
      case Probe(pairs, _) => [MSetNX(pairs)]
      case Clear(n) => if n == 0 then [Flush] else []
      case _ => []
  }

  function Owed(code: seq<Instr>): seq<Cmd> {
    if code == [] then [] else Owes(code[0]) + Owed(code[1..])
  }

  lemma {:induction false} OwedAppend(a: seq<Instr>, b: seq<Instr>)
    ensures Owed(a + b) == Owed(a) + Owed(b)
  {
    if a == [] {
      assert a + b == b;
    } else {
      assert (a + b)[1..] == a[1..] + b;
      OwedAppend(a[1..], b);
    }
  }

  lemma {:induction false} OwesNothing(code: seq<Instr>)
    requires forall j :: 0 <= j < |code| ==> Owes(code[j]) == []
    ensures Owed(code) == []
  {
    if code != [] { OwesNothing(code[1..]); }
  }

  /** The commands that a store operation stands for. */
  function CommandsOf(op: Op): seq<Cmd> {
    match op
    case OpKey(cmd) => [cmd]
    case OpDel(keys) => seq(|keys|, i requires 0 <= i < |keys| => Del([keys[i]]))
    case OpRead(keys) => seq(|keys|, i requires 0 <= i < |keys| => Exists([keys[i]]))
    case OpBatch(pairs) => if pairs == [] then [] else [MSetNX(pairs)]
    case OpFlush => [Flush]
    case OpSweep => []
  }

  function AllCommands(ops: seq<Op>): seq<Cmd> {
    if ops == [] then [] else CommandsOf(ops[0]) + AllCommands(ops[1..])
  }

  /** An operation on a single key is one that has been parsed. */
  predicate Proper(op: Op) {
    op.OpKey? ==> P.OneKey(op.cmd) && WellFormed(op.cmd)
  }

  lemma {:induction false} DropsOwe(c: Config, keys: seq<Bytes>)
    ensures Owed(Sections(c, Drops(keys))) == CommandsOf(OpDel(keys))
  {
    if keys != [] {
      var one, rest := Section(Shard(c, keys[0]), Drop(keys[0])), Sections(c, Drops(keys[1..]));
      DropsOwe(c, keys[1..]);
      assert Drops(keys)[1..] == Drops(keys[1..]);
      assert Sections(c, Drops(keys)) == one + rest;
      OwedAppend(one, rest);
      SectionOwes(Shard(c, keys[0]), Drop(keys[0]));
      assert CommandsOf(OpDel(keys)) == [Del([keys[0]])] + CommandsOf(OpDel(keys[1..]));
    }
  }

  lemma SectionOwes(l: Lock, a: Action)
    ensures Owed(Section(l, a)) == Owes(Do(a))
  {
    var code := Section(l, a);
    assert code[1..] == [Do(a), Release(l)] && code[1..][1..] == [Release(l)] && code[1..][1..][1..] == [];
    assert Owed(code[1..][1..]) == [];
    assert Owed(code[1..]) == Owes(Do(a));
  }

  lemma {:induction false} ReadsOwe(c: Config, keys: seq<Bytes>)
    ensures Owed(Reads(c, keys)) == CommandsOf(OpRead(keys))
  {
    if keys != [] {
      var l := Shard(c, keys[0]);
      var one := [AcquireShared(l), Do(Look(keys[0])), ReleaseShared(l)];
      ReadsOwe(c, keys[1..]);
      OwedAppend(one, Reads(c, keys[1..]));
      LookOwes(l, keys[0]);
      hide Owed;
      assert CommandsOf(OpRead(keys)) == [Exists([keys[0]])] + CommandsOf(OpRead(keys[1..]));
    }
  }

  lemma LookOwes(l: Lock, key: Bytes)
    ensures Owed([AcquireShared(l), Do(Look(key)), ReleaseShared(l)]) == [Exists([key])]
  {
    var code := [AcquireShared(l), Do(Look(key)), ReleaseShared(l)];
    assert code[1..] == [Do(Look(key)), ReleaseShared(l)] && code[1..][1..] == [ReleaseShared(l)];
    assert code[1..][1..][1..] == [] && Owed(code[1..][1..]) == [];
    assert Owed(code[1..]) == [Exists([key])];
  }

  lemma LockedOwes(wanted: set<nat>, n: nat, a: Action)
    ensures Owed(LockAll(wanted, 0, n) + [Do(a)] + UnlockAll(wanted, n)) == Owes(Do(a))
  {
    var locks, unlocks := LockAll(wanted, 0, n), UnlockAll(wanted, n);
    LocksUntouched(wanted, 0, n);
    UnlocksUntouched(wanted, n);
    OwesNothing(locks);
    OwesNothing(unlocks);
    OwedAppend(locks + [Do(a)], unlocks);
    OwedAppend(locks, [Do(a)]);
    assert [Do(a)][1..] == [];
  }

  lemma FlushOwes(c: Config)
    ensures Owed(Code(c, OpFlush)) == [Flush]
  {
    hide Owed, LockAll, UnlockAll, AllSlots, Section;
    var body := LockAll(AllSlots(c.n), 0, c.n) + [Do(Clear(0))] + UnlockAll(AllSlots(c.n), c.n);
    LockedOwes(AllSlots(c.n), c.n, Clear(0));
    OwedAppend(body, Section(ExpMu, ResetHeap));
    SectionOwes(ExpMu, ResetHeap);
  }

  lemma OwedNone()
    ensures Owed([]) == []
  {
  }

  /** The code of an operation does what the operation stands for. */
  lemma CodeOwes(c: Config, op: Op)
    requires Proper(op)
    ensures Owed(Code(c, op)) == CommandsOf(op)
  {
    hide Owed, LockAll, UnlockAll, Sections, Drops, Reads, Slots, AllSlots, Section;
    OwedNone();
    match op
    case OpKey(cmd) => SectionOwes(Shard(c, cmd.key), One(cmd));
    case OpDel(keys) => DropsOwe(c, keys);
    case OpRead(keys) => ReadsOwe(c, keys);
    case OpBatch(pairs) => if pairs != [] { LockedOwes(Slots(c, pairs), c.n, Probe(pairs, 0)); }
    case OpFlush => FlushOwes(c);
    case OpSweep => SectionOwes(ExpMu, PopDue);
  }

  lemma {:induction false} CodesOwe(c: Config, ops: seq<Op>)
    requires forall i :: 0 <= i < |ops| ==> Proper(ops[i])
    ensures Owed(Codes(c, ops)) == AllCommands(ops)
  {
    hide Code, CommandsOf, Proper;
    if ops != [] {
      CodeOwes(c, ops[0]);
      CodesOwe(c, ops[1..]);
      OwedAppend(Code(c, ops[0]), Codes(c, ops[1..]));
    }
  }

  lemma {:induction false} LoggingOwesNothing(recs: seq<Cmd>)
    ensures Owed(Logging(recs)) == []
  {
    if recs != [] {
      LoggingOwesNothing(recs[1..]);
      SectionOwes(LogMu, LogRecord(recs[0]));
      OwedAppend(Section(LogMu, LogRecord(recs[0])), Logging(recs[1..]));
    }
  }

  lemma LoggedOwes(c: Config, ops: seq<Op>, recs: seq<Cmd>)
    requires forall i :: 0 <= i < |ops| ==> Proper(ops[i])
    ensures Owed(LoggedCode(c, ops, recs)) == AllCommands(ops)
  {
    hide Codes, Logging, AllCommands, Proper;
    var a, b, d := [Acquire(WriteMu)] + Codes(c, ops), Logging(recs), [Release(WriteMu)];
    CodesOwe(c, ops);
    LoggingOwesNothing(recs);
    OwesNothing(d);
    OwesNothing([Acquire(WriteMu)]);
    OwedAppend(a + b, d);
    OwedAppend(a, b);
    OwedAppend([Acquire(WriteMu)], Codes(c, ops));
  }

  // ----------------------------------------------------------- steps pay it off

  /** The history after a step: at most one more command, that the code owed. */
  ghost predicate Pays(s: Sys, s': Sys, t: nat) {
    t < |s.threads| == |s'.threads| &&
    ((s'.hist == s.hist && Owed(s'.threads[t].cont) == Owed(s.threads[t].cont)) ||
     exists cmd :: s'.hist == s.hist + [Atom(cmd, Span(s.now, s'.now))] &&
                   Owed(s.threads[t].cont) == [cmd] + Owed(s'.threads[t].cont))
  }

  lemma PaysOne(s: Sys, s': Sys, t: nat, cmd: Cmd)
    requires t < |s.threads| == |s'.threads| && s'.hist == s.hist + [Atom(cmd, Span(s.now, s'.now))]
    requires Owed(s.threads[t].cont) == [cmd] + Owed(s'.threads[t].cont)
    ensures Pays(s, s', t)
  {
  }

  lemma KeyPays(c: Config, s: Sys, s': Sys, t: nat, cmd: Cmd)
    requires Unfinished(s, t) && s.threads[t].cont[0] == Do(One(cmd)) && P.OneKey(cmd) && KeyStep(c, s, s', t, cmd)
    ensures Pays(s, s', t)
  {
    hide Exec, Pays;
    var rest := s.threads[t].cont[1..];
    var push := PushCode(s.flat, cmd, Span(s.now, s'.now), c.maxLen);
    OwesNothing(push);
    OwedAppend(push, rest);
    PaysOne(s, s', t, cmd);
  }

  lemma ProbePays(c: Config, s: Sys, s': Sys, t: nat, pairs: seq<Pair>, i: nat)
    requires Unfinished(s, t) && s.threads[t].cont[0] == Do(Probe(pairs, i)) && ProbeStep(c, s, s', t, pairs, i)
    ensures Pays(s, s', t)
  {
    hide Pays;
    ProbeInTime(c, s, s', t, pairs, i);
    var rest := s.threads[t].cont[1..];
    var owed := Owed(rest);
    assert Owed(s.threads[t].cont) == [MSetNX(pairs)] + owed;
    if i < |pairs| && Live(s.flat, pairs[i].0, s.now).Some? {
      PaysOne(s, s', t, MSetNX(pairs));
    } else if i + 1 < |pairs| {
      assert s'.threads[t].cont[1..] == rest && Owed(s'.threads[t].cont) == [MSetNX(pairs)] + owed;
      PaysNothing(s, s', t);
    } else {
      assert s'.threads[t].cont[1..] == rest && Owed(s'.threads[t].cont) == [] + owed;
      PaysOne(s, s', t, MSetNX(pairs));
    }
  }

  lemma PaysNothing(s: Sys, s': Sys, t: nat)
    requires t < |s.threads| == |s'.threads| && s'.hist == s.hist
    requires Owed(s'.threads[t].cont) == Owed(s.threads[t].cont)
    ensures Pays(s, s', t)
  {
  }

  lemma ClearPays(c: Config, s: Sys, s': Sys, t: nat, i: nat)
    requires WellConfigured(c) && Unfinished(s, t) && s.threads[t].cont[0] == Do(Clear(i)) && ClearStep(c, s, s', t, i)
    ensures Pays(s, s', t)
  {
    hide Pays;
    var rest := s.threads[t].cont[1..];
    assert Owed(s.threads[t].cont) == Owes(Do(Clear(i))) + Owed(rest);
    if i < c.n {
      assert s'.threads[t].cont[1..] == rest && Owed(s'.threads[t].cont) == [] + Owed(rest);
    }
    if i == 0 {
      PaysOne(s, s', t, Flush);
    } else {
      PaysNothing(s, s', t);
    }
  }

  lemma PopPays(c: Config, s: Sys, s': Sys, t: nat)
    requires Unfinished(s, t) && s.threads[t].cont[0] == Do(PopDue) && PopStep(c, s, s', t)
    ensures Pays(s, s', t)
  {
    hide Sections, Purges, Pays, Owes;
    PopCode(c, s, s', t);
    var due :| PopOf(c, s, s', t, due);
    hide PopStep, NewCode, DueEntries;
    VisitsOwe(c, due);
    OwedAppend(s.threads[t].cont[1..], Sections(c, Purges(due)));
    assert Owes(Do(PopDue)) == [] by { PopOwes(); }
    PaysNothing(s, s', t);
  }

  lemma PopOwes()
    ensures Owes(Do(PopDue)) == []
  {
  }

  lemma VisitsOwe(c: Config, due: seq<ExpEntry>)
    ensures Owed(Sections(c, Purges(due))) == []
  {
    SectionsUntouched(c, due);
    OwesNothing(Sections(c, Purges(due)));
  }

  lemma ActPays(c: Config, s: Sys, s': Sys, t: nat, a: Action)
    requires WellConfigured(c) && Unfinished(s, t) && s.threads[t].cont[0] == Do(a) && ActStep(c, s, s', t, a)
    ensures Pays(s, s', t)
  {
    hide KeyStep, ProbeStep, ClearStep, PopStep, Pays;
    var rest := s.threads[t].cont[1..];
    assert Owed(s.threads[t].cont) == Owes(Do(a)) + Owed(rest);
    match a
    case One(cmd) => KeyPays(c, s, s', t, cmd);
    case Drop(key) => PaysOne(s, s', t, Del([key]));
    case Look(key) => PaysOne(s, s', t, Exists([key]));
    case Probe(pairs, i) => ProbePays(c, s, s', t, pairs, i);
    case Write(pairs, i) =>
      if i < |pairs| { assert s'.threads[t].cont[1..] == rest; }
      PaysNothing(s, s', t);
    case Clear(i) => ClearPays(c, s, s', t, i);
    case PopDue => PopPays(c, s, s', t);
    case _ => PaysNothing(s, s', t);
  }

  lemma StepPays(c: Config, s: Sys, s': Sys, t: nat)
    requires WellConfigured(c) && Step(c, s, s', t)
    ensures Pays(s, s', t)
  {
    hide ActStep, Pays;
    if s.threads[t].cont[0].Do? {
      ActPays(c, s, s', t, s.threads[t].cont[0].a);
    } else {
      PaysNothing(s, s', t);
    }
  }

  // ------------------------------------------------------- every interleaving

  function Cmds(atoms: seq<Atom>): (r: seq<Cmd>)
    ensures |r| == |atoms|
  {
    seq(|atoms|, i requires 0 <= i < |atoms| => atoms[i].cmd)
  }

  /** The commands that were added to the history. */
  function Added(s: Sys, s': Sys): seq<Cmd> {
    if |s'.hist| <= |s.hist| then [] else Cmds(s'.hist[|s.hist|..])
  }

  /** The commands that the steps of thread t have added between i and j: those that
      came with a change to that thread. */
  function Contribution(ss: seq<Sys>, t: nat, i: nat, j: nat): seq<Cmd>
    requires i <= j < |ss| && forall k :: i <= k <= j ==> t < |ss[k].threads|
    decreases j
  {
    if i == j then []
    else
      Contribution(ss, t, i, j - 1)
        + if ss[j].threads[t] == ss[j - 1].threads[t] then [] else Added(ss[j - 1], ss[j])
  }

  /** Thread t takes up operations at i, and up to j has not taken up others. */
  ghost predicate WorksOn(c: Config, ss: seq<Sys>, t: nat, i: nat, j: nat, ops: seq<Op>, logged: Option<seq<Cmd>>) {
    Run(c, ss) && i < j < |ss| && Start(c, ss[i], ss[i + 1], t, ops, logged) &&
    (forall k :: 0 <= k < |ops| ==> Proper(ops[k])) &&
    (forall k :: i < k <= j ==> t < |ss[k].threads|) && forall k :: i < k < j ==> ss[k].threads[t].cont != []
  }

  lemma PaysAdded(s: Sys, s': Sys, t: nat)
    requires Pays(s, s', t)
    ensures Added(s, s') + Owed(s'.threads[t].cont) == Owed(s.threads[t].cont)
    ensures s'.threads[t] == s.threads[t] ==> Added(s, s') == []
  {
    hide Owed;
    if s'.hist == s.hist {
      assert Added(s, s') == [];
    } else {
      var cmd :| s'.hist == s.hist + [Atom(cmd, Span(s.now, s'.now))] &&
                 Owed(s.threads[t].cont) == [cmd] + Owed(s'.threads[t].cont);
      assert Added(s, s') == [cmd];
    }
  }

  lemma StartOwes(c: Config, s: Sys, s': Sys, t: nat, ops: seq<Op>, logged: Option<seq<Cmd>>)
    requires Start(c, s, s', t, ops, logged) && forall k :: 0 <= k < |ops| ==> Proper(ops[k])
    ensures Owed(s'.threads[t].cont) == AllCommands(ops)
  {
    CodesOwe(c, ops);
    if logged.Some? { LoggedOwes(c, ops, logged.value); }
  }

  /** One step of the system, seen from a thread that is at work. */
  lemma NextPays(c: Config, s: Sys, s': Sys, t: nat)
    requires WellConfigured(c) && Inv(c, s) && Next(c, s, s') && Unfinished(s, t)
    ensures |s'.threads| == |s.threads|
    ensures s'.threads[t] == s.threads[t] || Added(s, s') + Owed(s'.threads[t].cont) == Owed(s.threads[t].cont)
  {
    hide Inv, Step, Owed, Added, Pays;
    if TimePasses(s, s') {
    } else if u: nat :| Step(c, s, s', u) {
      InvSound(c, s);
      StepSound(c, s, s', u);
      if u == t {
        StepPays(c, s, s', t);
        PaysAdded(s, s', t);
      }
    } else {
      var u, ops, logged :| Start(c, s, s', u, ops, logged);
      assert u != t;
    }
  }

  lemma InvSound(c: Config, s: Sys)
    requires Inv(c, s)
    ensures Sound(c, s)
  {
  }

  /** At every moment of every interleaving, what the thread has contributed since it
      started, and what its code still owes, are together the commands of its
      operations. */
  lemma {:induction false} WorkInProgress(c: Config, ss: seq<Sys>, t: nat, i: nat, j: nat, ops: seq<Op>,
                                          logged: Option<seq<Cmd>>)
    requires WellConfigured(c) && WorksOn(c, ss, t, i, j, ops, logged)
    ensures Contribution(ss, t, i + 1, j) + Owed(ss[j].threads[t].cont) == AllCommands(ops)
    decreases j
  {
    hide Inv, Next, Start, Owed, Added, Proper, AllCommands;
    if j == i + 1 {
      StartOwes(c, ss[i], ss[i + 1], t, ops, logged);
    } else {
      WorkInProgress(c, ss, t, i, j - 1, ops, logged);
      RunInv(c, ss, j - 1);
      assert Next(c, ss[j - 1], ss[j - 1 + 1]);
      NextPays(c, ss[j - 1], ss[j], t);
      var before := Contribution(ss, t, i + 1, j - 1);
      if ss[j].threads[t] == ss[j - 1].threads[t] {
        assert before + [] == before;
      } else {
        assert before + (Added(ss[j - 1], ss[j]) + Owed(ss[j].threads[t].cont))
            == (before + Added(ss[j - 1], ss[j])) + Owed(ss[j].threads[t].cont);
      }
    }
  }

  /** In every interleaving, a thread that has become idle again has contributed
      exactly the commands of its operations, in order. */
  lemma OperationsTakePlace(c: Config, ss: seq<Sys>, t: nat, i: nat, j: nat, ops: seq<Op>, logged: Option<seq<Cmd>>)
    requires WellConfigured(c) && WorksOn(c, ss, t, i, j, ops, logged) && ss[j].threads[t].cont == []
    ensures Contribution(ss, t, i + 1, j) == AllCommands(ops)
  {
    hide Run, Start, Contribution;
    WorkInProgress(c, ss, t, i, j, ops, logged);
  }
}
