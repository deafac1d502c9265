/** The store under concurrency, as a step relation for any number of threads.
    A thread is the code it still has to run and the locks it holds; code is
    made of lock operations and of actions on the shared state. */
module Concurrent {
  import opened Basics
  import opened TimedMap
  import opened ExpHeap
  import opened Command
  import P = Persist

  /** The assignment of keys to n shards, and the value size limit. */
  datatype Config = Config(slot: Bytes -> nat, n: nat, maxLen: int)

  ghost predicate WellConfigured(c: Config) {
    c.n > 0 && forall k :: c.slot(k) < c.n
  }

  // ------------------------------------------------------------------- code

  datatype Lock = WriteMu | ShardMu(i: nat) | ExpMu | LogMu

  /** The global lock order. */
  function Rank(l: Lock, n: nat): nat {
    match l
    case WriteMu => 0
    case ShardMu(i) => 1 + i
    case ExpMu => n + 1
    case LogMu => n + 2
  }

  datatype Action =
    | One(cmd: Cmd)                        // an operation on a single key
    | Drop(key: Bytes)                     // one key of a DEL
    | Look(key: Bytes)                     // one key of an EXISTS, under the shared lock
    | Probe(pairs: seq<Pair>, i: nat)      // SetNXMulti: look at pair i
    | Write(pairs: seq<Pair>, i: nat)      // SetNXMulti: write pair i
    | Clear(i: nat)                        // Flush: empty shard i
    | ResetHeap                            // Flush: forget all deadlines
    | Push(e: ExpEntry)                    // pushExpiry
    | PopDue                               // sweep: take the due entries
    | PurgeIf(e: ExpEntry)                 // sweep: purge one of them
    | LogRecord(c: Cmd)                    // AOF.Append

  datatype Instr =
    | Acquire(l: Lock) | Release(l: Lock)
    | AcquireShared(l: Lock) | ReleaseShared(l: Lock)
    | Do(a: Action)

  datatype Thread = Thread(held: set<Lock>, reading: set<Lock>, cont: seq<Instr>)

  function Shard(c: Config, k: Bytes): Lock { ShardMu(c.slot(k)) }

  /** The locks that an action needs for itself. */
  ghost predicate Protected(c: Config, a: Action, held: set<Lock>) {
    match a
    case One(cmd) => P.OneKey(cmd) && WellFormed(cmd) && Shard(c, cmd.key) in held
    case Drop(key) => Shard(c, key) in held
    case Probe(pairs, _) => forall i :: 0 <= i < |pairs| ==> Shard(c, pairs[i].0) in held
    case Write(pairs, _) => forall i :: 0 <= i < |pairs| ==> Shard(c, pairs[i].0) in held
    case Clear(_) => forall i :: 0 <= i < c.n ==> ShardMu(i) in held
    case PurgeIf(e) => Shard(c, e.key) in held
    case LogRecord(_) => LogMu in held
    case Look(_) => true
    case _ => ExpMu in held
  }

  ghost predicate Below(held: set<Lock>, l: Lock, n: nat) {
    forall h :: h in held ==> Rank(h, n) < Rank(l, n)
  }

  ghost predicate LockExists(c: Config, l: Lock) {
    l.ShardMu? ==> l.i < c.n
  }

  /** Code that, entered with the given locks, takes locks in ascending order,
      acts under the right ones, and ends holding `end` and nothing shared. */
  ghost predicate Runs(c: Config, held: set<Lock>, reading: set<Lock>, cont: seq<Instr>, end: set<Lock>)
    decreases |cont|
  {
    if cont == [] then held == end && reading == {}
    else
      match cont[0]
      case Acquire(l) =>
        LockExists(c, l) && Below(held + reading, l, c.n) && Runs(c, held + {l}, reading, cont[1..], end)
      case AcquireShared(l) =>
        LockExists(c, l) && Below(held + reading, l, c.n) && Runs(c, held, reading + {l}, cont[1..], end)
      case Release(l) => l in held && Runs(c, held - {l}, reading, cont[1..], end)
      case ReleaseShared(l) => l in reading && Runs(c, held, reading - {l}, cont[1..], end)
      case Do(a) =>
        Protected(c, a, held) && (a.One? ==> Below(held + reading, ExpMu, c.n)) &&
        (a.Look? ==> Shard(c, a.key) in reading) && Runs(c, held, reading, cont[1..], end)
  }

  lemma {:induction false} RunsAppend(c: Config, held: set<Lock>, reading: set<Lock>,
                                      a: seq<Instr>, mid: set<Lock>, b: seq<Instr>, end: set<Lock>)
    requires Runs(c, held, reading, a, mid) && Runs(c, mid, {}, b, end)
    ensures Runs(c, held, reading, a + b, end)
    decreases |a|
  {
    if a == [] {
      assert a + b == b;
    } else {
      assert (a + b)[1..] == a[1..] + b;
      match a[0]
      case Acquire(l) => RunsAppend(c, held + {l}, reading, a[1..], mid, b, end);
      case AcquireShared(l) => RunsAppend(c, held, reading + {l}, a[1..], mid, b, end);
      case Release(l) => RunsAppend(c, held - {l}, reading, a[1..], mid, b, end);
      case ReleaseShared(l) => RunsAppend(c, held, reading - {l}, a[1..], mid, b, end);
      case Do(_) => RunsAppend(c, held, reading, a[1..], mid, b, end);
    }
  }

  // --------------------------------------------------------------- programs

  function Section(l: Lock, a: Action): seq<Instr> { [Acquire(l), Do(a), Release(l)] }

  function Sections(c: Config, acts: seq<(Bytes, Action)>): seq<Instr> {
    if acts == [] then [] else Section(Shard(c, acts[0].0), acts[0].1) + Sections(c, acts[1..])
  }

  function Drops(keys: seq<Bytes>): seq<(Bytes, Action)> {
    seq(|keys|, i requires 0 <= i < |keys| => (keys[i], Drop(keys[i])))
  }

  function Purges(due: seq<ExpEntry>): seq<(Bytes, Action)> {
    seq(|due|, i requires 0 <= i < |due| => (due[i].key, PurgeIf(due[i])))
  }

  function Reads(c: Config, keys: seq<Bytes>): seq<Instr> {
    if keys == [] then []
    else
      var l := Shard(c, keys[0]);
      [AcquireShared(l), Do(Look(keys[0])), ReleaseShared(l)] + Reads(c, keys[1..])
  }

  /** The shards below n whose index is wanted, ascending: what sorting the
      collected indices gives. */
  function LockAll(wanted: set<nat>, from: nat, n: nat): seq<Instr>
    requires from <= n
    decreases n - from
  {
    if from == n then []
    else (if from in wanted then [Acquire(ShardMu(from))] else []) + LockAll(wanted, from + 1, n)
  }

  function UnlockAll(wanted: set<nat>, upto: nat): seq<Instr> {
    if upto == 0 then []
    else (if upto - 1 in wanted then [Release(ShardMu(upto - 1))] else []) + UnlockAll(wanted, upto - 1)
  }

  function Slots(c: Config, pairs: seq<Pair>): set<nat> {
    set i | 0 <= i < |pairs| :: c.slot(pairs[i].0)
  }

  function AllSlots(n: nat): (r: set<nat>)
    ensures forall i: nat :: i in r <==> i < n
  {
    if n == 0 then {} else AllSlots(n - 1) + {n - 1}
  }

  function Logging(recs: seq<Cmd>): seq<Instr> {
    if recs == [] then [] else Section(LogMu, LogRecord(recs[0])) + Logging(recs[1..])
  }

  datatype Op =
    | OpKey(cmd: Cmd)
    | OpDel(keys: seq<Bytes>)
    | OpRead(keys: seq<Bytes>)
    | OpBatch(pairs: seq<Pair>)
    | OpFlush
    | OpSweep

  /** The code of a store operation. */
  function Code(c: Config, op: Op): seq<Instr> {
    match op
    case OpKey(cmd) => if P.OneKey(cmd) && WellFormed(cmd) then Section(Shard(c, cmd.key), One(cmd)) else []
    case OpDel(keys) => Sections(c, Drops(keys))
    case OpRead(keys) => Reads(c, keys)
    case OpBatch(pairs) =>
      if pairs == [] then []
      else LockAll(Slots(c, pairs), 0, c.n) + [Do(Probe(pairs, 0))] + UnlockAll(Slots(c, pairs), c.n)
    case OpFlush =>
      LockAll(AllSlots(c.n), 0, c.n) + [Do(Clear(0))] + UnlockAll(AllSlots(c.n), c.n) + Section(ExpMu, ResetHeap)
    case OpSweep => Section(ExpMu, PopDue)
  }

  /** A command may call the store several times, as MSET does. */
  function Codes(c: Config, ops: seq<Op>): seq<Instr> {
    if ops == [] then [] else Code(c, ops[0]) + Codes(c, ops[1..])
  }

  /** The code of a write command while a log is attached. */
  function LoggedCode(c: Config, ops: seq<Op>, recs: seq<Cmd>): seq<Instr> {
    [Acquire(WriteMu)] + Codes(c, ops) + Logging(recs) + [Release(WriteMu)]
  }

  // ------------------------------------------------- the programs are ordered

  /** Locks that may be held around a store operation. */
  ghost predicate Outer(base: set<Lock>) { base <= {WriteMu} }

  lemma SectionRuns(c: Config, base: set<Lock>, l: Lock, a: Action)
    requires Outer(base) && !l.WriteMu? && LockExists(c, l) && Protected(c, a, base + {l}) && !a.Look?
    requires a.One? ==> l.ShardMu?
    ensures Runs(c, base, {}, Section(l, a), base)
  {
    var code := Section(l, a);
    assert code[1..] == [Do(a), Release(l)];
    assert code[1..][1..] == [Release(l)];
    assert code[1..][1..][1..] == [];
    assert base + {l} - {l} == base;
    assert Runs(c, base, {}, [], base);
    assert Runs(c, base + {l}, {}, [Release(l)], base);
    assert Runs(c, base + {l}, {}, [Do(a), Release(l)], base);
  }

  lemma {:induction false} SectionsRun(c: Config, base: set<Lock>, acts: seq<(Bytes, Action)>)
    requires Outer(base) && WellConfigured(c)
    requires forall i :: 0 <= i < |acts| ==> (acts[i].1.Drop? && acts[i].1.key == acts[i].0) ||
                                             (acts[i].1.PurgeIf? && acts[i].1.e.key == acts[i].0)
    ensures Runs(c, base, {}, Sections(c, acts), base)
  {
    if acts != [] {
      SectionRuns(c, base, Shard(c, acts[0].0), acts[0].1);
      SectionsRun(c, base, acts[1..]);
      RunsAppend(c, base, {}, Section(Shard(c, acts[0].0), acts[0].1), base, Sections(c, acts[1..]), base);
    }
  }

  lemma {:induction false} LoggingRuns(c: Config, base: set<Lock>, recs: seq<Cmd>)
    requires Outer(base)
    ensures Runs(c, base, {}, Logging(recs), base)
  {
    if recs != [] {
      SectionRuns(c, base, LogMu, LogRecord(recs[0]));
      LoggingRuns(c, base, recs[1..]);
      RunsAppend(c, base, {}, Section(LogMu, LogRecord(recs[0])), base, Logging(recs[1..]), base);
    }
  }

  lemma {:induction false} ReadsRun(c: Config, base: set<Lock>, keys: seq<Bytes>)
    requires Outer(base) && WellConfigured(c)
    ensures Runs(c, base, {}, Reads(c, keys), base)
  {
    if keys != [] {
      var l := Shard(c, keys[0]);
      var one := [AcquireShared(l), Do(Look(keys[0])), ReleaseShared(l)];
      assert one[1..] == [Do(Look(keys[0])), ReleaseShared(l)];
      assert one[1..][1..] == [ReleaseShared(l)] && one[1..][1..][1..] == [];
      assert {l} - {l} == {};
      assert Runs(c, base, {l} - {l}, [], base);
      assert Runs(c, base, {} + {l}, [ReleaseShared(l)], base);
      assert Runs(c, base, {} + {l}, one[1..], base);
      assert Runs(c, base, {}, one, base);
      ReadsRun(c, base, keys[1..]);
      RunsAppend(c, base, {}, one, base, Reads(c, keys[1..]), base);
    }
  }

  /** The shard locks of the wanted indices below `upto`. */
  ghost function Taken(base: set<Lock>, wanted: set<nat>, upto: nat): set<Lock> {
    base + set i | i in wanted && i < upto :: ShardMu(i)
  }

  lemma {:induction false} LockAllRuns(c: Config, base: set<Lock>, wanted: set<nat>, from: nat,
                                       b: seq<Instr>, end: set<Lock>)
    requires Outer(base) && from <= c.n
    requires Runs(c, Taken(base, wanted, c.n), {}, b, end)
    ensures Runs(c, Taken(base, wanted, from), {}, LockAll(wanted, from, c.n) + b, end)
    decreases c.n - from
  {
    if from == c.n {
      assert LockAll(wanted, from, c.n) + b == b;
    } else {
      LockAllRuns(c, base, wanted, from + 1, b, end);
      var rest := LockAll(wanted, from + 1, c.n) + b;
      if from in wanted {
        assert Taken(base, wanted, from + 1) == Taken(base, wanted, from) + {ShardMu(from)};
        assert LockAll(wanted, from, c.n) + b == [Acquire(ShardMu(from))] + rest;
        assert ([Acquire(ShardMu(from))] + rest)[1..] == rest;
      } else {
        assert Taken(base, wanted, from + 1) == Taken(base, wanted, from);
        assert LockAll(wanted, from, c.n) + b == rest;
      }
    }
  }

  lemma {:induction false} UnlockAllRuns(c: Config, base: set<Lock>, wanted: set<nat>, upto: nat)
    requires Outer(base)
    ensures Runs(c, Taken(base, wanted, upto), {}, UnlockAll(wanted, upto), base)
  {
    if upto == 0 {
      assert Taken(base, wanted, 0) == base;
    } else {
      var i := upto - 1;
      UnlockAllRuns(c, base, wanted, i);
      if i in wanted {
        assert Taken(base, wanted, upto) - {ShardMu(i)} == Taken(base, wanted, i);
        assert ([Release(ShardMu(i))] + UnlockAll(wanted, i))[1..] == UnlockAll(wanted, i);
      } else {
        assert Taken(base, wanted, upto) == Taken(base, wanted, i);
        assert [] + UnlockAll(wanted, i) == UnlockAll(wanted, i);
      }
    }
  }

  lemma MultiRuns(c: Config, base: set<Lock>, wanted: set<nat>, a: Action)
    requires Outer(base) && !a.One? && !a.Look? && Protected(c, a, Taken(base, wanted, c.n))
    ensures Runs(c, base, {}, LockAll(wanted, 0, c.n) + [Do(a)] + UnlockAll(wanted, c.n), base)
  {
    var rest := UnlockAll(wanted, c.n);
    UnlockAllRuns(c, base, wanted, c.n);
    assert ([Do(a)] + rest)[1..] == rest;
    LockAllRuns(c, base, wanted, 0, [Do(a)] + rest, base);
    assert Taken(base, wanted, 0) == base;
    assert LockAll(wanted, 0, c.n) + [Do(a)] + rest == LockAll(wanted, 0, c.n) + ([Do(a)] + rest);
  }

  /** Every store operation keeps to the lock order, alone or under writeMu. */
  lemma CodeRuns(c: Config, base: set<Lock>, op: Op)
    requires Outer(base) && WellConfigured(c)
    ensures Runs(c, base, {}, Code(c, op), base)
  {
    match op
    case OpKey(cmd) => if P.OneKey(cmd) && WellFormed(cmd) { SectionRuns(c, base, Shard(c, cmd.key), One(cmd)); }
    case OpDel(keys) => SectionsRun(c, base, Drops(keys));
    case OpRead(keys) => ReadsRun(c, base, keys);
    case OpBatch(pairs) => if pairs != [] { MultiRuns(c, base, Slots(c, pairs), Probe(pairs, 0)); }
    case OpFlush =>
      MultiRuns(c, base, AllSlots(c.n), Clear(0));
      SectionRuns(c, base, ExpMu, ResetHeap);
      RunsAppend(c, base, {}, LockAll(AllSlots(c.n), 0, c.n) + [Do(Clear(0))] + UnlockAll(AllSlots(c.n), c.n),
                 base, Section(ExpMu, ResetHeap), base);
    case OpSweep => SectionRuns(c, base, ExpMu, PopDue);
  }

  lemma {:induction false} CodesRun(c: Config, base: set<Lock>, ops: seq<Op>)
    requires Outer(base) && WellConfigured(c)
    ensures Runs(c, base, {}, Codes(c, ops), base)
  {
    hide Code;
    if ops != [] {
      CodeRuns(c, base, ops[0]);
      CodesRun(c, base, ops[1..]);
      RunsAppend(c, base, {}, Code(c, ops[0]), base, Codes(c, ops[1..]), base);
    }
  }

  lemma LoggedCodeRuns(c: Config, ops: seq<Op>, recs: seq<Cmd>)
    requires WellConfigured(c)
    ensures Runs(c, {}, {}, LoggedCode(c, ops, recs), {})
  {
    var w: set<Lock> := {WriteMu};
    CodesRun(c, w, ops);
    LoggingRuns(c, w, recs);
    RunsAppend(c, w, {}, Codes(c, ops), w, Logging(recs), w);
    assert [Release(WriteMu)][1..] == [];
    assert w - {WriteMu} == {};
    assert Runs(c, {}, {}, [], {});
    assert Runs(c, w, {}, [Release(WriteMu)], {});
    var body := Codes(c, ops) + Logging(recs) + [Release(WriteMu)];
    RunsAppend(c, w, {}, Codes(c, ops) + Logging(recs), w, [Release(WriteMu)], {});
    assert LoggedCode(c, ops, recs) == [Acquire(WriteMu)] + body;
    assert ([Acquire(WriteMu)] + body)[1..] == body;
    assert {} + w == w;
  }
}
