/** Active expiry under concurrency: can every deadline in the store be found by
    the sweeper? Each is in the heap, on its way there, or on its way to be
    purged, in every run in which no deadline reaches the heap between the end of
    a flush and the reset of the heap that belongs to it. A run without that
    condition loses one. */
module Coverage {
  import opened Basics
  import opened TimedMap
  import opened ExpHeap
  import opened Command
  import opened Concurrent
  import opened History
  import opened Interleaving
  import P = Persist

  // ---------------------------------------------------------------- coverage

  /** The instruction will push the deadline, or purge its key. */
  predicate Tends(i: Instr, e: ExpEntry) {
    i == Do(Push(e)) || i == Do(PurgeIf(e))
  }

  ghost predicate InCode(code: seq<Instr>, e: ExpEntry) {
    exists j :: 0 <= j < |code| && Tends(code[j], e)
  }

  ghost predicate Underway(s: Sys, e: ExpEntry) {
    exists t :: 0 <= t < |s.threads| && InCode(s.threads[t].cont, e)
  }

  predicate HasDeadline(m: Flat, k: Bytes) {
    k in m && m[k].expireAt != 0
  }

  function DeadlineOf(m: Flat, k: Bytes): ExpEntry
    requires k in m
  {
    ExpEntry(m[k].expireAt, k)
  }

  ghost predicate AllFound(s: Sys) {
    forall k :: HasDeadline(s.flat, k) ==> DeadlineOf(s.flat, k) in s.heap || Underway(s, DeadlineOf(s.flat, k))
  }

  ghost predicate AllUnderway(s: Sys) {
    forall k :: HasDeadline(s.flat, k) ==> Underway(s, DeadlineOf(s.flat, k))
  }

  /** The code has cleared the shards and has yet to reset the heap. */
  predicate Resetting(code: seq<Instr>) {
    if code == [] then false
    else if code[0].Do? && code[0].a.ResetHeap? then true
    else if code[0].Do? && code[0].a.Clear? then false
    else Resetting(code[1..])
  }

  ghost predicate SomeResetting(s: Sys) {
    exists t :: 0 <= t < |s.threads| && Resetting(s.threads[t].cont)
  }

  /** A thread about to clear shard i has cleared those below. */
  ghost predicate Emptied(c: Config, s: Sys, th: Thread) {
    th.cont != [] && th.cont[0].Do? && th.cont[0].a.Clear? ==>
      forall k :: k in s.flat ==> th.cont[0].a.i <= c.slot(k)
  }

  ghost predicate AllEmptied(c: Config, s: Sys) {
    forall t :: 0 <= t < |s.threads| ==> Emptied(c, s, s.threads[t])
  }

  ghost predicate Cover(c: Config, s: Sys) {
    AllFound(s) && (SomeResetting(s) ==> AllUnderway(s)) && AllEmptied(c, s)
  }

  /** The step pushes a deadline while some thread has yet to reset the heap. */
  ghost predicate Disturbed(c: Config, s: Sys, s': Sys) {
    SomeResetting(s) && exists t :: Pushes(s, t) && Step(c, s, s', t)
  }

  ghost predicate Pushes(s: Sys, t: nat) {
    Unfinished(s, t) && s.threads[t].cont[0].Do? && s.threads[t].cont[0].a.Push?
  }

  ghost predicate Undisturbed(c: Config, ss: seq<Sys>) {
    forall i :: 0 <= i < |ss| - 1 ==> !Disturbed(c, ss[i], ss[i + 1])
  }

  // -------------------------------------------------------------------- code

  /** Code that neither clears nor resets. */
  predicate Neutral(code: seq<Instr>) {
    forall j :: 0 <= j < |code| && code[j].Do? ==> !code[j].a.ResetHeap? && !code[j].a.Clear?
  }

  lemma {:induction false} NeutralPrefix(a: seq<Instr>, b: seq<Instr>)
    requires Neutral(a)
    ensures Resetting(a + b) == Resetting(b)
  {
    if a == [] {
      assert a + b == b;
    } else {
      assert (a + b)[1..] == a[1..] + b;
      NeutralPrefix(a[1..], b);
    }
  }

  lemma {:induction false} NeutralSuffix(a: seq<Instr>, b: seq<Instr>)
    requires Neutral(b)
    ensures Resetting(a + b) == Resetting(a)
  {
    if a == [] {
      assert a + b == b == b + [];
      NeutralPrefix(b, []);
    } else {
      assert (a + b)[1..] == a[1..] + b;
      NeutralSuffix(a[1..], b);
    }
  }

  lemma {:induction false} NeutralSections(c: Config, acts: seq<(Bytes, Action)>)
    requires forall i :: 0 <= i < |acts| ==> !acts[i].1.ResetHeap? && !acts[i].1.Clear?
    ensures Neutral(Sections(c, acts))
  {
    if acts != [] { NeutralSections(c, acts[1..]); }
  }

  lemma {:induction false} NeutralReads(c: Config, keys: seq<Bytes>)
    ensures Neutral(Reads(c, keys))
  {
    if keys != [] { NeutralReads(c, keys[1..]); }
  }

  lemma {:induction false} NeutralLogging(recs: seq<Cmd>)
    ensures Neutral(Logging(recs))
  {
    if recs != [] { NeutralLogging(recs[1..]); }
  }

  /** Fresh code is not resetting, whatever follows it that is not. */
  lemma CodeNotResetting(c: Config, op: Op, rest: seq<Instr>)
    requires !Resetting(rest)
    ensures !Resetting(Code(c, op) + rest)
  {
    match op
    case OpDel(keys) =>
      NeutralSections(c, Drops(keys));
      NeutralPrefix(Code(c, op), rest);
    case OpRead(keys) =>
      NeutralReads(c, keys);
      NeutralPrefix(Code(c, op), rest);
    case OpBatch(pairs) =>
      LocksUntouched(Slots(c, pairs), 0, c.n);
      UnlocksUntouched(Slots(c, pairs), c.n);
      NeutralPrefix(Code(c, op), rest);
    case OpFlush => FlushNotResetting(c, rest);
    case _ => NeutralPrefix(Code(c, op), rest);
  }

  lemma FlushNotResetting(c: Config, rest: seq<Instr>)
    ensures !Resetting(Code(c, OpFlush) + rest)
  {
    var locks := LockAll(AllSlots(c.n), 0, c.n);
    var tail := UnlockAll(AllSlots(c.n), c.n) + Section(ExpMu, ResetHeap) + rest;
    LocksUntouched(AllSlots(c.n), 0, c.n);
    hide LockAll, UnlockAll;
    assert Code(c, OpFlush) + rest == locks + ([Do(Clear(0))] + tail);
    NeutralPrefix(locks, [Do(Clear(0))] + tail);
    assert ([Do(Clear(0))] + tail)[0] == Do(Clear(0));
  }

  lemma {:induction false} CodesNotResetting(c: Config, ops: seq<Op>, rest: seq<Instr>)
    requires !Resetting(rest)
    ensures !Resetting(Codes(c, ops) + rest)
  {
    hide Code;
    if ops == [] {
      assert Codes(c, ops) + rest == rest;
    } else {
      CodesNotResetting(c, ops[1..], rest);
      CodeNotResetting(c, ops[0], Codes(c, ops[1..]) + rest);
      assert Codes(c, ops) + rest == Code(c, ops[0]) + (Codes(c, ops[1..]) + rest);
    }
  }

  lemma LoggedNotResetting(c: Config, ops: seq<Op>, recs: seq<Cmd>)
    ensures !Resetting(LoggedCode(c, ops, recs))
  {
    hide Codes, Logging;
    var tail := Logging(recs) + [Release(WriteMu)];
    NeutralLogging(recs);
    NeutralPrefix(tail, []);
    assert tail + [] == tail;
    CodesNotResetting(c, ops, tail);
    var body := Codes(c, ops) + tail;
    assert LoggedCode(c, ops, recs) == [Acquire(WriteMu)] + body;
    assert ([Acquire(WriteMu)] + body)[1..] == body;
  }

  // ------------------------------------------------------------- single steps

  /** What stands behind the head stays in the code. */
  lemma KeptInCode(c: Config, s: Sys, a: Action, cont: seq<Instr>, code: seq<Instr>, e: ExpEntry)
    requires cont != [] && NewCode(c, s, a, cont[1..], code) && InCode(cont, e) && !Tends(cont[0], e)
    ensures InCode(code, e)
  {
    hide Sections, Purges, Follows, Section;
    var rest := cont[1..];
    var j :| 0 <= j < |cont| && Tends(cont[j], e);
    assert rest[j - 1] == cont[j];
    if code == rest {
      assert Tends(code[j - 1], e);
    } else if b :| Follows(a, b) && code == [Do(b)] + rest {
      assert code[j] == rest[j - 1];
    } else if a.One? {
      var x: ExpEntry :| x.deadline != 0 && code == Section(ExpMu, Push(x)) + rest;
      assert code[|Section(ExpMu, Push(x))| + j - 1] == rest[j - 1];
    } else {
      var due :| DueEntries(s, due) && code == rest + Sections(c, Purges(due));
      assert code[j - 1] == rest[j - 1];
    }
  }

  /** An action leaves only deadlines that were there before or that it is about to
      push. */
  lemma ExecEntry(m: Flat, cmd: Cmd, tk: Ticks, maxLen: int, k: Bytes)
    requires P.OneKey(cmd) && HasDeadline(Exec(m, cmd, tk, maxLen).m, k)
    ensures var r := Exec(m, cmd, tk, maxLen);
            (k in m && m[k].expireAt == r.m[k].expireAt) ||
            (k == cmd.key && (cmd.Set? || cmd.ExpireIn? || cmd.ExpireAt? || cmd.PExpireAt?) && r.log != [])
  {
    hide Wrap64, ParseInt, FormatInt, UnixMilli;
  }

  lemma KeyEntry(c: Config, s: Sys, s': Sys, t: nat, cmd: Cmd, k: Bytes)
    requires Unfinished(s, t) && P.OneKey(cmd) && KeyStep(c, s, s', t, cmd) && HasDeadline(s'.flat, k)
    ensures (k in s.flat && s.flat[k].expireAt == s'.flat[k].expireAt) ||
            InCode(s'.threads[t].cont, DeadlineOf(s'.flat, k))
  {
    hide Exec;
    var tk := Span(s.now, s'.now);
    ExecEntry(s.flat, cmd, tk, c.maxLen, k);
    if !(k in s.flat && s.flat[k].expireAt == s'.flat[k].expireAt) {
      var e := DeadlineOf(s'.flat, k);
      assert PushCode(s.flat, cmd, tk, c.maxLen) == Section(ExpMu, Push(e));
      assert s'.threads[t].cont[1] == Do(Push(e));
    }
  }

  lemma ActEntry(c: Config, s: Sys, s': Sys, t: nat, a: Action, k: Bytes)
    requires Unfinished(s, t) && ActStep(c, s, s', t, a) && HasDeadline(s'.flat, k)
    ensures |s'.threads| == |s.threads|
    ensures (k in s.flat && s.flat[k].expireAt == s'.flat[k].expireAt) ||
            InCode(s'.threads[t].cont, DeadlineOf(s'.flat, k))
  {
    hide KeyStep, PopStep, InCode, Exec;
    ActCode(c, s, s', t, a);
    match a
    case One(cmd) => KeyEntry(c, s, s', t, cmd, k);
    case PopDue => PopCode(c, s, s', t);
    case _ =>
  }

  lemma {:induction false} SectionsHave(c: Config, due: seq<ExpEntry>, e: ExpEntry)
    requires e in due
    ensures InCode(Sections(c, Purges(due)), e)
  {
    var one := Section(Shard(c, due[0].key), PurgeIf(due[0]));
    var rest := Sections(c, Purges(due[1..]));
    assert Purges(due)[1..] == Purges(due[1..]);
    assert Sections(c, Purges(due)) == one + rest;
    if e == due[0] {
      assert Tends((one + rest)[1], e);
    } else {
      SectionsHave(c, due[1..], e);
      var j :| 0 <= j < |rest| && Tends(rest[j], e);
      assert (one + rest)[|one| + j] == rest[j];
    }
  }

  lemma PopFinds(c: Config, s: Sys, s': Sys, t: nat, e: ExpEntry)
    requires Unfinished(s, t) && PopStep(c, s, s', t) && e in s.heap
    ensures |s'.threads| == |s.threads| && (e in s'.heap || InCode(s'.threads[t].cont, e))
  {
    hide Sections, Purges;
    var due :| PopOf(c, s, s', t, due);
    if e !in s'.heap {
      assert e in multiset(due);
      SectionsHave(c, due, e);
      var rest, visits := s.threads[t].cont[1..], Sections(c, Purges(due));
      var j :| 0 <= j < |visits| && Tends(visits[j], e);
      assert (rest + visits)[|rest| + j] == visits[j];
    }
  }

  /** What the heap held it holds still, or the sweeper has it, unless the heap was
      reset. */
  lemma HeapKept(c: Config, s: Sys, s': Sys, t: nat, a: Action, e: ExpEntry)
    requires Unfinished(s, t) && ActStep(c, s, s', t, a) && !a.ResetHeap? && e in s.heap
    ensures |s'.threads| == |s.threads| && (e in s'.heap || InCode(s'.threads[t].cont, e))
  {
    hide KeyStep, PopStep, ProbeStep, InCode, Exec;
    ActCode(c, s, s', t, a);
    match a
    case One(cmd) => KeyCode(c, s, s', t, cmd);
    case Probe(pairs, i) => ProbeCode(c, s, s', t, pairs, i);
    case PopDue => PopFinds(c, s, s', t, e);
    case _ =>
  }

  /** A deadline that is under way and still stands after the step is under way
      still, or has just reached the heap. */
  lemma UnderwayKept(c: Config, s: Sys, s': Sys, t: nat, a: Action, k: Bytes)
    requires Unfinished(s, t) && s.threads[t].cont[0] == Do(a) && ActStep(c, s, s', t, a)
    requires HasDeadline(s'.flat, k) && Underway(s, DeadlineOf(s'.flat, k))
    ensures Underway(s', DeadlineOf(s'.flat, k)) || (a.Push? && DeadlineOf(s'.flat, k) in s'.heap)
  {
    hide NewCode, InCode, ActStep;
    var e := DeadlineOf(s'.flat, k);
    ActCode(c, s, s', t, a);
    var u :| 0 <= u < |s.threads| && InCode(s.threads[u].cont, e);
    if u != t {
      assert s'.threads[u] == s.threads[u];
    } else if Tends(Do(a), e) {
      HeadDone(c, s, s', t, a, k);
    } else {
      KeptInCode(c, s, a, s.threads[t].cont, s'.threads[t].cont, e);
    }
  }

  lemma HeadDone(c: Config, s: Sys, s': Sys, t: nat, a: Action, k: Bytes)
    requires Unfinished(s, t) && ActStep(c, s, s', t, a) && HasDeadline(s'.flat, k)
    requires Tends(Do(a), DeadlineOf(s'.flat, k))
    ensures a.Push? && DeadlineOf(s'.flat, k) in s'.heap
  {
  }

  /** Only the end of clearing makes a thread resetting. */
  lemma BecomesResetting(c: Config, s: Sys, a: Action, cont: seq<Instr>, code: seq<Instr>)
    requires cont != [] && cont[0] == Do(a) && NewCode(c, s, a, cont[1..], code) && Resetting(code)
    ensures Resetting(cont) || (a.Clear? && code == cont[1..])
  {
    hide Sections, Purges;
    var rest := cont[1..];
    if code == rest {
    } else if b :| Follows(a, b) && code == [Do(b)] + rest {
      assert code[1..] == rest;
    } else if a.One? {
      var x: ExpEntry :| x.deadline != 0 && code == Section(ExpMu, Push(x)) + rest;
      NeutralPrefix(Section(ExpMu, Push(x)), rest);
    } else {
      var due :| DueEntries(s, due) && code == rest + Sections(c, Purges(due));
      PurgesNeutral(c, due);
      NeutralSuffix(rest, Sections(c, Purges(due)));
    }
  }

  lemma PurgesNeutral(c: Config, due: seq<ExpEntry>)
    ensures Neutral(Sections(c, Purges(due)))
  {
    NeutralSections(c, Purges(due));
  }

  lemma ClearEnds(c: Config, s: Sys, s': Sys, t: nat, i: nat)
    requires Unfinished(s, t) && ClearStep(c, s, s', t, i) && |s'.threads| == |s.threads|
    requires s'.threads[t].cont == s.threads[t].cont[1..]
    ensures i >= c.n && s'.flat == s.flat
  {
  }

  // ----------------------------------------------------- the invariant is kept

  lemma ActFound(c: Config, s: Sys, s': Sys, t: nat, a: Action)
    requires Unfinished(s, t) && s.threads[t].cont[0] == Do(a) && ActStep(c, s, s', t, a)
    requires AllFound(s) && (SomeResetting(s) ==> AllUnderway(s))
    ensures AllFound(s')
  {
    hide ActStep, InCode;
    forall k | HasDeadline(s'.flat, k)
      ensures DeadlineOf(s'.flat, k) in s'.heap || Underway(s', DeadlineOf(s'.flat, k))
    {
      var e := DeadlineOf(s'.flat, k);
      ActEntry(c, s, s', t, a, k);
      ActCode(c, s, s', t, a);
      if !InCode(s'.threads[t].cont, e) {
        assert HasDeadline(s.flat, k) && DeadlineOf(s.flat, k) == e;
        if a.ResetHeap? { assert Resetting(s.threads[t].cont); }
        if Underway(s, e) {
          UnderwayKept(c, s, s', t, a, k);
        } else {
          HeapKept(c, s, s', t, a, e);
        }
      }
    }
  }

  lemma ActUnderway(c: Config, s: Sys, s': Sys, t: nat, a: Action)
    requires Unfinished(s, t) && s.threads[t].cont[0] == Do(a) && ActStep(c, s, s', t, a) && !a.Push?
    requires SomeResetting(s) && AllUnderway(s)
    ensures AllUnderway(s')
  {
    hide ActStep, InCode;
    forall k | HasDeadline(s'.flat, k) ensures Underway(s', DeadlineOf(s'.flat, k)) {
      ActEntry(c, s, s', t, a, k);
      ActCode(c, s, s', t, a);
      if !InCode(s'.threads[t].cont, DeadlineOf(s'.flat, k)) {
        assert HasDeadline(s.flat, k) && DeadlineOf(s.flat, k) == DeadlineOf(s'.flat, k);
        UnderwayKept(c, s, s', t, a, k);
      }
    }
  }

  /** A thread that has just cleared the last shard leaves nothing behind. */
  lemma ActResets(c: Config, s: Sys, s': Sys, t: nat, a: Action)
    requires WellConfigured(c) && Unfinished(s, t) && s.threads[t].cont[0] == Do(a) && ActStep(c, s, s', t, a)
    requires !SomeResetting(s) && SomeResetting(s') && AllEmptied(c, s)
    ensures s'.flat == map[]
  {
    hide ActStep, NewCode, Resetting;
    ActCode(c, s, s', t, a);
    var u :| 0 <= u < |s'.threads| && Resetting(s'.threads[u].cont);
    forall v | 0 <= v < |s.threads| && v != t ensures s'.threads[v] == s.threads[v] {}
    assert u == t;
    BecomesResetting(c, s, a, s.threads[t].cont, s'.threads[t].cont);
    ClearsAll(c, s, s', t, a.i);
    assert Emptied(c, s, s.threads[t]);
    assert forall k :: c.slot(k) < c.n;
    assert forall k :: k !in s.flat;
  }

  lemma ClearsAll(c: Config, s: Sys, s': Sys, t: nat, i: nat)
    requires Unfinished(s, t) && ActStep(c, s, s', t, Clear(i)) && |s'.threads| == |s.threads|
    requires s'.threads[t].cont == s.threads[t].cont[1..]
    ensures i >= c.n && s'.flat == s.flat
  {
    ClearEnds(c, s, s', t, i);
  }

  lemma OwnEmptied(c: Config, s: Sys, s': Sys, t: nat, a: Action)
    requires WellConfigured(c) && Unfinished(s, t) && s.threads[t].cont[0] == Do(a) && ActStep(c, s, s', t, a)
    requires Disciplined(c, s.threads[t]) && Emptied(c, s, s.threads[t])
    ensures |s'.threads| == |s.threads| && Emptied(c, s', s'.threads[t])
  {
    hide Runs, Exec, Fold, KeyStep, ProbeStep, PopStep;
    ActDisciplined(c, s, s', t, a);
    if a.Probe? || a.Write? {
      hide ActStep;
      ActCode(c, s, s', t, a);
      AdvanceEmptied(c, s, s', t, a);
    }
  }

  lemma AdvanceEmptied(c: Config, s: Sys, s': Sys, t: nat, a: Action)
    requires Unfinished(s, t) && |s'.threads| == |s.threads| && (a.Probe? || a.Write?)
    requires NewCode(c, s, a, s.threads[t].cont[1..], s'.threads[t].cont) && Untouched(s.threads[t].cont[1..])
    ensures Emptied(c, s', s'.threads[t])
  {
  }

  lemma OthersEmptied(c: Config, s: Sys, s': Sys, t: nat, a: Action, u: nat)
    requires WellConfigured(c) && Inv(c, s) && Step(c, s, s', t) && s.threads[t].cont[0] == Do(a)
    requires u < |s.threads| && u != t && Emptied(c, s, s.threads[u])
    ensures Emptied(c, s', s.threads[u])
  {
    hide Fold, Deadlines, KeyLinear, KeyRight, ActStep, Runs, Pending, Untouched, Probed;
    var th := s.threads[u];
    if th.cont != [] && th.cont[0].Do? && th.cont[0].a.Clear? {
      ClearerHolds(c, th, th.cont[0].a.i);
      InvRightBefore(c, s, t, a);
      forall k | k in s'.flat ensures th.cont[0].a.i <= c.slot(k) {
        assert Disciplined(c, th);
        assert Shard(c, k) in th.held;
        if Names(a, k) { NamedHeldBy(c, s, t, a, k); }
        ActOutcome(c, s, s', t, a, k);
      }
    }
  }

  lemma ClearerHolds(c: Config, th: Thread, i: nat)
    requires WellConfigured(c) && Disciplined(c, th) && th.cont != [] && th.cont[0] == Do(Clear(i))
    ensures forall k :: Shard(c, k) in th.held
  {
    forall k ensures Shard(c, k) in th.held { assert c.slot(k) < c.n; }
  }

  lemma ActCover(c: Config, s: Sys, s': Sys, t: nat, a: Action)
    requires WellConfigured(c) && Inv(c, s) && Cover(c, s) && Step(c, s, s', t) && s.threads[t].cont[0] == Do(a)
    requires !(SomeResetting(s) && a.Push?)
    ensures Cover(c, s')
  {
    hide Inv, ActStep, AllFound, AllUnderway, SomeResetting, Emptied, Disciplined;
    ActFound(c, s, s', t, a);
    if SomeResetting(s') {
      if SomeResetting(s) {
        ActUnderway(c, s, s', t, a);
      } else {
        ActResets(c, s, s', t, a);
        NothingToFind(s');
      }
    }
    InvDisciplined(c, s, t);
    ActDisciplined(c, s, s', t, a);
    forall u | 0 <= u < |s'.threads| ensures Emptied(c, s', s'.threads[u]) {
      assert Emptied(c, s, s.threads[u]);
      if u == t {
        OwnEmptied(c, s, s', t, a);
      } else {
        OthersEmptied(c, s, s', t, a, u);
      }
    }
  }

  lemma InvDisciplined(c: Config, s: Sys, t: nat)
    requires Inv(c, s) && t < |s.threads|
    ensures Disciplined(c, s.threads[t])
  {
  }

  lemma NothingToFind(s: Sys)
    requires s.flat == map[]
    ensures AllUnderway(s)
  {
  }

  /** A step that leaves the contents alone and drops from the code of its thread
      nothing that tends to a deadline. */
  lemma QuietCover(c: Config, s: Sys, s': Sys, t: nat)
    requires Cover(c, s) && t < |s.threads| == |s'.threads| && s'.flat == s.flat && s'.heap == s.heap
    requires s'.threads == s.threads[t := s'.threads[t]] && Untouched(s'.threads[t].cont)
    requires forall e :: InCode(s.threads[t].cont, e) ==> InCode(s'.threads[t].cont, e)
    requires Resetting(s'.threads[t].cont) ==> Resetting(s.threads[t].cont)
    ensures Cover(c, s')
  {
    hide InCode, Resetting;
    forall e | Underway(s, e) ensures Underway(s', e) {
      var u :| 0 <= u < |s.threads| && InCode(s.threads[u].cont, e);
      assert InCode(s'.threads[u].cont, e);
    }
    if SomeResetting(s') {
      var u :| 0 <= u < |s'.threads| && Resetting(s'.threads[u].cont);
      assert Resetting(s.threads[u].cont);
    }
    forall u | 0 <= u < |s'.threads| ensures Emptied(c, s', s'.threads[u]) {
      if u != t { assert Emptied(c, s, s.threads[u]); }
    }
  }

  lemma LockCover(c: Config, s: Sys, s': Sys, t: nat)
    requires WellConfigured(c) && Inv(c, s) && Cover(c, s) && Step(c, s, s', t) && !s.threads[t].cont[0].Do?
    ensures Cover(c, s')
  {
    hide Inv, Cover, Disciplined;
    InvDisciplined(c, s, t);
    StepDisciplined(c, s, s', t);
    EmptyUntouched();
    var cont, code := s.threads[t].cont, s'.threads[t].cont;
    assert code == cont[1..];
    forall e | InCode(cont, e) ensures InCode(code, e) {
      var j :| 0 <= j < |cont| && Tends(cont[j], e);
      assert code[j - 1] == cont[j];
    }
    QuietCover(c, s, s', t);
  }

  lemma StartCover(c: Config, s: Sys, s': Sys, t: nat, ops: seq<Op>, logged: Option<seq<Cmd>>)
    requires WellConfigured(c) && Cover(c, s) && Start(c, s, s', t, ops, logged)
    ensures Cover(c, s')
  {
    hide Cover, Codes, LoggedCode;
    CodesUntouched(c, ops);
    CodesNotResetting(c, ops, []);
    assert Codes(c, ops) + [] == Codes(c, ops);
    if logged.Some? {
      LoggedUntouched(c, ops, logged.value);
      LoggedNotResetting(c, ops, logged.value);
    }
    QuietCover(c, s, s', t);
  }

  lemma TimeCover(c: Config, s: Sys, s': Sys)
    requires Cover(c, s) && TimePasses(s, s')
    ensures Cover(c, s')
  {
    hide InCode, Resetting;
    forall e | Underway(s, e) ensures Underway(s', e) {
      var u :| 0 <= u < |s.threads| && InCode(s.threads[u].cont, e);
      assert InCode(s'.threads[u].cont, e);
    }
    if SomeResetting(s') {
      var u :| 0 <= u < |s'.threads| && Resetting(s'.threads[u].cont);
      assert Resetting(s.threads[u].cont);
    }
    forall u | 0 <= u < |s'.threads| ensures Emptied(c, s', s'.threads[u]) {
      assert Emptied(c, s, s.threads[u]);
    }
  }

  lemma InitCover(c: Config, s: Sys)
    requires Init(s)
    ensures Cover(c, s)
  {
  }

  lemma StepUnfinished(c: Config, s: Sys, s': Sys, t: nat)
    requires Step(c, s, s', t)
    ensures Unfinished(s, t)
  {
  }

  lemma NextCover(c: Config, s: Sys, s': Sys)
    requires WellConfigured(c) && Inv(c, s) && Cover(c, s) && Next(c, s, s') && !Disturbed(c, s, s')
    ensures Cover(c, s')
  {
    hide Inv, Cover, TimePasses, Step, Start, SomeResetting;
    if TimePasses(s, s') {
      TimeCover(c, s, s');
    } else if t: nat :| Step(c, s, s', t) {
      StepUnfinished(c, s, s', t);
      if s.threads[t].cont[0].Do? {
        assert Pushes(s, t) <==> s.threads[t].cont[0].a.Push?;
        ActCover(c, s, s', t, s.threads[t].cont[0].a);
      } else {
        LockCover(c, s, s', t);
      }
    } else {
      var t, ops, logged :| Start(c, s, s', t, ops, logged);
      StartCover(c, s, s', t, ops, logged);
    }
  }

  // ---------------------------------------------------------------- theorems

  /** At every moment of every run in which no deadline reaches the heap between
      the end of a flush and its reset of the heap, every deadline in the store is
      in the heap, about to be pushed, or about to be purged by the sweeper. */
  lemma {:induction false} EveryDeadlineFound(c: Config, ss: seq<Sys>, i: nat)
    requires WellConfigured(c) && Run(c, ss) && Undisturbed(c, ss) && i < |ss|
    ensures Cover(c, ss[i]) && AllFound(ss[i])
  {
    hide Inv, Init, Next, Disturbed, AllFound, AllUnderway, AllEmptied, SomeResetting;
    if i == 0 {
      InitCover(c, ss[0]);
    } else {
      EveryDeadlineFound(c, ss, i - 1);
      RunInv(c, ss, i - 1);
      assert Next(c, ss[i - 1], ss[i - 1 + 1]) && !Disturbed(c, ss[i - 1], ss[i - 1 + 1]);
      NextCover(c, ss[i - 1], ss[i]);
    }
  }

  /** So when all threads are idle the next sweep finds every deadline there is. */
  lemma IdleHeapComplete(c: Config, ss: seq<Sys>, i: nat, k: Bytes)
    requires WellConfigured(c) && Run(c, ss) && Undisturbed(c, ss) && i < |ss|
    requires forall t :: 0 <= t < |ss[i].threads| ==> ss[i].threads[t].cont == []
    requires HasDeadline(ss[i].flat, k)
    ensures DeadlineOf(ss[i].flat, k) in ss[i].heap
  {
    hide Run, Undisturbed, Cover;
    EveryDeadlineFound(c, ss, i);
  }

  /** What a reset of the heap keeps findable is exactly what was under way: it
      loses every deadline that only the heap knew. */
  lemma ResetLoses(c: Config, s: Sys, s': Sys, t: nat)
    requires Unfinished(s, t) && s.threads[t].cont[0] == Do(ResetHeap) && ActStep(c, s, s', t, ResetHeap)
    ensures AllFound(s') <==> AllUnderway(s)
  {
    hide InCode;
    forall k | HasDeadline(s.flat, k)
      ensures Underway(s', DeadlineOf(s.flat, k)) <==> Underway(s, DeadlineOf(s.flat, k))
    {
      TailUnderway(s, s', t, DeadlineOf(s.flat, k));
    }
  }

  lemma TailUnderway(s: Sys, s': Sys, t: nat, e: ExpEntry)
    requires Unfinished(s, t) && !Tends(s.threads[t].cont[0], e)
    requires s'.threads == s.threads[t := Tail(s.threads[t])]
    ensures Underway(s', e) <==> Underway(s, e)
  {
    var cont := s.threads[t].cont;
    if u :| 0 <= u < |s.threads| && InCode(s.threads[u].cont, e) {
      if u == t {
        var j :| 0 <= j < |cont| && Tends(cont[j], e);
        assert cont[1..][j - 1] == cont[j];
      }
      assert InCode(s'.threads[u].cont, e);
    }
    if u :| 0 <= u < |s'.threads| && InCode(s'.threads[u].cont, e) {
      if u == t {
        var j :| 0 <= j < |cont[1..]| && Tends(cont[1..][j], e);
        assert cont[j + 1] == cont[1..][j];
      }
      assert InCode(s.threads[u].cont, e);
    }
  }

  // ----------------------------------------------------- a deadline that is lost

  lemma ReachNext(c: Config, s: Sys, s': Sys)
    requires Reachable(c, s) && Next(c, s, s')
    ensures Reachable(c, s')
  {
    hide Next, Init;
    var ss :| Run(c, ss) && ss[|ss| - 1] == s;
    var tt := ss + [s'];
    forall i | 0 <= i < |tt| - 1 ensures Next(c, tt[i], tt[i + 1]) {
      if i < |ss| - 1 {
        assert tt[i] == ss[i] && tt[i + 1] == ss[i + 1];
      } else {
        assert tt[i] == s && tt[i + 1] == s';
      }
    }
    assert Run(c, tt) && tt[|tt| - 1] == s';
  }

  function OneShard(): Config { Config(_ => 0, 1, 0) }

  const SET_K: Cmd := Set("k", "v", Some(SECOND), SetAlways)
  const LOST_ENTRY: ExpEntry := ExpEntry(SECOND, "k")

  function FlushSteps(): seq<Instr> {
    [Acquire(ShardMu(0)), Do(Clear(0)), Release(ShardMu(0)), Acquire(ExpMu), Do(ResetHeap), Release(ExpMu)]
  }

  function SetSteps(): seq<Instr> {
    [Acquire(ShardMu(0)), Do(One(SET_K)), Release(ShardMu(0))]
  }

  lemma TheCode()
    ensures Codes(OneShard(), [OpFlush]) == FlushSteps()
    ensures Codes(OneShard(), [OpKey(SET_K)]) == SetSteps()
  {
    var c := OneShard();
    assert LockAll(AllSlots(1), 1, 1) == [] && UnlockAll(AllSlots(1), 0) == [];
    assert LockAll(AllSlots(1), 0, 1) == [Acquire(ShardMu(0))];
    assert UnlockAll(AllSlots(1), 1) == [Release(ShardMu(0))];
    assert Code(c, OpFlush) == FlushSteps();
    assert Code(c, OpKey(SET_K)) == SetSteps();
    assert [OpFlush][1..] == [] && [OpKey(SET_K)][1..] == [];
    assert Codes(c, []) == [];
    assert FlushSteps() + [] == FlushSteps() && SetSteps() + [] == SetSteps();
  }

  /** What the SET leaves and pushes. */
  lemma TheSet()
    ensures Exec(map[], SET_K, Span(0, 0), 0).m == map["k" := Entry("v", SECOND)]
    ensures PushCode(map[], SET_K, Span(0, 0), 0) == Section(ExpMu, Push(LOST_ENTRY))
  {
    assert Wrap64(SECOND) == SECOND;
  }

  lemma Takes(c: Config, s: Sys, t: nat, l: Lock, rest: seq<Instr>) returns (s': Sys)
    requires Reachable(c, s) && t < |s.threads| && s.threads[t].cont == [Acquire(l)] + rest && Free(s, t, l)
    ensures Reachable(c, s')
    ensures s' == Put(s, t, Thread(s.threads[t].held + {l}, s.threads[t].reading, rest))
  {
    hide Reachable;
    s' := Put(s, t, Thread(s.threads[t].held + {l}, s.threads[t].reading, rest));
    assert s.threads[t].cont[1..] == rest;
    assert Step(c, s, s', t);
    ReachNext(c, s, s');
  }

  lemma Gives(c: Config, s: Sys, t: nat, l: Lock, rest: seq<Instr>) returns (s': Sys)
    requires Reachable(c, s) && t < |s.threads| && s.threads[t].cont == [Release(l)] + rest
    ensures Reachable(c, s')
    ensures s' == Put(s, t, Thread(s.threads[t].held - {l}, s.threads[t].reading, rest))
  {
    hide Reachable;
    s' := Put(s, t, Thread(s.threads[t].held - {l}, s.threads[t].reading, rest));
    assert s.threads[t].cont[1..] == rest;
    assert Step(c, s, s', t);
    ReachNext(c, s, s');
  }

  lemma Does(c: Config, s: Sys, s': Sys, t: nat, a: Action)
    requires Reachable(c, s) && Unfinished(s, t) && s.threads[t].cont[0] == Do(a) && ActStep(c, s, s', t, a)
    ensures Reachable(c, s')
  {
    hide Reachable, ActStep;
    assert Step(c, s, s', t);
    ReachNext(c, s, s');
  }

  lemma Starts(c: Config, s: Sys, t: nat, ops: seq<Op>) returns (s': Sys)
    requires Reachable(c, s) && t < |s.threads| && s.threads[t].cont == []
    ensures Reachable(c, s') && s' == Put(s, t, s.threads[t].(cont := Codes(c, ops)))
  {
    hide Reachable, Codes;
    s' := Put(s, t, s.threads[t].(cont := Codes(c, ops)));
    assert Start(c, s, s', t, ops, None);
    ReachNext(c, s, s');
  }

  lemma ReachInit(c: Config, s: Sys)
    requires Init(s)
    ensures Reachable(c, s)
  {
    var ss := [s];
    assert Run(c, ss) && ss[|ss| - 1] == s;
  }

  /** What is left of the flush after its shard has been given back. */
  function ResetSteps(): seq<Instr> {
    [Acquire(ExpMu), Do(ResetHeap), Release(ExpMu)]
  }

  function State(flat: Flat, heap: multiset<ExpEntry>, flusher: Thread, setter: Thread, hist: seq<Atom>): Sys {
    Sys(0, flat, heap, [flusher, setter], hist)
  }

  const IDLE: Thread := Thread({}, {}, [])

  /** The first half: the flush has cleared its one shard and given it back. */
  lemma FlushHalfway(c: Config) returns (s: Sys)
    requires c == OneShard()
    ensures Reachable(c, s) && s == State(map[], multiset{}, Thread({}, {}, ResetSteps()), IDLE, s.hist)
  {
    hide Reachable, Codes;
    TheCode();
    var l, shard := ShardMu(0), {ShardMu(0)};
    var unlock := [Release(l)] + ResetSteps();
    var clear := [Do(Clear(0))] + unlock;
    assert FlushSteps() == [Acquire(l)] + clear;
    s := State(map[], multiset{}, IDLE, IDLE, []);
    ReachInit(c, s);
    s := Starts(c, s, 0, [OpFlush]);
    s := Takes(c, s, 0, l, clear);
    assert {} + shard == shard;
    assert s == State(map[], multiset{}, Thread(shard, {}, clear), IDLE, []);
    var s' := ClearFirst(c, s, shard, unlock);
    Does(c, s, s', 0, Clear(0));
    s := s';
    s' := ClearLast(c, s, shard, unlock);
    Does(c, s, s', 0, Clear(1));
    s := Gives(c, s', 0, l, ResetSteps());
    assert shard - {l} == {};
    assert s == State(map[], multiset{}, Thread({}, {}, ResetSteps()), IDLE, s.hist);
  }

  lemma ClearFirst(c: Config, s: Sys, held: set<Lock>, rest: seq<Instr>) returns (s': Sys)
    requires c == OneShard()
    requires s == State(map[], multiset{}, Thread(held, {}, [Do(Clear(0))] + rest), IDLE, s.hist)
    ensures ActStep(c, s, s', 0, Clear(0))
    ensures s' == State(map[], multiset{}, Thread(held, {}, [Do(Clear(1))] + rest), IDLE, s'.hist)
  {
    var th := s.threads[0];
    assert th.cont[1..] == rest && Without(map[], c.slot, 0) == map[];
    s' := State(map[], multiset{}, Thread(held, {}, [Do(Clear(1))] + rest), IDLE,
                s.hist + [Atom(Flush, Span(0, 0))]);
    assert s.threads[0 := Head(th, Clear(1))] == s'.threads;
  }

  lemma ClearLast(c: Config, s: Sys, held: set<Lock>, rest: seq<Instr>) returns (s': Sys)
    requires c == OneShard()
    requires s == State(map[], multiset{}, Thread(held, {}, [Do(Clear(1))] + rest), IDLE, s.hist)
    ensures ActStep(c, s, s', 0, Clear(1))
    ensures s' == State(map[], multiset{}, Thread(held, {}, rest), IDLE, s.hist)
  {
    var th := s.threads[0];
    assert th.cont[1..] == rest;
    s' := State(map[], multiset{}, Thread(held, {}, rest), IDLE, s.hist);
    assert s.threads[0 := Tail(th)] == s'.threads;
  }

  /** Then a SET with an expiry runs from start to end. */
  lemma SetInBetween(c: Config, s0: Sys) returns (s: Sys)
    requires c == OneShard() && Reachable(c, s0)
    requires s0 == State(map[], multiset{}, Thread({}, {}, ResetSteps()), IDLE, s0.hist)
    ensures Reachable(c, s)
    ensures s == State(map["k" := Entry("v", SECOND)], multiset{LOST_ENTRY},
                       Thread({}, {}, ResetSteps()), IDLE, s.hist)
  {
    hide Reachable, Codes, ActStep;
    TheCode();
    var l, shard, flusher := ShardMu(0), {ShardMu(0)}, s0.threads[0];
    var write := [Do(One(SET_K)), Release(l)];
    assert SetSteps() == [Acquire(l)] + write;
    s := Starts(c, s0, 1, [OpKey(SET_K)]);
    s := Takes(c, s, 1, l, write);
    assert {} + shard == shard;
    assert s == State(map[], multiset{}, flusher, Thread(shard, {}, write), s.hist);
    var s' := SetActs(c, s, flusher, shard);
    Does(c, s, s', 1, One(SET_K));
    s := s';
    var push := [Do(Push(LOST_ENTRY)), Release(ExpMu), Release(l)];
    s := Takes(c, s, 1, ExpMu, push);
    assert s == State(map["k" := Entry("v", SECOND)], multiset{}, flusher, Thread(shard + {ExpMu}, {}, push), s.hist);
    s' := PushActs(c, s, flusher, shard + {ExpMu});
    Does(c, s, s', 1, Push(LOST_ENTRY));
    s := Gives(c, s', 1, ExpMu, [Release(l)]);
    assert shard + {ExpMu} - {ExpMu} == shard && shard - {l} == {};
    assert [Release(l)] == [Release(l)] + [];
    s := Gives(c, s, 1, l, []);
    assert s == State(map["k" := Entry("v", SECOND)], multiset{LOST_ENTRY}, flusher, IDLE, s.hist);
  }

  lemma SetActs(c: Config, s: Sys, flusher: Thread, held: set<Lock>) returns (s': Sys)
    requires c == OneShard()
    requires s == State(map[], multiset{}, flusher, Thread(held, {}, [Do(One(SET_K)), Release(ShardMu(0))]), s.hist)
    ensures ActStep(c, s, s', 1, One(SET_K))
    ensures s' == State(map["k" := Entry("v", SECOND)], multiset{}, flusher,
                        Thread(held, {},
                               [Acquire(ExpMu)] + [Do(Push(LOST_ENTRY)), Release(ExpMu), Release(ShardMu(0))]),
                        s'.hist)
  {
    hide Exec, PushCode;
    TheSet();
    var th := s.threads[1];
    var code := [Acquire(ExpMu)] + [Do(Push(LOST_ENTRY)), Release(ExpMu), Release(ShardMu(0))];
    s' := State(map["k" := Entry("v", SECOND)], multiset{}, flusher, Thread(held, {}, code),
                s.hist + [Atom(SET_K, Span(0, 0))]);
    assert Section(ExpMu, Push(LOST_ENTRY)) + th.cont[1..] == code;
    assert s.threads[1 := Tail(th).(cont := code)] == s'.threads;
    assert KeyStep(c, s, s', 1, SET_K);
  }

  lemma PushActs(c: Config, s: Sys, flusher: Thread, held: set<Lock>) returns (s': Sys)
    requires s == State(s.flat, multiset{}, flusher,
                        Thread(held, {}, [Do(Push(LOST_ENTRY)), Release(ExpMu), Release(ShardMu(0))]), s.hist)
    ensures ActStep(c, s, s', 1, Push(LOST_ENTRY))
    ensures s' == State(s.flat, multiset{LOST_ENTRY}, flusher,
                        Thread(held, {}, [Release(ExpMu)] + [Release(ShardMu(0))]), s.hist)
  {
    var th := s.threads[1];
    s' := State(s.flat, multiset{LOST_ENTRY}, flusher,
                Thread(held, {}, [Release(ExpMu)] + [Release(ShardMu(0))]), s.hist);
    assert th.cont[1..] == [Release(ExpMu)] + [Release(ShardMu(0))];
    assert s.threads[1 := Tail(th)] == s'.threads;
  }

  /** A deadline written between the two halves of a flush is in the store, and
      neither in the heap nor on its way anywhere: the sweeper has nothing to find it
      by. */
  lemma LostDeadline() returns (c: Config, s: Sys)
    ensures WellConfigured(c) && Reachable(c, s)
    ensures HasDeadline(s.flat, "k") && DeadlineOf(s.flat, "k") == LOST_ENTRY
    ensures LOST_ENTRY !in s.heap && !Underway(s, LOST_ENTRY)
  {
    hide Reachable;
    c := OneShard();
    s := FlushHalfway(c);
    s := SetInBetween(c, s);
    var reset := [Do(ResetHeap), Release(ExpMu)];
    assert ResetSteps() == [Acquire(ExpMu)] + reset;
    s := Takes(c, s, 0, ExpMu, reset);
    var s' := Put(s, 0, Tail(s.threads[0])).(heap := multiset{});
    Does(c, s, s', 0, ResetHeap);
    s := s';
    assert s.threads[0].cont == [Release(ExpMu)] && s.threads[1].cont == [];
  }
}
