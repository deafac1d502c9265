/** One thread at work while all others are idle: the store is then as the operation
    leaves a flat map, and the heap of deadlines with it. */
module Solo {
  import opened Basics
  import opened TimedMap
  import opened ExpHeap
  import opened Command
  import opened Concurrent
  import opened History
  import opened Interleaving
  import opened Programs
  import M = Meaning
  import P = Persist

  // -------------------------------------------------------------- alone at work

  ghost predicate AllIdle(s: Sys) {
    forall t :: 0 <= t < |s.threads| ==> s.threads[t].cont == []
  }

  /** From a state in which all threads are idle, thread t takes up operations and is
      the only one to step until it is idle again, while time may pass. */
  ghost predicate Alone(c: Config, s: Sys, ss: seq<Sys>, t: nat, ops: seq<Op>, logged: Option<seq<Cmd>>) {
    Reachable(c, s) && AllIdle(s) && ss != [] && Start(c, s, ss[0], t, ops, logged) && Steps(c, ss, t) &&
    (forall k :: 0 <= k < |ops| ==> Proper(ops[k])) &&
    t < |ss[|ss| - 1].threads| && ss[|ss| - 1].threads[t].cont == []
  }

  ghost predicate Moves(c: Config, s: Sys, s': Sys, t: nat) {
    Step(c, s, s', t) || TimePasses(s, s')
  }

  ghost predicate Steps(c: Config, ss: seq<Sys>, t: nat) {
    forall i :: 0 <= i < |ss| - 1 ==> Moves(c, ss[i], ss[i + 1], t)
  }

  /** What a sequence of atoms leaves of a map. */
  ghost function FoldOn(m: Flat, atoms: seq<Atom>, maxLen: int): Flat {
    if atoms == [] then m
    else
      var a := atoms[|atoms| - 1];
      Exec(FoldOn(m, atoms[..|atoms| - 1], maxLen), a.cmd, a.tk, maxLen).m
  }

  lemma {:induction false} FoldFrom(hist: seq<Atom>, atoms: seq<Atom>, maxLen: int)
    ensures Fold(hist + atoms, maxLen) == FoldOn(Fold(hist, maxLen), atoms, maxLen)
  {
    if atoms == [] {
      assert hist + atoms == hist;
    } else {
      var n := |atoms| - 1;
      FoldFrom(hist, atoms[..n], maxLen);
      assert (hist + atoms)[..|hist| + n] == hist + atoms[..n];
      assert (hist + atoms)[|hist| + n] == atoms[n];
    }
  }

  /** Each atom takes its readings when it takes effect, from `from` to `upto`. */
  ghost predicate InTime(atoms: seq<Atom>, from: int, upto: int) {
    if atoms == [] then from <= upto
    else
      var a := atoms[|atoms| - 1];
      InTime(atoms[..|atoms| - 1], from, a.tk.check(0)) && a.tk.write <= upto &&
      a.tk == Span(a.tk.check(0), a.tk.write) && a.tk.check(0) <= a.tk.write
  }

  lemma {:induction false} FoldAlike(a: Flat, b: Flat, atoms: seq<Atom>, from: int, upto: int, maxLen: int)
    requires SameView(a, b, from) && InTime(atoms, from, upto) && 0 <= from && upto < TWO63
    ensures SameView(FoldOn(a, atoms, maxLen), FoldOn(b, atoms, maxLen), upto)
    decreases |atoms|
  {
    if atoms == [] {
      SameViewLater(a, b, from, upto);
    } else {
      var n := |atoms| - 1;
      var x := atoms[n];
      InTimeRange(atoms[..n], from, x.tk.check(0));
      FoldAlike(a, b, atoms[..n], from, x.tk.check(0), maxLen);
      var fa, fb := FoldOn(a, atoms[..n], maxLen), FoldOn(b, atoms[..n], maxLen);
      assert WellTicked(x.tk);
      P.ExecCongruence(fa, fb, x.cmd, x.tk, maxLen);
      SameViewLater(FoldOn(a, atoms, maxLen), FoldOn(b, atoms, maxLen), x.tk.stamp, upto);
    }
  }

  lemma {:induction false} InTimeRange(atoms: seq<Atom>, from: int, upto: int)
    requires InTime(atoms, from, upto)
    ensures from <= upto
    decreases |atoms|
  {
    if atoms != [] { InTimeRange(atoms[..|atoms| - 1], from, atoms[|atoms| - 1].tk.check(0)); }
  }

  lemma InTimeLater(atoms: seq<Atom>, from: int, upto: int, later: int)
    requires InTime(atoms, from, upto) && upto <= later
    ensures InTime(atoms, from, later)
  {
  }

  lemma InTimeMore(atoms: seq<Atom>, from: int, cmd: Cmd, a: int, b: int)
    requires InTime(atoms, from, a) && a <= b
    ensures InTime(atoms + [Atom(cmd, Span(a, b))], from, b)
  {
    assert (atoms + [Atom(cmd, Span(a, b))])[..|atoms|] == atoms;
  }

  lemma MoveInv(c: Config, s: Sys, s': Sys, t: nat)
    requires WellConfigured(c) && Inv(c, s) && Moves(c, s, s', t) && t < |s.threads|
    ensures Inv(c, s') && |s'.threads| == |s.threads|
    ensures forall u :: 0 <= u < |s.threads| && u != t ==> s'.threads[u] == s.threads[u]
    ensures s.now <= s'.now && Pays(s, s', t)
  {
    hide Inv, Step, Pays, Owed;
    if Step(c, s, s', t) {
      StepInv(c, s, s', t);
      InvSound(c, s);
      StepSound(c, s, s', t);
      StepPays(c, s, s', t);
    } else {
      TimeInv(c, s, s');
      PaysNothing(s, s', t);
    }
  }

  /** What the steps of one thread add to the history, and that the others stay as
      they are. */
  lemma {:induction false} StepsPay(c: Config, ss: seq<Sys>, t: nat, i: nat) returns (atoms: seq<Atom>)
    requires WellConfigured(c) && i < |ss| && Inv(c, ss[0]) && Steps(c, ss, t) && t < |ss[0].threads|
    ensures Inv(c, ss[i]) && |ss[i].threads| == |ss[0].threads|
    ensures forall u :: 0 <= u < |ss[0].threads| && u != t ==> ss[i].threads[u] == ss[0].threads[u]
    ensures ss[i].hist == ss[0].hist + atoms && InTime(atoms, ss[0].now, ss[i].now)
    ensures Cmds(atoms) + Owed(ss[i].threads[t].cont) == Owed(ss[0].threads[t].cont)
  {
    hide Inv, Moves, Owed, InTime;
    if i == 0 {
      atoms := [];
      NoAtoms(ss[0].now);
    } else {
      atoms := StepsPay(c, ss, t, i - 1);
      var s, s' := ss[i - 1], ss[i];
      assert Moves(c, ss[i - 1], ss[i - 1 + 1], t);
      MoveInv(c, s, s', t);
      if s'.hist == s.hist {
        HistSame(s, s', t);
        InTimeLater(atoms, ss[0].now, s.now, s'.now);
      } else {
        var cmd :| s'.hist == s.hist + [Atom(cmd, Span(s.now, s'.now))] &&
                   Owed(s.threads[t].cont) == [cmd] + Owed(s'.threads[t].cont);
        InTimeMore(atoms, ss[0].now, cmd, s.now, s'.now);
        var more := atoms + [Atom(cmd, Span(s.now, s'.now))];
        assert Cmds(more) == Cmds(atoms) + [cmd];
        atoms := more;
      }
    }
  }

  lemma NoAtoms(now: int)
    ensures InTime([], now, now)
  {
  }

  lemma HistSame(s: Sys, s': Sys, t: nat)
    requires Pays(s, s', t) && s'.hist == s.hist
    ensures Owed(s'.threads[t].cont) == Owed(s.threads[t].cont)
  {
    hide Owed;
    assert forall cmd, tk :: s.hist != s.hist + [Atom(cmd, tk)];
  }

  lemma IdleView(c: Config, s: Sys)
    requires WellConfigured(c) && Inv(c, s) && AllIdle(s)
    ensures SameView(s.flat, Fold(s.hist, c.maxLen), s.now)
  {
    hide Fold, Disciplined, Deadlines, Exclusive;
    forall k ensures Live(s.flat, k, s.now) == Live(Fold(s.hist, c.maxLen), k, s.now) { assert KeyLinear(c, s, k); }
  }

  lemma InvNow(c: Config, s: Sys)
    requires Inv(c, s)
    ensures 0 <= s.now < TWO63
  {
  }

  /** The outcome of working alone: the history has grown by the commands of the
      operations, in order, and the store looks as they leave what was there. */
  lemma AloneOutcome(c: Config, s: Sys, ss: seq<Sys>, t: nat, ops: seq<Op>, logged: Option<seq<Cmd>>)
    returns (atoms: seq<Atom>)
    requires WellConfigured(c) && Alone(c, s, ss, t, ops, logged)
    ensures var end := ss[|ss| - 1];
            end.hist == s.hist + atoms && Cmds(atoms) == AllCommands(ops) && InTime(atoms, s.now, end.now) &&
            0 <= s.now && end.now < TWO63 &&
            SameView(end.flat, FoldOn(s.flat, atoms, c.maxLen), end.now)
  {
    hide Inv, Step, Owed, InTime, Fold, FoldOn, SameView, AllCommands, Proper, Reachable, Codes, LoggedCode;
    var n := |ss| - 1;
    var end := ss[n];
    ReachableInv(c, s);
    StartInv(c, s, ss[0], t, ops, logged);
    StartOwes(c, s, ss[0], t, ops, logged);
    atoms := StepsPay(c, ss, t, n);
    OwedNone();
    assert Cmds(atoms) + [] == Cmds(atoms);
    IdleView(c, s);
    assert AllIdle(end);
    IdleView(c, end);
    InvNow(c, s);
    InvNow(c, end);
    FoldFrom(s.hist, atoms, c.maxLen);
    FoldAlike(s.flat, Fold(s.hist, c.maxLen), atoms, s.now, end.now, c.maxLen);
    var a, b := FoldOn(s.flat, atoms, c.maxLen), FoldOn(Fold(s.hist, c.maxLen), atoms, c.maxLen);
    SameViewSym(a, b, end.now);
    SameViewTrans(end.flat, b, a, end.now);
  }

  lemma SameViewSym(a: Flat, b: Flat, t: int)
    requires SameView(a, b, t)
    ensures SameView(b, a, t)
  {
    forall k ensures Live(b, k, t) == Live(a, k, t) { assert Live(a, k, t) == Live(b, k, t); }
  }

  // ------------------------------------------------- what code does to the store

  /** The store and its heap of deadlines. */
  datatype Space = Space(flat: Flat, heap: multiset<ExpEntry>)

  function SpaceOf(s: Sys): Space { Space(s.flat, s.heap) }

  /** Code whose effect does not depend on when it runs. */
  ghost predicate Plain(code: seq<Instr>) {
    forall j :: 0 <= j < |code| && code[j].Do? ==>
      !code[j].a.One? && !code[j].a.Probe? && !code[j].a.Write? && !code[j].a.PopDue?
  }

  ghost function ActEffect(c: Config, v: Space, a: Action): Space {
    match a
    case Drop(key) => v.(flat := v.flat - {key})
    case Clear(i) => v.(flat := map k | k in v.flat && c.slot(k) < i :: v.flat[k])
    case ResetHeap => v.(heap := multiset{})
    case Push(e) => v.(heap := v.heap + multiset{e})
    case PurgeIf(e) =>
      if e.key in v.flat && v.flat[e.key].expireAt == e.deadline then v.(flat := v.flat - {e.key}) else v
    case _ => v
  }

  ghost function Effect(c: Config, v: Space, code: seq<Instr>): Space
    decreases |code|
  {
    if code == [] then v
    else Effect(c, if code[0].Do? then ActEffect(c, v, code[0].a) else v, code[1..])
  }

  lemma {:induction false} EffectAppend(c: Config, v: Space, a: seq<Instr>, b: seq<Instr>)
    ensures Effect(c, v, a + b) == Effect(c, Effect(c, v, a), b)
    decreases |a|
  {
    if a == [] {
      assert a + b == b;
    } else {
      assert (a + b)[1..] == a[1..] + b;
      EffectAppend(c, if a[0].Do? then ActEffect(c, v, a[0].a) else v, a[1..], b);
    }
  }

  /** Locking, reading and logging leave the store as it is. */
  ghost predicate Harmless(code: seq<Instr>) {
    forall j :: 0 <= j < |code| && code[j].Do? ==> code[j].a.Look? || code[j].a.LogRecord?
  }

  lemma {:induction false} HarmlessEffect(c: Config, v: Space, code: seq<Instr>)
    requires Harmless(code)
    ensures Plain(code) && Effect(c, v, code) == v
  {
    if code != [] { HarmlessEffect(c, v, code[1..]); }
  }

  lemma OneEffect(c: Config, v: Space, i: Instr, rest: seq<Instr>)
    ensures Effect(c, v, [i] + rest) == Effect(c, if i.Do? then ActEffect(c, v, i.a) else v, rest)
  {
    assert ([i] + rest)[1..] == rest;
  }

  lemma SectionEffect(c: Config, v: Space, l: Lock, a: Action)
    ensures Effect(c, v, Section(l, a)) == ActEffect(c, v, a)
  {
    hide Effect;
    OneEffect(c, v, Acquire(l), [Do(a), Release(l)]);
    OneEffect(c, v, Do(a), [Release(l)]);
    HarmlessEffect(c, ActEffect(c, v, a), [Release(l)]);
    assert Section(l, a) == [Acquire(l)] + [Do(a), Release(l)];
    assert [Do(a), Release(l)] == [Do(a)] + [Release(l)];
  }

  lemma ClearEffect(c: Config, m: Flat, heap: multiset<ExpEntry>, i: nat)
    requires WellConfigured(c)
    ensures ActEffect(c, Space(Without(m, c.slot, i), heap), Clear(i + 1)) == ActEffect(c, Space(m, heap), Clear(i))
    ensures i >= c.n ==> ActEffect(c, Space(m, heap), Clear(i)) == Space(m, heap)
    ensures ActEffect(c, Space(m, heap), Clear(0)) == Space(map[], heap)
  {
  }

  /** A step does the first part of what the code has yet to do. */
  lemma PlainStep(c: Config, s: Sys, s': Sys, t: nat)
    requires WellConfigured(c) && t < |s.threads| && Moves(c, s, s', t) && Plain(s.threads[t].cont)
    ensures |s'.threads| == |s.threads| && Plain(s'.threads[t].cont)
    ensures Effect(c, SpaceOf(s'), s'.threads[t].cont) == Effect(c, SpaceOf(s), s.threads[t].cont)
  {
    hide Effect, ActEffect, ActStep;
    if Step(c, s, s', t) {
      var code := s.threads[t].cont;
      assert code == [code[0]] + code[1..];
      OneEffect(c, SpaceOf(s), code[0], code[1..]);
      if code[0].Do? {
        if code[0].a.Clear? { ClearDone(c, s, s', t, code[0].a.i); } else { ActDone(c, s, s', t, code[0].a); }
      }
    }
  }

  lemma ActDone(c: Config, s: Sys, s': Sys, t: nat, a: Action)
    requires Unfinished(s, t) && ActStep(c, s, s', t, a) && !a.Clear?
    requires !a.One? && !a.Probe? && !a.Write? && !a.PopDue?
    ensures |s'.threads| == |s.threads| && s'.threads[t].cont == s.threads[t].cont[1..]
    ensures SpaceOf(s') == ActEffect(c, SpaceOf(s), a)
  {
  }

  lemma ClearDone(c: Config, s: Sys, s': Sys, t: nat, i: nat)
    requires WellConfigured(c) && Unfinished(s, t) && ActStep(c, s, s', t, Clear(i)) && Plain(s.threads[t].cont)
    ensures |s'.threads| == |s.threads| && Plain(s'.threads[t].cont)
    ensures Effect(c, SpaceOf(s'), s'.threads[t].cont)
         == Effect(c, ActEffect(c, SpaceOf(s), Clear(i)), s.threads[t].cont[1..])
  {
    hide Effect, ActEffect;
    ClearEffect(c, s.flat, s.heap, i);
    if i < c.n { OneEffect(c, SpaceOf(s'), Do(Clear(i + 1)), s.threads[t].cont[1..]); }
  }

  lemma StepsTail(c: Config, ss: seq<Sys>, t: nat, i: nat)
    requires Steps(c, ss, t) && i < |ss|
    ensures Steps(c, ss[i..], t)
    ensures ss[i..][|ss[i..]| - 1] == ss[|ss| - 1]
  {
    hide Moves;
    var tail := ss[i..];
    forall j | 0 <= j < |tail| - 1 ensures Moves(c, tail[j], tail[j + 1], t) {
      assert Moves(c, ss[i + j], ss[i + j + 1], t);
    }
  }

  /** Once idle, the thread has done what its code had to do. */
  lemma {:induction false} PlainRun(c: Config, ss: seq<Sys>, t: nat)
    requires WellConfigured(c) && ss != [] && Steps(c, ss, t) && t < |ss[0].threads| && Plain(ss[0].threads[t].cont)
    requires t < |ss[|ss| - 1].threads| && ss[|ss| - 1].threads[t].cont == []
    ensures SpaceOf(ss[|ss| - 1]) == Effect(c, SpaceOf(ss[0]), ss[0].threads[t].cont)
    decreases |ss|
  {
    hide Plain, Moves;
    if |ss| > 1 {
      assert Moves(c, ss[0], ss[0 + 1], t);
      PlainStep(c, ss[0], ss[1], t);
      StepsTail(c, ss, t, 1);
      PlainRun(c, ss[1..], t);
    }
  }

  // ---------------------------------------------------- the first action of code

  ghost predicate OnlyLocks(code: seq<Instr>) {
    forall j :: 0 <= j < |code| ==> code[j].Acquire?
  }

  lemma MoveNow(c: Config, s: Sys, s': Sys, t: nat)
    requires Moves(c, s, s', t)
    ensures s.now <= s'.now && |s'.threads| == |s.threads|
  {
    hide Exec;
  }

  lemma {:induction false} StepsNow(c: Config, ss: seq<Sys>, t: nat)
    requires ss != [] && Steps(c, ss, t)
    ensures ss[0].now <= ss[|ss| - 1].now
    decreases |ss|
  {
    hide Moves;
    if |ss| > 1 {
      assert Moves(c, ss[0], ss[0 + 1], t);
      MoveNow(c, ss[0], ss[1], t);
      StepsTail(c, ss, t, 1);
      StepsNow(c, ss[1..], t);
    }
  }

  /** A thread that gets past its first locks performs the action behind them, on the
      store as it was. */
  lemma {:induction false} FirstAction(c: Config, ss: seq<Sys>, t: nat, pre: seq<Instr>, a: Action, post: seq<Instr>)
    returns (p: nat)
    requires ss != [] && Steps(c, ss, t) && t < |ss[0].threads| && OnlyLocks(pre)
    requires ss[0].threads[t].cont == pre + [Do(a)] + post
    requires t < |ss[|ss| - 1].threads| && ss[|ss| - 1].threads[t].cont == []
    ensures p + 1 < |ss| && t < |ss[p].threads| && ss[p].threads[t].cont == [Do(a)] + post
    ensures SpaceOf(ss[p]) == SpaceOf(ss[0]) && ss[p].hist == ss[0].hist
    ensures ActStep(c, ss[p], ss[p + 1], t, a)
    decreases |ss|
  {
    hide ActStep;
    assert |ss| > 1;
    assert Moves(c, ss[0], ss[0 + 1], t);
    StepsTail(c, ss, t, 1);
    if TimePasses(ss[0], ss[1]) {
      p := FirstAction(c, ss[1..], t, pre, a, post);
      p := p + 1;
    } else if pre == [] {
      assert pre + [Do(a)] + post == [Do(a)] + post;
      p := 0;
    } else {
      assert (pre + [Do(a)] + post)[1..] == pre[1..] + [Do(a)] + post;
      assert (pre + [Do(a)] + post)[0] == pre[0];
      p := FirstAction(c, ss[1..], t, pre[1..], a, post);
      p := p + 1;
    }
  }

  // -------------------------------------------------------- one operation alone

  /** What surrounds a store operation when a log is attached. */
  function Before(logged: Option<seq<Cmd>>): seq<Instr> {
    if logged.None? then [] else [Acquire(WriteMu)]
  }

  function After(logged: Option<seq<Cmd>>): seq<Instr> {
    if logged.None? then [] else Logging(logged.value) + [Release(WriteMu)]
  }

  lemma {:induction false} LoggingHarmless(recs: seq<Cmd>)
    ensures Harmless(Logging(recs))
  {
    if recs != [] { LoggingHarmless(recs[1..]); }
  }

  lemma AfterHarmless(logged: Option<seq<Cmd>>)
    ensures Harmless(After(logged)) && Harmless(Before(logged)) && OnlyLocks(Before(logged))
  {
    if logged.Some? { LoggingHarmless(logged.value); }
  }

  lemma AloneCode(c: Config, s: Sys, s': Sys, t: nat, op: Op, logged: Option<seq<Cmd>>)
    requires Start(c, s, s', t, [op], logged)
    ensures t < |s'.threads| && s'.threads[t].cont == Before(logged) + Code(c, op) + After(logged)
    ensures SpaceOf(s') == SpaceOf(s) && s'.hist == s.hist && s'.now == s.now
  {
    hide Code, Logging;
    assert [op][1..] == [];
    assert Codes(c, []) == [];
    assert Codes(c, [op]) == Code(c, op);
    assert Before(None) + Code(c, op) + After(None) == Code(c, op);
  }

  lemma PlainAppend(a: seq<Instr>, b: seq<Instr>)
    requires Plain(a) && Plain(b)
    ensures Plain(a + b)
  {
  }

  lemma PlainAlone(c: Config, s: Sys, ss: seq<Sys>, t: nat, op: Op, logged: Option<seq<Cmd>>)
    requires WellConfigured(c) && Alone(c, s, ss, t, [op], logged) && Plain(Code(c, op))
    ensures SpaceOf(ss[|ss| - 1]) == Effect(c, SpaceOf(s), Code(c, op))
  {
    hide Code, Effect, Plain, Harmless, Steps, Before, After;
    var b, code, e := Before(logged), Code(c, op), After(logged);
    var v := SpaceOf(s);
    AfterHarmless(logged);
    AloneCode(c, s, ss[0], t, op, logged);
    HarmlessEffect(c, v, b);
    HarmlessEffect(c, Effect(c, v, code), e);
    EffectAppend(c, v, b + code, e);
    EffectAppend(c, v, b, code);
    PlainAppend(b, code);
    PlainAppend(b + code, e);
    PlainRun(c, ss, t);
  }

  lemma {:induction false} DropsEffect(c: Config, v: Space, keys: seq<Bytes>)
    ensures Plain(Sections(c, Drops(keys)))
    ensures Effect(c, v, Sections(c, Drops(keys))) == v.(flat := DelAll(v.flat, keys))
    decreases |keys|
  {
    if keys != [] {
      var l, a, rest := Shard(c, keys[0]), Drop(keys[0]), Sections(c, Drops(keys[1..]));
      var v' := ActEffect(c, v, a);
      DropsEffect(c, v', keys[1..]);
      assert Drops(keys)[1..] == Drops(keys[1..]);
      assert Sections(c, Drops(keys)) == Section(l, a) + rest;
      EffectAppend(c, v, Section(l, a), rest);
      SectionEffect(c, v, l, a);
      PlainAppend(Section(l, a), rest);
      DelFirst(v.flat, keys);
    }
  }

  lemma DelFirst(m: Flat, keys: seq<Bytes>)
    requires keys != []
    ensures DelAll(m - {keys[0]}, keys[1..]) == DelAll(m, keys)
  {
    hide DelAll;
    var a, b := DelAll(m - {keys[0]}, keys[1..]), DelAll(m, keys);
    assert keys == [keys[0]] + keys[1..];
    forall k ensures k in a <==> k in b ensures k in a ==> a[k] == b[k] {
      M.DelAllIs(m - {keys[0]}, keys[1..], k);
      M.DelAllIs(m, keys, k);
    }
    assert a.Keys == b.Keys;
  }

  lemma {:induction false} ReadsHarmless(c: Config, keys: seq<Bytes>)
    ensures Harmless(Reads(c, keys))
  {
    if keys != [] { ReadsHarmless(c, keys[1..]); }
  }

  /** DEL takes its keys away one after the other, and nothing else. */
  lemma DelAlone(c: Config, s: Sys, ss: seq<Sys>, t: nat, keys: seq<Bytes>, logged: Option<seq<Cmd>>)
    returns (atoms: seq<Atom>)
    requires WellConfigured(c) && Alone(c, s, ss, t, [OpDel(keys)], logged)
    ensures SpaceOf(ss[|ss| - 1]) == Space(DelAll(s.flat, keys), s.heap)
    ensures ss[|ss| - 1].hist == s.hist + atoms && |atoms| == |keys|
    ensures forall i :: 0 <= i < |keys| ==> atoms[i].cmd == Del([keys[i]])
  {
    hide Alone, Effect, Plain, Sections, Drops, InTime, SameView, FoldOn, DelAll;
    DropsEffect(c, SpaceOf(s), keys);
    PlainAlone(c, s, ss, t, OpDel(keys), logged);
    atoms := AloneOutcome(c, s, ss, t, [OpDel(keys)], logged);
    OneOp(OpDel(keys), atoms);
  }

  lemma OneOp(op: Op, atoms: seq<Atom>)
    requires Cmds(atoms) == AllCommands([op])
    ensures Cmds(atoms) == CommandsOf(op) && |atoms| == |CommandsOf(op)|
    ensures forall i :: 0 <= i < |atoms| ==> atoms[i].cmd == CommandsOf(op)[i]
  {
    hide CommandsOf;
    assert [op][1..] == [] && AllCommands([]) == [];
    assert AllCommands([op]) == CommandsOf(op) + [] == CommandsOf(op);
    forall i | 0 <= i < |atoms| ensures atoms[i].cmd == CommandsOf(op)[i] { assert Cmds(atoms)[i] == atoms[i].cmd; }
  }

  /** EXISTS looks at each of its keys and changes nothing. */
  lemma ReadAlone(c: Config, s: Sys, ss: seq<Sys>, t: nat, keys: seq<Bytes>, logged: Option<seq<Cmd>>)
    returns (atoms: seq<Atom>)
    requires WellConfigured(c) && Alone(c, s, ss, t, [OpRead(keys)], logged)
    ensures SpaceOf(ss[|ss| - 1]) == SpaceOf(s)
    ensures ss[|ss| - 1].hist == s.hist + atoms && |atoms| == |keys|
    ensures forall i :: 0 <= i < |keys| ==> atoms[i].cmd == Exists([keys[i]])
  {
    hide Alone, Effect, Plain, Reads, InTime, SameView, FoldOn;
    ReadsHarmless(c, keys);
    HarmlessEffect(c, SpaceOf(s), Reads(c, keys));
    PlainAlone(c, s, ss, t, OpRead(keys), logged);
    atoms := AloneOutcome(c, s, ss, t, [OpRead(keys)], logged);
    OneOp(OpRead(keys), atoms);
  }

  lemma FlushEffect(c: Config, v: Space)
    requires WellConfigured(c)
    ensures Plain(Code(c, OpFlush)) && Effect(c, v, Code(c, OpFlush)) == Space(map[], multiset{})
  {
    hide LockAll, UnlockAll, AllSlots, Effect, Section;
    var locks, unlocks := LockAll(AllSlots(c.n), 0, c.n), UnlockAll(AllSlots(c.n), c.n);
    var reset := Section(ExpMu, ResetHeap);
    var empty := Space(map[], v.heap);
    LocksUntouched(AllSlots(c.n), 0, c.n);
    UnlocksUntouched(AllSlots(c.n), c.n);
    HarmlessEffect(c, v, locks);
    HarmlessEffect(c, empty, unlocks);
    ClearEffect(c, v.flat, v.heap, 0);
    OneEffect(c, v, Do(Clear(0)), []);
    HarmlessEffect(c, empty, []);
    assert [Do(Clear(0))] + [] == [Do(Clear(0))];
    EffectAppend(c, v, locks, [Do(Clear(0))]);
    EffectAppend(c, v, locks + [Do(Clear(0))], unlocks);
    EffectAppend(c, v, locks + [Do(Clear(0))] + unlocks, reset);
    SectionEffect(c, empty, ExpMu, ResetHeap);
    ResetPlain();
  }

  lemma ResetPlain()
    ensures Plain(Section(ExpMu, ResetHeap))
  {
  }

  /** FLUSHDB leaves neither keys nor deadlines. */
  lemma FlushAlone(c: Config, s: Sys, ss: seq<Sys>, t: nat, logged: Option<seq<Cmd>>) returns (atoms: seq<Atom>)
    requires WellConfigured(c) && Alone(c, s, ss, t, [OpFlush], logged)
    ensures SpaceOf(ss[|ss| - 1]) == Space(map[], multiset{})
    ensures ss[|ss| - 1].hist == s.hist + atoms && |atoms| == 1 && atoms[0].cmd == Flush
  {
    hide Alone, Effect, Plain, Code, InTime, SameView, FoldOn;
    FlushEffect(c, SpaceOf(s));
    PlainAlone(c, s, ss, t, OpFlush, logged);
    atoms := AloneOutcome(c, s, ss, t, [OpFlush], logged);
    OneOp(OpFlush, atoms);
  }

  lemma {:induction false} PurgesEffect(c: Config, v: Space, due: seq<ExpEntry>)
    ensures Plain(Sections(c, Purges(due)))
    ensures var r := Effect(c, v, Sections(c, Purges(due)));
            r.heap == v.heap &&
            forall k :: (k in r.flat <==> k in v.flat && ExpEntry(v.flat[k].expireAt, k) !in due) &&
                        (k in r.flat ==> r.flat[k] == v.flat[k])
    decreases |due|
  {
    if due != [] {
      var l, a, rest := Shard(c, due[0].key), PurgeIf(due[0]), Sections(c, Purges(due[1..]));
      PurgesEffect(c, ActEffect(c, v, a), due[1..]);
      assert Purges(due)[1..] == Purges(due[1..]);
      assert Sections(c, Purges(due)) == Section(l, a) + rest;
      EffectAppend(c, v, Section(l, a), rest);
      SectionEffect(c, v, l, a);
      PlainAppend(Section(l, a), rest);
      assert due == [due[0]] + due[1..];
    }
  }

  /** The store after a sweep at time `at`: a key is gone exactly if its own deadline
      was in the heap and had passed. */
  ghost predicate SweptAt(m: Flat, heap: multiset<ExpEntry>, v: Space, at: int) {
    (forall k :: (k in v.flat <==>
       k in m && !(ExpEntry(m[k].expireAt, k) in heap && m[k].expireAt <= at)) &&
       (k in v.flat ==> v.flat[k] == m[k])) &&
    forall e :: v.heap[e] == if e.deadline <= at then 0 else heap[e]
  }

  lemma SweptDue(c: Config, v: Space, due: seq<ExpEntry>, at: int)
    requires multiset(due) <= v.heap && (forall e :: e in due ==> e.deadline <= at)
    requires forall e :: e in v.heap - multiset(due) ==> e.deadline > at
    ensures SweptAt(v.flat, v.heap, Effect(c, v.(heap := v.heap - multiset(due)), Sections(c, Purges(due))), at)
  {
    hide Effect, Sections, Purges, Plain;
    var left := v.heap - multiset(due);
    PurgesEffect(c, v.(heap := left), due);
    forall e ensures left[e] == if e.deadline <= at then 0 else v.heap[e] {
      if e.deadline <= at {
        assert e !in left;
      } else {
        assert e !in multiset(due);
      }
    }
    forall e ensures e in due <==> e in v.heap && e.deadline <= at {
      if e in v.heap && e.deadline <= at {
        assert e !in left;
        assert multiset(due)[e] > 0;
        assert e in multiset(due);
      }
      if e in due { assert e in multiset(due); }
    }
  }

  lemma PopSweeps(c: Config, s: Sys, s': Sys, t: nat)
    requires Unfinished(s, t) && s.threads[t].cont == [Do(PopDue)] + [Release(ExpMu)] && ActStep(c, s, s', t, PopDue)
    ensures |s'.threads| == |s.threads| && Plain(s'.threads[t].cont)
    ensures SweptAt(s.flat, s.heap, Effect(c, SpaceOf(s'), s'.threads[t].cont), s.now)
  {
    hide Effect, Plain, SweptAt, Sections, Purges;
    var post := [Release(ExpMu)];
    var due :| PopOf(c, s, s', t, due);
    var purges := Sections(c, Purges(due));
    assert ([Do(PopDue)] + post)[1..] == post;
    assert s'.threads[t].cont == post + purges;
    PurgesEffect(c, SpaceOf(s'), due);
    HarmlessEffect(c, SpaceOf(s'), post);
    EffectAppend(c, SpaceOf(s'), post, purges);
    PlainAppend(post, purges);
    SweptDue(c, SpaceOf(s), due, s.now);
  }

  /** A sweep takes away, at one moment of its run, what has expired: every key whose
      deadline is in the heap and has passed, and every passed deadline. */
  lemma SweepAlone(c: Config, s: Sys, ss: seq<Sys>, t: nat) returns (at: int)
    requires WellConfigured(c) && Alone(c, s, ss, t, [OpSweep], None)
    ensures s.now <= at <= ss[|ss| - 1].now
    ensures SweptAt(s.flat, s.heap, SpaceOf(ss[|ss| - 1]), at)
    ensures ss[|ss| - 1].hist == s.hist
  {
    hide Effect, Plain, SweptAt, Steps, Start, ActStep, Reachable, AllIdle, InTime, FoldOn, SameView, Proper;
    AloneCode(c, s, ss[0], t, OpSweep, None);
    var pre, post := [Acquire(ExpMu)], [Release(ExpMu)];
    assert Before(None) + Code(c, OpSweep) + After(None) == pre + [Do(PopDue)] + post;
    var p := FirstAction(c, ss, t, pre, PopDue, post);
    at := ss[p].now;
    PopSweeps(c, ss[p], ss[p + 1], t);
    StepsTail(c, ss, t, p + 1);
    PlainRun(c, ss[p + 1..], t);
    NowBetween(c, ss, t, p);
    var atoms := AloneOutcome(c, s, ss, t, [OpSweep], None);
    OneOp(OpSweep, atoms);
    assert s.hist + [] == s.hist;
  }

  lemma NowBetween(c: Config, ss: seq<Sys>, t: nat, p: nat)
    requires p < |ss| && Steps(c, ss, t)
    ensures ss[0].now <= ss[p].now <= ss[|ss| - 1].now
  {
    hide Moves;
    StepsTail(c, ss, t, p);
    StepsNow(c, ss[p..], t);
    StepsHead(c, ss, t, p);
    StepsNow(c, ss[..p + 1], t);
  }

  lemma StepsHead(c: Config, ss: seq<Sys>, t: nat, p: nat)
    requires p < |ss| && Steps(c, ss, t)
    ensures Steps(c, ss[..p + 1], t)
  {
    hide Moves;
    var head := ss[..p + 1];
    forall j | 0 <= j < |head| - 1 ensures Moves(c, head[j], head[j + 1], t) { assert Moves(c, ss[j], ss[j + 1], t); }
  }

  // --------------------------------------------------------- single-key operations

  /** The deadline that a single-key operation hands to the heap. */
  ghost function Handed(m: Flat, cmd: Cmd, tk: Ticks, maxLen: int): multiset<ExpEntry>
    requires P.OneKey(cmd)
  {
    var r := Exec(m, cmd, tk, maxLen);
    if (cmd.Set? || cmd.ExpireIn? || cmd.ExpireAt? || cmd.PExpireAt?) && r.log != [] && cmd.key in r.m
       && r.m[cmd.key].expireAt != 0
    then multiset{ExpEntry(r.m[cmd.key].expireAt, cmd.key)} else multiset{}
  }

  lemma PushEffect(c: Config, v: Space, m: Flat, cmd: Cmd, tk: Ticks)
    requires P.OneKey(cmd)
    ensures Plain(PushCode(m, cmd, tk, c.maxLen))
    ensures Effect(c, v, PushCode(m, cmd, tk, c.maxLen)) == v.(heap := v.heap + Handed(m, cmd, tk, c.maxLen))
  {
    hide Exec;
    var code := PushCode(m, cmd, tk, c.maxLen);
    if code == [] {
      assert v.heap + multiset{} == v.heap;
    } else {
      SectionEffect(c, v, ExpMu, Push(ExpEntry(Exec(m, cmd, tk, c.maxLen).m[cmd.key].expireAt, cmd.key)));
    }
  }

  lemma KeyActs(c: Config, s: Sys, s': Sys, t: nat, cmd: Cmd, post: seq<Instr>)
    requires Unfinished(s, t) && s.threads[t].cont == [Do(One(cmd))] + post && ActStep(c, s, s', t, One(cmd))
    requires P.OneKey(cmd) && Harmless(post)
    ensures |s'.threads| == |s.threads| && Plain(s'.threads[t].cont) && s.now <= s'.now
    ensures var tk := Span(s.now, s'.now);
            Effect(c, SpaceOf(s'), s'.threads[t].cont)
            == Space(Exec(s.flat, cmd, tk, c.maxLen).m, s.heap + Handed(s.flat, cmd, tk, c.maxLen))
    ensures s'.hist == s.hist + [Atom(cmd, Span(s.now, s'.now))]
  {
    hide Exec, Effect, Plain, Harmless, PushCode, Handed;
    var tk := Span(s.now, s'.now);
    var push := PushCode(s.flat, cmd, tk, c.maxLen);
    assert ([Do(One(cmd))] + post)[1..] == post;
    PushEffect(c, SpaceOf(s'), s.flat, cmd, tk);
    HarmlessEffect(c, Effect(c, SpaceOf(s'), push), post);
    EffectAppend(c, SpaceOf(s'), push, post);
    PlainAppend(push, post);
  }

  /** A single-key operation is one execution of its command, and a deadline that it
      sets is in the heap when it is over. */
  lemma KeyAlone(c: Config, s: Sys, ss: seq<Sys>, t: nat, cmd: Cmd, logged: Option<seq<Cmd>>) returns (a: int, b: int)
    requires WellConfigured(c) && Alone(c, s, ss, t, [OpKey(cmd)], logged)
    ensures P.OneKey(cmd) && s.now <= a <= b <= ss[|ss| - 1].now
    ensures SpaceOf(ss[|ss| - 1])
         == Space(Exec(s.flat, cmd, Span(a, b), c.maxLen).m, s.heap + Handed(s.flat, cmd, Span(a, b), c.maxLen))
    ensures ss[|ss| - 1].hist == s.hist + [Atom(cmd, Span(a, b))]
  {
    hide Effect, Plain, Steps, Start, ActStep, Reachable, AllIdle, InTime, FoldOn, SameView, Harmless, Exec, Handed;
    assert Proper([OpKey(cmd)][0]);
    AloneCode(c, s, ss[0], t, OpKey(cmd), logged);
    AfterHarmless(logged);
    var l := Shard(c, cmd.key);
    var pre, post := Before(logged) + [Acquire(l)], [Release(l)] + After(logged);
    assert Before(logged) + Code(c, OpKey(cmd)) + After(logged) == pre + [Do(One(cmd))] + post;
    PostHarmless(l, After(logged));
    var p := FirstAction(c, ss, t, pre, One(cmd), post);
    a, b := ss[p].now, ss[p + 1].now;
    KeyActs(c, ss[p], ss[p + 1], t, cmd, post);
    StepsTail(c, ss, t, p + 1);
    PlainRun(c, ss[p + 1..], t);
    NowBetween(c, ss, t, p);
    NowBetween(c, ss, t, p + 1);
    var atoms := AloneOutcome(c, s, ss, t, [OpKey(cmd)], logged);
    OneOp(OpKey(cmd), atoms);
    AloneGrows(c, s, ss, t, [OpKey(cmd)], logged, p + 1);
  }

  lemma PostHarmless(l: Lock, after: seq<Instr>)
    requires Harmless(after)
    ensures Harmless([Release(l)] + after)
  {
  }

  lemma AloneGrows(c: Config, s: Sys, ss: seq<Sys>, t: nat, ops: seq<Op>, logged: Option<seq<Cmd>>, p: nat)
    requires WellConfigured(c) && Alone(c, s, ss, t, ops, logged) && p < |ss|
    ensures ss[p].hist <= ss[|ss| - 1].hist
  {
    hide Inv, Moves, Owed, InTime, Reachable, Codes, LoggedCode;
    ReachableInv(c, s);
    StartInv(c, s, ss[0], t, ops, logged);
    var before := StepsPay(c, ss, t, p);
    StepsTail(c, ss, t, p);
    var after := StepsPay(c, ss[p..], t, |ss| - 1 - p);
  }

  // -------------------------------------------------------------------- batches

  /** Code that leaves the heap alone. */
  ghost predicate NoHeap(code: seq<Instr>) {
    forall j :: 0 <= j < |code| && code[j].Do? ==>
      !code[j].a.One? && !code[j].a.Push? && !code[j].a.PopDue? && !code[j].a.ResetHeap?
  }

  lemma NoHeapStep(c: Config, s: Sys, s': Sys, t: nat)
    requires t < |s.threads| && Moves(c, s, s', t) && NoHeap(s.threads[t].cont)
    ensures |s'.threads| == |s.threads| && NoHeap(s'.threads[t].cont) && s'.heap == s.heap
  {
    hide ActStep;
    if Step(c, s, s', t) && s.threads[t].cont[0].Do? { NoHeapAct(c, s, s', t, s.threads[t].cont[0].a); }
  }

  lemma NoHeapAct(c: Config, s: Sys, s': Sys, t: nat, a: Action)
    requires Unfinished(s, t) && s.threads[t].cont[0] == Do(a) && ActStep(c, s, s', t, a) && NoHeap(s.threads[t].cont)
    ensures |s'.threads| == |s.threads| && NoHeap(s'.threads[t].cont) && s'.heap == s.heap
  {
    hide ProbeStep, Exec;
    if a.Probe? { NoHeapProbe(c, s, s', t, a.pairs, a.i); }
  }

  lemma NoHeapProbe(c: Config, s: Sys, s': Sys, t: nat, pairs: seq<Pair>, i: nat)
    requires Unfinished(s, t) && ProbeStep(c, s, s', t, pairs, i) && NoHeap(s.threads[t].cont)
    ensures |s'.threads| == |s.threads| && NoHeap(s'.threads[t].cont) && s'.heap == s.heap
  {
  }

  lemma {:induction false} NoHeapRun(c: Config, ss: seq<Sys>, t: nat)
    requires ss != [] && Steps(c, ss, t) && t < |ss[0].threads| && NoHeap(ss[0].threads[t].cont)
    ensures ss[|ss| - 1].heap == ss[0].heap
    decreases |ss|
  {
    hide NoHeap, Moves;
    if |ss| > 1 {
      assert Moves(c, ss[0], ss[0 + 1], t);
      NoHeapStep(c, ss[0], ss[1], t);
      StepsTail(c, ss, t, 1);
      NoHeapRun(c, ss[1..], t);
    }
  }

  lemma BatchNoHeap(c: Config, pairs: seq<Pair>, logged: Option<seq<Cmd>>)
    ensures NoHeap(Before(logged) + Code(c, OpBatch(pairs)) + After(logged))
  {
    hide LockAll, UnlockAll, Slots, After, Before;
    AfterHarmless(logged);
    LocksUntouched(Slots(c, pairs), 0, c.n);
    UnlocksUntouched(Slots(c, pairs), c.n);
  }

  /** MSETNX decides at one moment: nothing changes for clients if one of its keys is
      live then, and otherwise all pairs are written. */
  lemma BatchAlone(c: Config, s: Sys, ss: seq<Sys>, t: nat, pairs: seq<Pair>, logged: Option<seq<Cmd>>)
    returns (at: int)
    requires WellConfigured(c) && Alone(c, s, ss, t, [OpBatch(pairs)], logged)
    ensures s.now <= at <= ss[|ss| - 1].now && ss[|ss| - 1].heap == s.heap
    ensures var taken := exists i :: 0 <= i < |pairs| && Live(s.flat, pairs[i].0, at).Some?;
            SameView(ss[|ss| - 1].flat, if taken then s.flat else PutAll(s.flat, pairs), ss[|ss| - 1].now)
    ensures if pairs == [] then ss[|ss| - 1].hist == s.hist
            else exists tk :: ss[|ss| - 1].hist == s.hist + [Atom(MSetNX(pairs), tk)]
  {
    hide Steps, Start, Reachable, AllIdle, SameView, Harmless, NoHeap, Code;
    AloneCode(c, s, ss[0], t, OpBatch(pairs), logged);
    BatchNoHeap(c, pairs, logged);
    NoHeapRun(c, ss, t);
    var atoms := AloneOutcome(c, s, ss, t, [OpBatch(pairs)], logged);
    OneOp(OpBatch(pairs), atoms);
    if pairs == [] {
      at := s.now;
      assert PutAll(s.flat, []) == s.flat && s.hist + [] == s.hist;
      InTimeRange(atoms, s.now, ss[|ss| - 1].now);
    } else {
      at := atoms[0].tk.check(0);
      assert atoms == [Atom(MSetNX(pairs), atoms[0].tk)];
      BatchDecides(s.flat, atoms, pairs, s.now, ss[|ss| - 1].now, c.maxLen);
    }
  }

  lemma BatchDecides(m: Flat, atoms: seq<Atom>, pairs: seq<Pair>, from: int, upto: int, maxLen: int)
    requires |atoms| == 1 && atoms[0].cmd == MSetNX(pairs) && InTime(atoms, from, upto)
    ensures var at := atoms[0].tk.check(0);
            from <= at <= upto &&
            FoldOn(m, atoms, maxLen) == if exists i :: 0 <= i < |pairs| && Live(m, pairs[i].0, at).Some?
                                        then m else PutAll(m, pairs)
  {
    hide PutAll;
    var at, tk := atoms[0].tk.check(0), atoms[0].tk;
    assert atoms[..0] == [];
    assert FoldOn(m, atoms, maxLen) == Exec(m, MSetNX(pairs), tk, maxLen).m;
    assert tk == Span(at, tk.write);
    assert forall i :: 0 <= i < |pairs| ==> Sample(tk.check, |pairs|)[i] == at;
  }
}
