/** Logged writes under concurrency. Every write command runs under writeMu,
    from before it touches the store until its records are in the log; readers
    that purge and the sweeper run at any time. Operations of the store are
    single steps here. Whenever no thread holds writeMu, the log is exactly the
    log of a sequential run of commands, and the store looks as that run left
    it. */
module LogOrder {
  import opened Basics
  import opened TimedMap
  import opened Command
  import opened Replay
  import opened History
  import P = Persist

  ghost function LogOf(hist: seq<Atom>, maxLen: int): seq<Cmd> {
    if hist == [] then []
    else
      var d := hist[|hist| - 1];
      var front := hist[..|hist| - 1];
      LogOf(front, maxLen) + Exec(Fold(front, maxLen), d.cmd, d.tk, maxLen).log
  }

  /** Where a client's write command stands. From `Entered` to `Logging` the
      thread holds writeMu. */
  datatype Phase =
    | Idle
    | Waiting(cmd: Cmd)
    | Entered(cmd: Cmd)
    | Deleting(keys: seq<Bytes>, ts: seq<int>, n: nat)        // a DEL after |ts| keys, n of them live
    | Writing(pairs: seq<Pair>, i: nat, start: int)           // an MSET after i pairs
    | Mutated(cmd: Cmd, check: int, write: int, pre: Flat)    // store done, log reading to come
    | Logging(cmd: Cmd, tk: Ticks, recs: seq<Cmd>, i: nat)    // i records appended

  datatype Sys = Sys(now: int, flat: Flat, log: seq<Cmd>, threads: seq<Phase>, hist: seq<Atom>)

  predicate Holds(p: Phase) {
    !p.Idle? && !p.Waiting?
  }

  ghost predicate Unlocked(s: Sys) {
    forall t :: 0 <= t < |s.threads| ==> !Holds(s.threads[t])
  }

  function Put(s: Sys, t: nat, p: Phase): Sys
    requires t < |s.threads|
  {
    s.(threads := s.threads[t := p])
  }

  /** The readings of a DEL or MSET: one per key, then one for the rest. */
  function Readings(ts: seq<int>, last: int): Ticks {
    Ticks((i: nat) => if i < |ts| then ts[i] else last, last, last)
  }

  function Shot(check: int, write: int, stamp: int): Ticks {
    Ticks(_ => check, write, stamp)
  }

  // ------------------------------------------------------------------- steps

  ghost predicate Step(s: Sys, s': Sys, t: nat, maxLen: int) {
    t < |s.threads| &&
    match s.threads[t]
    case Idle => exists cmd :: WellFormed(cmd) && s' == Put(s, t, Waiting(cmd))
    case Waiting(cmd) => Unlocked(s) && s' == Put(s, t, Entered(cmd))
    case Entered(cmd) =>
      (match cmd
       case Del(keys) => s' == Put(s, t, Deleting(keys, [], 0))
       case MSet(pairs) => s' == Put(s, t, Writing(pairs, 0, s.now))
       case _ =>
         s.now <= s'.now < TWO63 &&
         s' == Put(s, t, Mutated(cmd, s.now, s'.now, s.flat))
               .(now := s'.now, flat := Exec(s.flat, cmd, Shot(s.now, s'.now, s'.now), maxLen).m))
    case Deleting(keys, ts, n) =>
      if |ts| < |keys| then
        var k := keys[|ts|];
        s' == Put(s, t, Deleting(keys, ts + [s.now], n + if Live(s.flat, k, s.now).Some? then 1 else 0))
              .(flat := s.flat - {k})
      else s' == Put(s, t, Logging(Del(keys), Readings(ts, s.now), if n > 0 then [Del(keys)] else [], 0))
    case Writing(pairs, i, start) =>
      if i < |pairs| then
        s' == Put(s, t, Writing(pairs, i + 1, start)).(flat := s.flat[pairs[i].0 := Entry(pairs[i].1, 0)])
      else s' == Put(s, t, Logging(MSet(pairs), Shot(start, s.now, s.now), [MSet(pairs)], 0))
    case Mutated(cmd, check, write, pre) =>
      var tk := Shot(check, write, s.now);
      s' == Put(s, t, Logging(cmd, tk, Exec(pre, cmd, tk, maxLen).log, 0))
    case Logging(cmd, tk, recs, i) =>
      if i < |recs| then s' == Put(s, t, Logging(cmd, tk, recs, i + 1)).(log := s.log + [recs[i]])
      else s' == Put(s, t, Idle).(hist := s.hist + [Atom(cmd, tk)])
  }

  /** Readers and the sweeper remove entries that have expired, and time passes. */
  ghost predicate Environment(s: Sys, s': Sys) {
    s.now <= s'.now < TWO63 && s' == s.(now := s'.now, flat := s'.flat) &&
    (forall k :: k in s'.flat ==> k in s.flat && s'.flat[k] == s.flat[k]) &&
    forall k :: k in s.flat && k !in s'.flat ==> Expired(s.flat[k], s.now)
  }

  ghost predicate Next(s: Sys, s': Sys, maxLen: int) {
    Environment(s, s') || exists t :: Step(s, s', t, maxLen)
  }

  ghost predicate Init(s: Sys) {
    0 <= s.now < TWO63 && s.flat == map[] && s.log == [] && s.hist == [] &&
    forall t :: 0 <= t < |s.threads| ==> s.threads[t].Idle?
  }

  ghost predicate Run(ss: seq<Sys>, maxLen: int) {
    ss != [] && Init(ss[0]) && forall i :: 0 <= i < |ss| - 1 ==> Next(ss[i], ss[i + 1], maxLen)
  }

  // --------------------------------------------------------------- invariant

  ghost predicate Mutex(s: Sys) {
    forall t, u :: 0 <= t < |s.threads| && 0 <= u < |s.threads| && t != u && Holds(s.threads[t]) ==>
      !Holds(s.threads[u])
  }

  /** How the store and the log relate to the sequential run while the command of
      phase p is under way. */
  ghost predicate Tracks(s: Sys, p: Phase, maxLen: int) {
    var base, log := Fold(s.hist, maxLen), LogOf(s.hist, maxLen);
    match p
    case Deleting(keys, ts, n) =>
      |ts| <= |keys| && |keys| >= 1 && Ascending(ts, s.now) && s.log == log &&
      SameView(s.flat, DelAll(base, keys[..|ts|]), s.now) && n == DelCount(base, keys[..|ts|], ts)
    case Writing(pairs, i, start) =>
      i <= |pairs| && 0 <= start <= s.now && s.log == log && SameView(s.flat, PutAll(base, pairs[..i]), s.now)
    case Mutated(cmd, check, write, pre) =>
      0 <= check <= write <= s.now && s.log == log && SameView(pre, base, check) &&
      SameView(s.flat, Exec(base, cmd, Shot(check, write, write), maxLen).m, s.now)
    case Logging(cmd, tk, recs, i) =>
      WellTicked(tk) && tk.stamp <= s.now && i <= |recs| && recs == Exec(base, cmd, tk, maxLen).log &&
      s.log == log + recs[..i] && SameView(s.flat, Exec(base, cmd, tk, maxLen).m, s.now)
    case _ => s.log == log && SameView(s.flat, base, s.now)
  }

  ghost predicate Ascending(ts: seq<int>, now: int) {
    (forall i, j :: 0 <= i <= j < |ts| ==> ts[i] <= ts[j]) && forall i :: 0 <= i < |ts| ==> 0 <= ts[i] <= now
  }

  ghost predicate WaitsWell(p: Phase) {
    (p.Waiting? || p.Entered? ==> WellFormed(p.cmd))
  }

  ghost predicate Inv(s: Sys, maxLen: int) {
    0 <= s.now < TWO63 && Mutex(s) && (forall t :: 0 <= t < |s.threads| ==> WaitsWell(s.threads[t])) &&
    (forall t :: 0 <= t < |s.threads| && Holds(s.threads[t]) ==> Tracks(s, s.threads[t], maxLen)) &&
    (Unlocked(s) ==> Tracks(s, Idle, maxLen))
  }

  // ------------------------------------------------------------- preservation

  lemma PurgedView(a: Flat, b: Flat, t: int, u: int)
    requires t <= u && (forall k :: k in b ==> k in a && b[k] == a[k])
    requires forall k :: k in a && k !in b ==> Expired(a[k], t)
    ensures SameView(b, a, u)
  {
  }

  /** Reads, sweeps and the passing of time are invisible. */
  lemma EnvironmentTracks(s: Sys, s': Sys, p: Phase, maxLen: int)
    requires Environment(s, s') && Tracks(s, p, maxLen)
    ensures Tracks(s', p, maxLen)
  {
    hide Fold, LogOf, Exec, SameView, Expired;
    PurgedView(s.flat, s'.flat, s.now, s'.now);
    var base := Fold(s.hist, maxLen);
    var ref := match p
      case Deleting(keys, ts, n) => DelAll(base, keys[..|ts|])
      case Writing(pairs, i, _) => PutAll(base, pairs[..i])
      case Mutated(cmd, check, write, pre) => Exec(base, cmd, Shot(check, write, write), maxLen).m
      case Logging(cmd, tk, _, _) => Exec(base, cmd, tk, maxLen).m
      case _ => base;
    SameViewLater(s.flat, ref, s.now, s'.now);
    SameViewTrans(s'.flat, s.flat, ref, s'.now);
  }

  lemma EnvironmentInv(s: Sys, s': Sys, maxLen: int)
    requires Inv(s, maxLen) && Environment(s, s')
    ensures Inv(s', maxLen)
  {
    hide Tracks;
    forall t | 0 <= t < |s.threads| && Holds(s.threads[t]) ensures Tracks(s', s'.threads[t], maxLen) {
      EnvironmentTracks(s, s', s.threads[t], maxLen);
    }
    if Unlocked(s') { EnvironmentTracks(s, s', Idle, maxLen); }
  }

  /** The store part of the contents does not depend on the log reading. */
  lemma StampIrrelevant(m: Flat, cmd: Cmd, check: int, write: int, a: int, b: int, maxLen: int)
    ensures Exec(m, cmd, Shot(check, write, a), maxLen).m == Exec(m, cmd, Shot(check, write, b), maxLen).m
  {
    if cmd.Exists? || cmd.Del? {
      assert Sample(Shot(check, write, a).check, |cmd.keys|) == Sample(Shot(check, write, b).check, |cmd.keys|);
    }
    if cmd.MSetNX? {
      assert Sample(Shot(check, write, a).check, |cmd.pairs|) == Sample(Shot(check, write, b).check, |cmd.pairs|);
    }
    if cmd.ExpireIn? {
      assert Sample(Shot(check, write, a).check, 1) == Sample(Shot(check, write, b).check, 1);
    }
  }

  lemma MutateTracks(s: Sys, s': Sys, t: nat, cmd: Cmd, maxLen: int)
    requires t < |s.threads| && s.threads[t] == Entered(cmd) && !cmd.Del? && !cmd.MSet?
    requires 0 <= s.now && Tracks(s, s.threads[t], maxLen) && Step(s, s', t, maxLen)
    ensures Tracks(s', s'.threads[t], maxLen)
  {
    var base, tk := Fold(s.hist, maxLen), Shot(s.now, s'.now, s'.now);
    P.ExecCongruence(s.flat, base, cmd, tk, maxLen);
  }

  lemma StampTracks(s: Sys, s': Sys, t: nat, maxLen: int)
    requires t < |s.threads| && s.threads[t].Mutated? && 0 <= s.now < TWO63
    requires Tracks(s, s.threads[t], maxLen) && Step(s, s', t, maxLen)
    ensures Tracks(s', s'.threads[t], maxLen)
  {
    var Mutated(cmd, check, write, pre) := s.threads[t];
    var base, tk := Fold(s.hist, maxLen), Shot(check, write, s.now);
    P.ExecCongruence(pre, base, cmd, tk, maxLen);
    StampIrrelevant(base, cmd, check, write, write, s.now, maxLen);
    hide Fold, Exec;
  }

  lemma DeleteTracks(s: Sys, s': Sys, t: nat, maxLen: int)
    requires t < |s.threads| && s.threads[t].Deleting? && |s.threads[t].ts| < |s.threads[t].keys| && 0 <= s.now
    requires Tracks(s, s.threads[t], maxLen) && Step(s, s', t, maxLen)
    ensures Tracks(s', s'.threads[t], maxLen)
  {
    hide Fold, LogOf, SameView, DelAll, DelCount;
    var Deleting(keys, ts, n) := s.threads[t];
    DeleteNext(s.flat, Fold(s.hist, maxLen), keys, ts, s.now);
  }

  /** Deleting the next key keeps the store and the count in step. */
  lemma DeleteNext(flat: Flat, base: Flat, keys: seq<Bytes>, ts: seq<int>, now: int)
    requires |ts| < |keys| && SameView(flat, DelAll(base, keys[..|ts|]), now)
    ensures SameView(flat - {keys[|ts|]}, DelAll(base, keys[..|ts| + 1]), now)
    ensures DelCount(base, keys[..|ts| + 1], ts + [now])
         == DelCount(base, keys[..|ts|], ts) + if Live(flat, keys[|ts|], now).Some? then 1 else 0
  {
    var i := |ts|;
    assert keys[..i + 1][..i] == keys[..i];
    DelCountExtend(base, keys[..i], ts, ts + [now]);
    var before := DelAll(base, keys[..i]);
    assert Live(flat, keys[i], now) == Live(before, keys[i], now);
    SameViewUpdate(flat, before, keys[i], None, now);
  }

  lemma {:induction false} DelCountExtend(m: Flat, keys: seq<Bytes>, ts: seq<int>, us: seq<int>)
    requires |keys| <= |ts| && ts <= us
    ensures DelCount(m, keys, ts) == DelCount(m, keys, us)
  {
    if keys != [] { DelCountExtend(m, keys[..|keys| - 1], ts, us); }
  }

  lemma DeletedTracks(s: Sys, s': Sys, t: nat, maxLen: int)
    requires t < |s.threads| && s.threads[t].Deleting? && |s.threads[t].ts| >= |s.threads[t].keys|
    requires 0 <= s.now < TWO63 && Tracks(s, s.threads[t], maxLen) && Step(s, s', t, maxLen)
    ensures Tracks(s', s'.threads[t], maxLen)
  {
    var Deleting(keys, ts, n) := s.threads[t];
    var tk := Readings(ts, s.now);
    hide Fold, LogOf, SameView;
    assert keys[..|ts|] == keys;
    assert Sample(tk.check, |keys|) == ts;
  }

  lemma SetTracks(s: Sys, s': Sys, t: nat, maxLen: int)
    requires t < |s.threads| && s.threads[t].Writing? && 0 <= s.now < TWO63
    requires Tracks(s, s.threads[t], maxLen) && Step(s, s', t, maxLen)
    ensures Tracks(s', s'.threads[t], maxLen)
  {
    var Writing(pairs, i, start) := s.threads[t];
    var base := Fold(s.hist, maxLen);
    hide Fold, LogOf;
    if i < |pairs| {
      assert pairs[..i + 1][..i] == pairs[..i];
      SameViewUpdate(s.flat, PutAll(base, pairs[..i]), pairs[i].0, Some(Entry(pairs[i].1, 0)), s.now);
    } else {
      assert pairs[..i] == pairs;
    }
  }

  lemma LogTracks(s: Sys, s': Sys, t: nat, maxLen: int)
    requires t < |s.threads| && s.threads[t].Logging? && s.threads[t].i < |s.threads[t].recs|
    requires Tracks(s, s.threads[t], maxLen) && Step(s, s', t, maxLen)
    ensures Tracks(s', s'.threads[t], maxLen)
  {
    hide Fold, LogOf, Exec, SameView;
    var recs, i := s.threads[t].recs, s.threads[t].i;
    assert recs[..i + 1] == recs[..i] + [recs[i]];
  }

  /** Leaving writeMu: the command joins the sequential run. */
  lemma LeaveTracks(s: Sys, s': Sys, t: nat, maxLen: int)
    requires t < |s.threads| && s.threads[t].Logging? && s.threads[t].i >= |s.threads[t].recs|
    requires Tracks(s, s.threads[t], maxLen) && Step(s, s', t, maxLen)
    ensures Tracks(s', Idle, maxLen)
  {
    hide Exec, SameView;
    var Logging(cmd, tk, recs, i) := s.threads[t];
    assert s'.hist[..|s.hist|] == s.hist;
    assert recs[..i] == recs;
  }

  lemma StepTracks(s: Sys, s': Sys, t: nat, maxLen: int)
    requires Inv(s, maxLen) && Step(s, s', t, maxLen)
    ensures |s'.threads| == |s.threads| && s'.threads == s.threads[t := s'.threads[t]] && 0 <= s'.now < TWO63
    ensures WaitsWell(s'.threads[t])
    ensures Holds(s'.threads[t]) ==> Tracks(s', s'.threads[t], maxLen)
    ensures Holds(s.threads[t]) && !Holds(s'.threads[t]) ==> Tracks(s', Idle, maxLen)
    ensures !Holds(s.threads[t]) && Holds(s'.threads[t]) ==> Unlocked(s)
    ensures !Holds(s.threads[t]) ==> s' == s.(threads := s'.threads)
  {
    hide Tracks, Exec, Fold, LogOf;
    assert WaitsWell(s.threads[t]);
    match s.threads[t]
    case Idle =>
    case Waiting(cmd) => EnterTracks(s, s', t, cmd, maxLen);
    case Entered(cmd) =>
      if cmd.Del? || cmd.MSet? { BeginTracks(s, s', t, cmd, maxLen); } else { MutateTracks(s, s', t, cmd, maxLen); }
    case Deleting(keys, ts, _) =>
      if |ts| < |keys| { DeleteTracks(s, s', t, maxLen); } else { DeletedTracks(s, s', t, maxLen); }
    case Writing(_, _, _) => SetTracks(s, s', t, maxLen);
    case Mutated(_, _, _, _) => StampTracks(s, s', t, maxLen);
    case Logging(_, _, recs, i) =>
      if i < |recs| { LogTracks(s, s', t, maxLen); } else { LeaveTracks(s, s', t, maxLen); }
  }

  lemma EnterTracks(s: Sys, s': Sys, t: nat, cmd: Cmd, maxLen: int)
    requires t < |s.threads| && s.threads[t] == Waiting(cmd) && Inv(s, maxLen) && Step(s, s', t, maxLen)
    ensures Tracks(s', s'.threads[t], maxLen)
  {
  }

  lemma BeginTracks(s: Sys, s': Sys, t: nat, cmd: Cmd, maxLen: int)
    requires t < |s.threads| && s.threads[t] == Entered(cmd) && (cmd.Del? || cmd.MSet?) && WellFormed(cmd)
    requires 0 <= s.now && Tracks(s, s.threads[t], maxLen) && Step(s, s', t, maxLen)
    ensures Tracks(s', s'.threads[t], maxLen)
  {
    var base := Fold(s.hist, maxLen);
    hide Fold, LogOf, SameView;
    if cmd.Del? {
      assert cmd.keys[..0] == [];
    } else {
      assert cmd.pairs[..0] == [];
    }
  }

  lemma StepInv(s: Sys, s': Sys, t: nat, maxLen: int)
    requires Inv(s, maxLen) && Step(s, s', t, maxLen)
    ensures Inv(s', maxLen)
  {
    StepTracks(s, s', t, maxLen);
    hide Tracks, Step;
    forall u | 0 <= u < |s.threads| && u != t ensures s'.threads[u] == s.threads[u] {}
    if !Holds(s.threads[t]) && !Holds(s'.threads[t]) {
      QuietTracks(s, s', maxLen);
    }
  }

  lemma QuietTracks(s: Sys, s': Sys, maxLen: int)
    requires s' == s.(threads := s'.threads)
    ensures forall p :: Tracks(s', p, maxLen) <==> Tracks(s, p, maxLen)
  {
  }

  lemma {:induction false} RunInv(ss: seq<Sys>, i: nat, maxLen: int)
    requires Run(ss, maxLen) && i < |ss|
    ensures Inv(ss[i], maxLen)
  {
    hide Environment, Step, Inv;
    if i == 0 {
      InitInv(ss[0], maxLen);
    } else {
      RunInv(ss, i - 1, maxLen);
      assert Next(ss[i - 1], ss[i], maxLen);
      if Environment(ss[i - 1], ss[i]) {
        EnvironmentInv(ss[i - 1], ss[i], maxLen);
      } else {
        var t :| Step(ss[i - 1], ss[i], t, maxLen);
        StepInv(ss[i - 1], ss[i], t, maxLen);
      }
    }
  }

  lemma InitInv(s: Sys, maxLen: int)
    requires Init(s)
    ensures Inv(s, maxLen)
  {
  }

  // ---------------------------------------------------------------- theorems

  /** Whenever no thread is inside writeMu, the log is that of a sequential run of
      the commands in the order in which they were logged, and the store looks as
      that run left it. */
  lemma LogIsSequential(ss: seq<Sys>, i: nat, maxLen: int)
    requires Run(ss, maxLen) && i < |ss| && Unlocked(ss[i])
    ensures ss[i].log == LogOf(ss[i].hist, maxLen)
    ensures SameView(ss[i].flat, Fold(ss[i].hist, maxLen), ss[i].now)
  {
    hide Run, Fold, LogOf;
    RunInv(ss, i, maxLen);
  }

  /** The same commands as events of the replay theorem, with the reading at which
      each is replayed. */
  function Events(hist: seq<Atom>, rs: seq<int>): (evs: seq<Event>)
    requires |rs| == |hist|
    ensures |evs| == |hist|
  {
    seq(|hist|, i requires 0 <= i < |hist| => Event(hist[i].cmd, hist[i].tk, rs[i]))
  }

  lemma {:induction false} FoldIsLive(hist: seq<Atom>, rs: seq<int>, maxLen: int)
    requires |rs| == |hist|
    ensures Fold(hist, maxLen) == LiveMap(Events(hist, rs), maxLen)
  {
    if hist != [] {
      var n := |hist| - 1;
      FoldIsLive(hist[..n], rs[..n], maxLen);
      assert Events(hist, rs)[..n] == Events(hist[..n], rs[..n]);
    }
  }

  /** A server with many clients that stops while no write is under way: replaying
      its log gives back what its clients saw if and only if the crash after the
      last command is one to recover from, and so if every command met its guard. */
  lemma ConcurrentRecovery(ss: seq<Sys>, i: nat, rs: seq<int>, st: Setting, maxLen: int)
    requires Run(ss, maxLen) && i < |ss| && Unlocked(ss[i]) && ss[i].hist != [] && |rs| == |ss[i].hist|
    requires TimelyRun(Events(ss[i].hist, rs), st) && ss[i].now <= rs[|rs| - 1]
    ensures InStep(ss[i].flat, ReplayMap(Events(ss[i].hist, rs), maxLen), rs[|rs| - 1], st) <==>
            RecoveredAt(Events(ss[i].hist, rs), |rs| - 1, st, maxLen)
    ensures (forall j :: 0 <= j < |rs| ==> GuardedAt(Events(ss[i].hist, rs), j, st, maxLen)) ==>
            InStep(ss[i].flat, ReplayMap(Events(ss[i].hist, rs), maxLen), rs[|rs| - 1], st)
  {
    hide Run, Unlocked, GuardedAt, TimelyRun, LiveMap, ReplayMap, Fold, Kept;
    var s, n := ss[i], |rs| - 1;
    var evs, r := Events(s.hist, rs), rs[n];
    LogIsSequential(ss, i, maxLen);
    FoldIsLive(s.hist, rs, maxLen);
    assert evs[..n + 1] == evs;
    SameViewLater(s.flat, Fold(s.hist, maxLen), s.now, r);
    forall k ensures Live(s.flat, k, r) == Live(LiveMap(evs, maxLen), k, r) {
      assert Live(s.flat, k, r) == Live(Fold(s.hist, maxLen), k, r);
    }
    if forall j :: 0 <= j < |rs| ==> GuardedAt(evs, j, st, maxLen) {
      GuardedPrefix(evs, n, st, maxLen);
    }
  }
}
