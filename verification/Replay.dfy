/** Replaying the log rebuilds the store. The live server runs commands against
    a moving clock and logs rewritten forms of them; after a restart the log is
    executed against a later clock. The two stores agree on what a client sees,
    key by key, exactly as long as every logged command meets its guard. */
module Replay {
  import opened Basics
  import opened TimedMap
  import opened Command

  // ---------------------------------------------------------------- relation

  /** What is fixed for a run: the clock readings that the replay takes, whether
      deadlines survive exactly, and otherwise how far the reading for the log
      may lag behind the reading for the store. */
  datatype Setting = Setting(readings: iset<int>, exact: bool, lag: int)

  ghost predicate SameSide(a: int, b: int, readings: iset<int>) {
    forall f :: f in readings ==> (a <= f <==> b <= f)
  }

  /** The same for the readings from r on. */
  ghost predicate SameSideFrom(a: int, b: int, r: int, readings: iset<int>) {
    forall f :: f in readings && r <= f ==> (a <= f <==> b <= f)
  }

  /** a is a live deadline, b what became of it after a restart. */
  ghost predicate DeadlineKept(a: int, b: int, st: Setting) {
    (a == 0 <==> b == 0) &&
    (st.exact ==> a == b) &&
    (a != 0 ==> a - MILLISECOND < b <= a + st.lag && SameSide(a, b, st.readings))
  }

  ghost predicate Kept(a: Option<Entry>, b: Option<Entry>, st: Setting) {
    (a.Some? <==> b.Some?) &&
    (a.Some? ==> a.value.val == b.value.val && DeadlineKept(a.value.expireAt, b.value.expireAt, st))
  }

  /** At time r a client sees the same keys and values in both stores, with the
      deadlines kept. */
  ghost predicate InStep(m: Flat, p: Flat, r: int, st: Setting) {
    forall k :: Kept(Live(m, k, r), Live(p, k, r), st)
  }

  function Alive(o: Option<Entry>, r: int): Option<Entry> {
    if o.Some? && !Expired(o.value, r) then o else None
  }

  lemma InStepAt(m: Flat, p: Flat, k: Bytes, r: int, st: Setting)
    requires InStep(m, p, r, st)
    ensures Kept(Live(m, k, r), Live(p, k, r), st)
  {
  }

  lemma InStepUpdate(m: Flat, p: Flat, k: Bytes, a: Option<Entry>, b: Option<Entry>, r: int, st: Setting)
    requires InStep(m, p, r, st)
    ensures InStep(Update(m, k, a), Update(p, k, b), r, st) <==> Kept(Alive(a, r), Alive(b, r), st)
  {
    assert Live(Update(m, k, a), k, r) == Alive(a, r);
    assert Live(Update(p, k, b), k, r) == Alive(b, r);
    if Kept(Alive(a, r), Alive(b, r), st) {
      forall j ensures Kept(Live(Update(m, k, a), j, r), Live(Update(p, k, b), j, r), st) {
        assert Kept(Live(m, j, r), Live(p, j, r), st);
      }
    }
  }

  /** Two stores in step stay in step as the replay clock advances. */
  lemma InStepLater(m: Flat, p: Flat, r: int, u: int, st: Setting)
    requires InStep(m, p, r, st) && r <= u && u in st.readings
    ensures InStep(m, p, u, st)
  {
    forall k ensures Kept(Live(m, k, u), Live(p, k, u), st) {
      assert Kept(Live(m, k, r), Live(p, k, r), st);
    }
  }

  /** With exact deadlines, being in step is looking the same. */
  lemma ExactInStep(m: Flat, p: Flat, r: int, st: Setting)
    requires st.exact && InStep(m, p, r, st)
    ensures SameView(m, p, r)
  {
    forall k ensures Live(m, k, r) == Live(p, k, r) {
      assert Kept(Live(m, k, r), Live(p, k, r), st);
    }
  }

  // -------------------------------------------------------------- rewriting

  /** The deadline that a replayed PEXPIREAT sets for a time written at t. */
  function Logged(t: int): int {
    Wrap64(UnixMilli(t) * MILLISECOND)
  }

  /** A relative TTL d, turned into a deadline at `write` and into a log record
      at `stamp`: the replayed deadline is less than a millisecond early and no
      later than the lag between the readings, and a TTL of a millisecond or
      more still lies ahead of the second reading. */
  lemma DeadlineRewriting(write: int, stamp: int, d: int)
    requires 0 <= write <= stamp && 0 < d && stamp + d < TWO63
    ensures write + d - MILLISECOND < Logged(stamp + d) <= write + d + (stamp - write)
    ensures d >= MILLISECOND ==> stamp < Logged(stamp + d)
    ensures stamp + d >= MILLISECOND ==> Logged(stamp + d) != 0
    ensures write == stamp && (stamp + d) % MILLISECOND == 0 ==> Logged(stamp + d) == write + d
  {
  }

  /** EXPIREAT in seconds, logged in milliseconds, comes back as the very same
      deadline, even when the multiplications wrap. */
  lemma ExpireAtRewriting(secs: int)
    ensures Wrap64(Wrap64(secs * 1000) * MILLISECOND) == Wrap64(secs * SECOND)
  {
    WrapScale(secs * 1000, MILLISECOND);
    assert secs * 1000 * MILLISECOND == secs * SECOND;
  }

  // ------------------------------------------------------------------ replay

  /** All readings of a command executed at r. */
  function At(r: int): Ticks { Ticks(_ => r, r, r) }

  /** The records of one command, executed one after the other at r. */
  ghost function ReplayRecords(p: Flat, log: seq<Cmd>, r: int, maxLen: int): Flat {
    if log == [] then p
    else Exec(ReplayRecords(p, log[..|log| - 1], r, maxLen), log[|log| - 1], At(r), maxLen).m
  }

  lemma ReplayOne(p: Flat, c: Cmd, r: int, maxLen: int)
    ensures ReplayRecords(p, [c], r, maxLen) == Exec(p, c, At(r), maxLen).m
  {
    assert [c][..0] == [];
    assert ReplayRecords(p, [], r, maxLen) == p;
  }

  lemma ReplayTwo(p: Flat, c: Cmd, d: Cmd, r: int, maxLen: int)
    ensures ReplayRecords(p, [c, d], r, maxLen) == Exec(Exec(p, c, At(r), maxLen).m, d, At(r), maxLen).m
  {
    assert [c, d][..1] == [c];
    ReplayOne(p, c, r, maxLen);
  }

  /** A client's command, when it ran, and when its records are replayed. */
  datatype Event = Event(cmd: Cmd, tk: Ticks, r: int)

  /** The duration that a command with a relative expiry adds to the clock. */
  function Ttl(cmd: Cmd): Option<int> {
    match cmd
    case Set(_, _, ttl, _) => ttl
    case ExpireIn(_, n, unit) => if n > 0 then Some(Wrap64(n * unit)) else None
    case _ => None
  }

  /** The event is possible: the command is replayed after it ran, and its two
      readings for a relative expiry are no further apart than the lag. */
  ghost predicate Timely(e: Event, st: Setting) {
    WellFormed(e.cmd) && WellTicked(e.tk) && e.tk.stamp <= e.r && e.r in st.readings && st.lag >= 0 &&
    (Ttl(e.cmd).Some? ==> e.tk.stamp - e.tk.write <= st.lag)
  }

  /** Of a live deadline a and a replayed deadline b: no reading from r on tells
      them apart, and, where deadlines have to survive, they are the same unless
      they have passed. */
  ghost predicate DeadlinesAgree(a: int, b: int, r: int, st: Setting) {
    SameSideFrom(a, b, r, st.readings) && (st.exact && r < a ==> a == b)
  }

  /** The guard on a command that ran when the live store was m. It fails for a
      command that builds on an entry with a deadline and is replayed after that
      deadline, when it no longer finds the entry, and for a relative expiry
      whose two deadlines a reading tells apart, or whose duration wraps. */
  ghost predicate Guard(m: Flat, e: Event, st: Setting, maxLen: int) {
    match e.cmd
    case Set(key, _, ttl, mode) =>
      ttl.Some? && SetKey(Live(m, key, e.tk.check(0)), [], 0, mode, 0).1 ==>
        ttl.value > 0 &&
        DeadlinesAgree(Wrap64(e.tk.write + ttl.value), Logged(e.tk.stamp + ttl.value), e.r, st)
    case IncrBy(key, _) =>
      Lapsed(m, key, e) ==> ParseInt(m[key].val) == None || ParseInt(m[key].val) == Some(0)
    case Append(key, suffix) => Lapsed(m, key, e) ==> |m[key].val| + |suffix| > maxLen
    case Persist(key) => !Lapsed(m, key, e)
    case ExpireIn(key, n, unit) =>
      n > 0 && Live(m, key, e.tk.check(0)).Some? ==>
        var d := Wrap64(n * unit);
        if d <= 0 then Lapsed(m, key, e) || Logged(e.tk.stamp + d) <= e.r
        else if Lapsed(m, key, e) then Wrap64(e.tk.write + d) <= e.r
        else DeadlinesAgree(Wrap64(e.tk.write + d), Logged(e.tk.stamp + d), e.r, st)
    case ExpireAt(key, secs) => Lapsed(m, key, e) ==> Wrap64(secs * SECOND) <= e.r
    case PExpireAt(key, ms) => Lapsed(m, key, e) ==> Wrap64(ms * MILLISECOND) <= e.r
    case _ => true
  }

  /** The key was live when the command ran, with a deadline that has passed by
      the time of its replay. */
  predicate Lapsed(m: Flat, key: Bytes, e: Event) {
    Live(m, key, e.tk.check(0)).Some? && Expired(m[key], e.r)
  }

  // --------------------------------------------------- one command, in step

  /** The contents after the command ran live, and after its records replayed. */
  ghost function After(m: Flat, e: Event, maxLen: int): Flat {
    Exec(m, e.cmd, e.tk, maxLen).m
  }

  ghost function Replayed(m: Flat, p: Flat, e: Event, maxLen: int): Flat {
    ReplayRecords(p, Exec(m, e.cmd, e.tk, maxLen).log, e.r, maxLen)
  }

  /** What a command preserves and what its guard says about it. */
  ghost predicate Faithful(m: Flat, p: Flat, e: Event, st: Setting, maxLen: int) {
    InStep(After(m, e, maxLen), Replayed(m, p, e, maxLen), e.r, st) <==> Guard(m, e, st, maxLen)
  }

  /** Lazy purging is invisible. */
  lemma PurgeInStep(m: Flat, p: Flat, k: Bytes, t: int, r: int, st: Setting)
    requires t <= r
    ensures InStep(Update(m, k, Live(m, k, t)), p, r, st) <==> InStep(m, p, r, st)
  {
    forall j ensures Live(Update(m, k, Live(m, k, t)), j, r) == Live(m, j, r) {}
  }

  /** A live deadline and its rewritten form are both kept or both gone exactly
      when they agree. */
  lemma DeadlineGuard(val: Bytes, was: int, a: int, b: int, r: int, st: Setting)
    requires a != 0 && 0 <= r && r in st.readings
    requires r < a && r < b ==> a - MILLISECOND < b <= a + st.lag
    ensures Kept(Alive(Some(Entry(val, a)), r), Alive(ExpireAtKey(Some(Entry(val, was)), b, r).0, r), st) <==>
            DeadlinesAgree(a, b, r, st)
  {
    assert SameSide(a, b, st.readings) ==> SameSideFrom(a, b, r, st.readings);
    if SameSideFrom(a, b, r, st.readings) && r < a {
      assert SameSide(a, b, st.readings);
    }
  }

  lemma PlainSetInStep(m: Flat, p: Flat, key: Bytes, val: Bytes, r: int, st: Setting, maxLen: int)
    requires InStep(m, p, r, st)
    ensures InStep(Update(m, key, Some(Entry(val, 0))),
                   ReplayRecords(p, [Set(key, val, None, SetAlways)], r, maxLen), r, st)
  {
    ReplayOne(p, Set(key, val, None, SetAlways), r, maxLen);
    InStepUpdate(m, p, key, Some(Entry(val, 0)), Some(Entry(val, 0)), r, st);
  }

  /** The two deadlines that come of a relative expiry, wrapped or not. */
  lemma RelativeDeadline(e: Event, st: Setting)
    requires Timely(e, st) && Ttl(e.cmd).Some? && Ttl(e.cmd).value > 0
    ensures var a, b := Wrap64(e.tk.write + Ttl(e.cmd).value), Logged(e.tk.stamp + Ttl(e.cmd).value);
            a != 0 && (e.r < a && e.r < b ==> a - MILLISECOND < b <= a + st.lag)
    ensures 0 <= e.r && e.r in st.readings
  {
    assert 0 <= e.tk.check(0) <= e.tk.write;
    TtlRange(e.cmd);
    TwoDeadlines(e.tk.write, e.tk.stamp, Ttl(e.cmd).value);
  }

  lemma TtlRange(cmd: Cmd)
    requires WellFormed(cmd) && Ttl(cmd).Some?
    ensures Int64(Ttl(cmd).value)
  {
  }

  lemma TwoDeadlines(write: int, stamp: int, d: int)
    requires 0 <= write <= stamp < TWO63 && 0 < d < TWO63
    ensures var a, b := Wrap64(write + d), Logged(stamp + d);
            a != 0 && (0 < a && 0 < b ==> a - MILLISECOND < b <= a + (stamp - write))
  {
  }

  /** What a SET with an expiry leaves live. */
  lemma SetTtlAfter(m: Flat, e: Event, maxLen: int)
    requires e.cmd.Set? && e.cmd.ttl.Some?
    requires SetKey(Live(m, e.cmd.key, e.tk.check(0)), [], 0, e.cmd.mode, 0).1
    ensures After(m, e, maxLen)
         == Update(m, e.cmd.key, Some(Entry(e.cmd.val, Deadline(e.cmd.ttl.value, e.tk.write))))
    ensures Exec(m, e.cmd, e.tk, maxLen).log
         == [Set(e.cmd.key, e.cmd.val, None, SetAlways), PExpireAt(e.cmd.key, UnixMilli(e.tk.stamp + e.cmd.ttl.value))]
  {
    hide Deadline, UnixMilli, Update;
  }

  /** What its two records leave. */
  lemma SetTtlReplayed(m: Flat, p: Flat, e: Event, maxLen: int)
    requires e.cmd.Set? && e.cmd.ttl.Some?
    requires SetKey(Live(m, e.cmd.key, e.tk.check(0)), [], 0, e.cmd.mode, 0).1
    ensures Replayed(m, p, e, maxLen) ==
            Update(p, e.cmd.key, ExpireAtKey(Some(Entry(e.cmd.val, 0)), Logged(e.tk.stamp + e.cmd.ttl.value), e.r).0)
  {
    hide Exec, UnixMilli, Wrap64, ReplayRecords, SetKey;
    var Set(key, val, ttl, _) := e.cmd;
    var ms := UnixMilli(e.tk.stamp + ttl.value);
    SetTtlAfter(m, e, maxLen);
    ReplayTwo(p, Set(key, val, None, SetAlways), PExpireAt(key, ms), e.r, maxLen);
    PlainSetExec(p, key, val, e.r, maxLen);
    var q := p[key := Entry(val, 0)];
    DeadlineExec(q, key, ms, e.r, maxLen);
    assert q - {key} == p - {key};
  }

  lemma DeadlineExec(p: Flat, key: Bytes, ms: int, r: int, maxLen: int)
    ensures Exec(p, PExpireAt(key, ms), At(r), maxLen).m
         == Update(p, key, ExpireAtKey(Live(p, key, r), Wrap64(ms * MILLISECOND), r).0)
  {
  }

  lemma PlainSetExec(p: Flat, key: Bytes, val: Bytes, r: int, maxLen: int)
    ensures Exec(p, Set(key, val, None, SetAlways), At(r), maxLen).m == p[key := Entry(val, 0)]
  {
  }

  lemma SetTtlFaithful(m: Flat, p: Flat, e: Event, st: Setting, maxLen: int)
    requires InStep(m, p, e.r, st) && Timely(e, st) && e.cmd.Set? && e.cmd.ttl.Some?
    requires SetKey(Live(m, e.cmd.key, e.tk.check(0)), [], 0, e.cmd.mode, 0).1
    ensures Faithful(m, p, e, st, maxLen)
  {
    hide Exec, Logged, InStep, After, Replayed, Update, DeadlinesAgree, Live, SetKey, Wrap64, WellTicked, UnixMilli;
    var Set(key, val, ttl, mode) := e.cmd;
    var a, b := Deadline(ttl.value, e.tk.write), Logged(e.tk.stamp + ttl.value);
    var after := ExpireAtKey(Some(Entry(val, 0)), b, e.r).0;
    SetTtlAfter(m, e, maxLen);
    SetTtlReplayed(m, p, e, maxLen);
    InStepUpdate(m, p, key, Some(Entry(val, a)), after, e.r, st);
    if ttl.value > 0 {
      RelativeDeadline(e, st);
      hide Kept;
      DeadlineGuard(val, 0, a, b, e.r, st);
    } else {
      ReplayReading(e, st);
    }
  }

  lemma ReplayReading(e: Event, st: Setting)
    requires Timely(e, st)
    ensures 0 <= e.r
  {
    assert 0 <= e.tk.check(0) <= e.tk.write;
  }

  lemma SetFaithful(m: Flat, p: Flat, e: Event, st: Setting, maxLen: int)
    requires InStep(m, p, e.r, st) && Timely(e, st) && e.cmd.Set?
    ensures Faithful(m, p, e, st, maxLen)
  {
    var cur := Live(m, e.cmd.key, e.tk.check(0));
    if !SetKey(cur, [], 0, e.cmd.mode, 0).1 {
      PurgeInStep(m, p, e.cmd.key, e.tk.check(0), e.r, st);
    } else if e.cmd.ttl.None? {
      PlainSetInStep(m, p, e.cmd.key, e.cmd.val, e.r, st, maxLen);
    } else {
      SetTtlFaithful(m, p, e, st, maxLen);
    }
  }

  lemma PlainSetFaithful(m: Flat, p: Flat, e: Event, st: Setting, maxLen: int)
    requires InStep(m, p, e.r, st) && Timely(e, st) && (e.cmd.SetNew? || e.cmd.GetSet?)
    ensures Faithful(m, p, e, st, maxLen)
  {
    PlainSetInStep(m, p, e.cmd.key, e.cmd.val, e.r, st, maxLen);
    PurgeInStep(m, p, e.cmd.key, e.tk.check(0), e.r, st);
  }

  lemma DelInStep(m: Flat, p: Flat, keys: seq<Bytes>, r: int, st: Setting)
    requires InStep(m, p, r, st)
    ensures InStep(DelAll(m, keys), DelAll(p, keys), r, st)
  {
    forall k ensures Kept(Live(DelAll(m, keys), k, r), Live(DelAll(p, keys), k, r), st) {
      LiveDelAll(m, keys, k, r);
      LiveDelAll(p, keys, k, r);
      assert Kept(Live(m, k, r), Live(p, k, r), st);
    }
  }

  lemma DelFaithful(m: Flat, p: Flat, keys: seq<Bytes>, tk: Ticks, r: int, st: Setting, maxLen: int)
    requires InStep(m, p, r, st) && WellTicked(tk) && tk.stamp <= r
    ensures InStep(ExecDel(m, keys, tk).m, ReplayRecords(p, ExecDel(m, keys, tk).log, r, maxLen), r, st)
  {
    var n := DelCount(m, keys, Sample(tk.check, |keys|));
    if n > 0 {
      ReplayOne(p, Del(keys), r, maxLen);
      DelInStep(m, p, keys, r, st);
    } else {
      DelCountZero(m, keys, Sample(tk.check, |keys|), r);
      forall k ensures Kept(Live(DelAll(m, keys), k, r), Live(p, k, r), st) {
        assert Live(DelAll(m, keys), k, r) == Live(m, k, r);
      }
    }
  }

  lemma FormatDistinct(a: int, b: int)
    requires Int64(a) && Int64(b) && FormatInt(a) == FormatInt(b)
    ensures a == b
  {
    ParseFormat(a);
    ParseFormat(b);
  }

  /** Adding to a value and adding to zero differ unless the value is zero. */
  lemma IncrDiffers(v: int, delta: int)
    requires Int64(v) && FormatInt(Wrap64(v + delta)) == FormatInt(Wrap64(delta))
    ensures v == 0
  {
    FormatDistinct(Wrap64(v + delta), Wrap64(delta));
    assert (v + delta - delta) % TWO64 == 0;
  }

  lemma IncrFaithful(m: Flat, p: Flat, e: Event, st: Setting, maxLen: int)
    requires InStep(m, p, e.r, st) && Timely(e, st) && e.cmd.IncrBy?
    ensures Faithful(m, p, e, st, maxLen)
  {
    var IncrBy(key, delta) := e.cmd;
    var cur, rep := Live(m, key, e.tk.check(0)), Live(p, key, e.r);
    assert Kept(Live(m, key, e.r), rep, st);
    var a := IncrKey(cur, delta);
    hide InStep, Wrap64, FormatInt, ParseInt, ReplayRecords;
    if a.1.None? {
      PurgeInStep(m, p, key, e.tk.check(0), e.r, st);
    } else {
      ReplayOne(p, e.cmd, e.r, maxLen);
      InStepUpdate(m, p, key, a.0, IncrKey(rep, delta).0, e.r, st);
      IncrKept(m, p, key, delta, e, st);
    }
  }

  /** The two counters agree exactly if the live one has not lapsed or was at 0. */
  lemma IncrKept(m: Flat, p: Flat, key: Bytes, delta: int, e: Event, st: Setting)
    requires Kept(Live(m, key, e.r), Live(p, key, e.r), st) && e.tk.check(0) <= e.r
    requires IncrKey(Live(m, key, e.tk.check(0)), delta).1.Some?
    ensures IncrKey(Live(m, key, e.tk.check(0)), delta).0 == IncrKey(Live(p, key, e.r), delta).0 <==>
            (Lapsed(m, key, e) ==> ParseInt(m[key].val) == Some(0))
  {
    hide Wrap64, FormatInt, ParseInt;
    if Lapsed(m, key, e) {
      var v := ParseInt(m[key].val).value;
      if FormatInt(Wrap64(v + delta)) == FormatInt(Wrap64(delta)) { IncrDiffers(v, delta); }
    }
  }

  lemma AppendFaithful(m: Flat, p: Flat, e: Event, st: Setting, maxLen: int)
    requires InStep(m, p, e.r, st) && Timely(e, st) && e.cmd.Append?
    ensures Faithful(m, p, e, st, maxLen)
  {
    var Append(key, suffix) := e.cmd;
    var cur, rep := Live(m, key, e.tk.check(0)), Live(p, key, e.r);
    assert Kept(Live(m, key, e.r), rep, st);
    var a := AppendKey(cur, suffix, maxLen);
    if a.1.None? {
      PurgeInStep(m, p, key, e.tk.check(0), e.r, st);
    } else {
      ReplayOne(p, e.cmd, e.r, maxLen);
      InStepUpdate(m, p, key, a.0, AppendKey(rep, suffix, maxLen).0, e.r, st);
    }
  }

  lemma PersistFaithful(m: Flat, p: Flat, e: Event, st: Setting, maxLen: int)
    requires InStep(m, p, e.r, st) && Timely(e, st) && e.cmd.Persist?
    ensures Faithful(m, p, e, st, maxLen)
  {
    var key := e.cmd.key;
    var cur, rep := Live(m, key, e.tk.check(0)), Live(p, key, e.r);
    assert Kept(Live(m, key, e.r), rep, st);
    var a := PersistKey(cur);
    if !a.1 {
      PurgeInStep(m, p, key, e.tk.check(0), e.r, st);
    } else {
      ReplayOne(p, e.cmd, e.r, maxLen);
      InStepUpdate(m, p, key, a.0, PersistKey(rep).0, e.r, st);
    }
  }

  lemma ExpireInStates(m: Flat, p: Flat, e: Event, st: Setting, maxLen: int)
    requires Timely(e, st) && e.cmd.ExpireIn? && e.cmd.n > 0 && Live(m, e.cmd.key, e.tk.check(0)).Some?
    ensures var d := Ttl(e.cmd).value;
            After(m, e, maxLen)
            == Update(m, e.cmd.key,
                      if d <= 0 then None else Some(Entry(m[e.cmd.key].val, Wrap64(e.tk.write + d)))) &&
            Replayed(m, p, e, maxLen) ==
            Update(p, e.cmd.key, ExpireAtKey(Live(p, e.cmd.key, e.r), Logged(e.tk.stamp + d), e.r).0)
  {
    hide Wrap64, UnixMilli;
    ReplayOne(p, PExpireAt(e.cmd.key, UnixMilli(e.tk.stamp + Ttl(e.cmd).value)), e.r, maxLen);
  }

  lemma ExpireInMissing(m: Flat, p: Flat, e: Event, st: Setting, maxLen: int)
    requires e.cmd.ExpireIn? && e.cmd.n > 0 && Live(m, e.cmd.key, e.tk.check(0)).None?
    ensures After(m, e, maxLen) == Update(m, e.cmd.key, Live(m, e.cmd.key, e.tk.check(0)))
    ensures Replayed(m, p, e, maxLen) == p
  {
  }

  lemma ExpireInFaithful(m: Flat, p: Flat, e: Event, st: Setting, maxLen: int)
    requires InStep(m, p, e.r, st) && Timely(e, st) && e.cmd.ExpireIn? && e.cmd.n > 0
    ensures Faithful(m, p, e, st, maxLen)
  {
    hide Exec, Logged, InStep, After, Replayed, Update, SameSide, DeadlinesAgree, Wrap64, WellTicked;
    var ExpireIn(key, n, unit) := e.cmd;
    var d := Wrap64(n * unit);
    var cur, rep := Live(m, key, e.tk.check(0)), Live(p, key, e.r);
    InStepAt(m, p, key, e.r, st);
    ReplayReading(e, st);
    if cur.None? {
      ExpireInMissing(m, p, e, st, maxLen);
      CheckReading(e, st);
      PurgeInStep(m, p, key, e.tk.check(0), e.r, st);
    } else {
      var b := Logged(e.tk.stamp + d);
      var val := cur.value.val;
      ExpireInStates(m, p, e, st, maxLen);
      var after := ExpireAtKey(rep, b, e.r).0;
      if d <= 0 {
        InStepUpdate(m, p, key, None, after, e.r, st);
      } else {
        var a := Wrap64(e.tk.write + d);
        RelativeDeadline(e, st);
        InStepUpdate(m, p, key, Some(Entry(val, a)), after, e.r, st);
        if rep.Some? {
          DeadlineGuard(val, rep.value.expireAt, a, b, e.r, st);
        }
      }
    }
  }

  lemma CheckReading(e: Event, st: Setting)
    requires Timely(e, st)
    ensures e.tk.check(0) <= e.r
  {
  }

  lemma ExpireAtFaithful(m: Flat, p: Flat, e: Event, st: Setting, maxLen: int)
    requires InStep(m, p, e.r, st) && Timely(e, st) && (e.cmd.ExpireAt? || e.cmd.PExpireAt?)
    ensures Faithful(m, p, e, st, maxLen)
  {
    var key := e.cmd.key;
    var ms := if e.cmd.ExpireAt? then Wrap64(e.cmd.secs * 1000) else e.cmd.ms;
    var dl := Wrap64(ms * MILLISECOND);
    if e.cmd.ExpireAt? { ExpireAtRewriting(e.cmd.secs); }
    var cur, rep := Live(m, key, e.tk.check(0)), Live(p, key, e.r);
    assert Kept(Live(m, key, e.r), rep, st);
    var a := ExpireAtKey(cur, dl, e.tk.write);
    hide InStep, Wrap64, ReplayRecords;
    if !a.1 {
      PurgeInStep(m, p, key, e.tk.check(0), e.r, st);
    } else {
      ReplayOne(p, PExpireAt(key, ms), e.r, maxLen);
      InStepUpdate(m, p, key, a.0, ExpireAtKey(rep, dl, e.r).0, e.r, st);
    }
  }

  lemma PutAllInStep(m: Flat, p: Flat, pairs: seq<Pair>, r: int, st: Setting)
    requires InStep(m, p, r, st)
    ensures InStep(PutAll(m, pairs), PutAll(p, pairs), r, st)
  {
    forall k ensures Kept(Live(PutAll(m, pairs), k, r), Live(PutAll(p, pairs), k, r), st) {
      LivePutAll(m, pairs, k, r);
      LivePutAll(p, pairs, k, r);
      assert Kept(Live(m, k, r), Live(p, k, r), st);
    }
  }

  lemma BatchFaithful(m: Flat, p: Flat, e: Event, st: Setting, maxLen: int)
    requires InStep(m, p, e.r, st) && Timely(e, st) && (e.cmd.MSet? || e.cmd.MSetNX? || e.cmd.Flush?)
    ensures Faithful(m, p, e, st, maxLen)
  {
    if e.cmd.Flush? {
      ReplayOne(p, e.cmd, e.r, maxLen);
    } else {
      ReplayOne(p, MSet(e.cmd.pairs), e.r, maxLen);
      PutAllInStep(m, p, e.cmd.pairs, e.r, st);
    }
  }

  /** One command keeps the two stores in step exactly when it meets its guard. */
  lemma StepFaithful(m: Flat, p: Flat, e: Event, st: Setting, maxLen: int)
    requires InStep(m, p, e.r, st) && Timely(e, st)
    ensures Faithful(m, p, e, st, maxLen)
  {
    match e.cmd
    case Get(key) => PurgeInStep(m, p, key, e.tk.check(0), e.r, st);
    case Exists(_) =>
    case Set(_, _, _, _) => SetFaithful(m, p, e, st, maxLen);
    case SetNew(_, _) => PlainSetFaithful(m, p, e, st, maxLen);
    case GetSet(_, _) => PlainSetFaithful(m, p, e, st, maxLen);
    case Del(keys) => DelFaithful(m, p, keys, e.tk, e.r, st, maxLen);
    case IncrBy(_, _) => IncrFaithful(m, p, e, st, maxLen);
    case Append(_, _) => AppendFaithful(m, p, e, st, maxLen);
    case ExpireIn(key, n, _) =>
      if n > 0 {
        ExpireInFaithful(m, p, e, st, maxLen);
      } else {
        DelFaithful(m, p, [key], e.tk, e.r, st, maxLen);
      }
    case ExpireAt(_, _) => ExpireAtFaithful(m, p, e, st, maxLen);
    case PExpireAt(_, _) => ExpireAtFaithful(m, p, e, st, maxLen);
    case Persist(_) => PersistFaithful(m, p, e, st, maxLen);
    case Flush => BatchFaithful(m, p, e, st, maxLen);
    case MSet(_) => BatchFaithful(m, p, e, st, maxLen);
    case MSetNX(_) => BatchFaithful(m, p, e, st, maxLen);
  }

  // --------------------------------------------------------------- whole runs

  /** The contents of the live store after the events, from an empty store. */
  ghost function LiveMap(evs: seq<Event>, maxLen: int): Flat {
    if evs == [] then map[] else After(LiveMap(evs[..|evs| - 1], maxLen), evs[|evs| - 1], maxLen)
  }

  /** The contents after the log of the events was replayed into an empty store. */
  ghost function ReplayMap(evs: seq<Event>, maxLen: int): Flat {
    if evs == [] then map[]
    else
      var front := evs[..|evs| - 1];
      Replayed(LiveMap(front, maxLen), ReplayMap(front, maxLen), evs[|evs| - 1], maxLen)
  }

  /** The events are possible and the replay clock does not go back. The live
      clock needs no such condition beyond each command's own readings: deadlines
      are compared with the replay clock only. */
  ghost predicate TimelyRun(evs: seq<Event>, st: Setting) {
    (forall i :: 0 <= i < |evs| ==> Timely(evs[i], st)) &&
    forall i, j :: 0 <= i <= j < |evs| ==> evs[i].r <= evs[j].r
  }

  ghost predicate GuardedAt(evs: seq<Event>, i: nat, st: Setting, maxLen: int)
    requires i < |evs|
  {
    Guard(LiveMap(evs[..i], maxLen), evs[i], st, maxLen)
  }

  /** A crash right after event i, recovered at its replay reading, gives back
      the live store. */
  ghost predicate RecoveredAt(evs: seq<Event>, i: nat, st: Setting, maxLen: int)
    requires i < |evs|
  {
    InStep(LiveMap(evs[..i + 1], maxLen), ReplayMap(evs[..i + 1], maxLen), evs[i].r, st)
  }

  lemma InStepNext(evs: seq<Event>, i: nat, st: Setting, maxLen: int)
    requires i < |evs| && TimelyRun(evs, st)
    requires i > 0 ==> RecoveredAt(evs, i - 1, st, maxLen)
    ensures RecoveredAt(evs, i, st, maxLen) <==> GuardedAt(evs, i, st, maxLen)
  {
    var m, p := LiveMap(evs[..i], maxLen), ReplayMap(evs[..i], maxLen);
    assert evs[..i + 1][..i] == evs[..i];
    assert evs[i].r in st.readings;
    if i > 0 { InStepLater(m, p, evs[i - 1].r, evs[i].r, st); }
    StepFaithful(m, p, evs[i], st, maxLen);
  }

  lemma {:induction false} GuardedPrefix(evs: seq<Event>, n: nat, st: Setting, maxLen: int)
    requires n < |evs| && TimelyRun(evs, st)
    requires forall i :: 0 <= i <= n ==> GuardedAt(evs, i, st, maxLen)
    ensures RecoveredAt(evs, n, st, maxLen)
  {
    if n > 0 { GuardedPrefix(evs, n - 1, st, maxLen); }
    InStepNext(evs, n, st, maxLen);
  }

  /** A crash after any command is recovered from if and only if every command
      met its guard. */
  lemma RecoveryExact(evs: seq<Event>, st: Setting, maxLen: int)
    requires TimelyRun(evs, st)
    ensures (forall i :: 0 <= i < |evs| ==> RecoveredAt(evs, i, st, maxLen)) <==>
            (forall i :: 0 <= i < |evs| ==> GuardedAt(evs, i, st, maxLen))
  {
    if forall i :: 0 <= i < |evs| ==> GuardedAt(evs, i, st, maxLen) {
      forall i | 0 <= i < |evs| ensures RecoveredAt(evs, i, st, maxLen) { GuardedPrefix(evs, i, st, maxLen); }
    }
    if forall i :: 0 <= i < |evs| ==> RecoveredAt(evs, i, st, maxLen) {
      forall i | 0 <= i < |evs| ensures GuardedAt(evs, i, st, maxLen) { InStepNext(evs, i, st, maxLen); }
    }
  }

  /** Where deadlines have to survive, a guarded run comes back exactly: every
      key, value and deadline that a client can see. */
  lemma GuardedReplay(evs: seq<Event>, st: Setting, maxLen: int)
    requires evs != [] && TimelyRun(evs, st) && st.exact
    requires forall i :: 0 <= i < |evs| ==> GuardedAt(evs, i, st, maxLen)
    ensures View(LiveMap(evs, maxLen), evs[|evs| - 1].r) == View(ReplayMap(evs, maxLen), evs[|evs| - 1].r)
  {
    var n := |evs| - 1;
    GuardedPrefix(evs, n, st, maxLen);
    assert evs[..n + 1] == evs;
    ExactInStep(LiveMap(evs, maxLen), ReplayMap(evs, maxLen), evs[n].r, st);
    SameViewIffViews(LiveMap(evs, maxLen), ReplayMap(evs, maxLen), evs[n].r);
  }

  /** The key of a command that builds on the entry it finds. */
  function BuildsOn(cmd: Cmd): Option<Bytes> {
    match cmd
    case IncrBy(key, _) => Some(key)
    case Append(key, _) => Some(key)
    case Persist(key) => Some(key)
    case ExpireIn(key, _, _) => Some(key)
    case ExpireAt(key, _) => Some(key)
    case PExpireAt(key, _) => Some(key)
    case _ => None
  }

  /** A relative expiry of at least a millisecond that does not wrap, its deadline
      computed twice from one reading of a millisecond clock. */
  predicate OnTheMillisecond(e: Event) {
    Ttl(e.cmd).Some? ==>
      var d := Ttl(e.cmd).value;
      d >= MILLISECOND && e.tk.stamp + d < TWO63 && e.tk.write == e.tk.stamp &&
      (e.tk.stamp + d) % MILLISECOND == 0
  }

  /** The simple form of the guard: no command built on an entry whose deadline
      passes before the replay. */
  lemma UnlapsedIsGuarded(m: Flat, e: Event, st: Setting, maxLen: int)
    requires Timely(e, st) && OnTheMillisecond(e)
    requires BuildsOn(e.cmd).Some? ==> !Lapsed(m, BuildsOn(e.cmd).value, e)
    ensures Guard(m, e, st, maxLen)
  {
    if Ttl(e.cmd).Some? {
      ReplayReading(e, st);
      assert 0 <= e.tk.check(0) <= e.tk.write;
      DeadlineRewriting(e.tk.write, e.tk.stamp, Ttl(e.cmd).value);
    }
  }

  lemma WholeMilliseconds(t: int, k: int)
    requires t % MILLISECOND == 0
    ensures (t + k * MILLISECOND) % MILLISECOND == 0
  {
  }

  /** A duration given in whole units keeps a millisecond clock on whole
      milliseconds. */
  lemma MillisecondClock(stamp: int, n: int, unit: int)
    requires stamp % MILLISECOND == 0 && (unit == SECOND || unit == MILLISECOND) && Int64(n * unit)
    ensures (stamp + Wrap64(n * unit)) % MILLISECOND == 0
  {
    var k := if unit == SECOND then 1000 * n else n;
    assert n * unit == k * MILLISECOND;
    WholeMilliseconds(stamp, k);
  }

  /** The documentation's promise with its condition: on a millisecond clock, when
      no command built on an entry whose deadline passes before the replay, a
      replay of everything at one time R shows at R exactly what the live store
      shows. */
  lemma ReplayAtOnce(evs: seq<Event>, R: int, st: Setting, maxLen: int)
    requires evs != [] && TimelyRun(evs, st) && st.exact
    requires forall i :: 0 <= i < |evs| ==> evs[i].r == R && OnTheMillisecond(evs[i])
    requires forall i :: 0 <= i < |evs| && BuildsOn(evs[i].cmd).Some? ==>
               !Lapsed(LiveMap(evs[..i], maxLen), BuildsOn(evs[i].cmd).value, evs[i])
    ensures View(LiveMap(evs, maxLen), R) == View(ReplayMap(evs, maxLen), R)
  {
    hide LiveMap, ReplayMap, Timely, OnTheMillisecond, Guard, Lapsed;
    forall i | 0 <= i < |evs| ensures GuardedAt(evs, i, st, maxLen) {
      UnlapsedIsGuarded(LiveMap(evs[..i], maxLen), evs[i], st, maxLen);
    }
    GuardedReplay(evs, st, maxLen);
  }

  /** A clock that counts milliseconds, read once per command, and a duration that
      does not wrap: what the clock condition above asks for. */
  lemma MillisecondEvent(e: Event, st: Setting)
    requires Timely(e, st) && e.tk.write == e.tk.stamp && e.tk.stamp % MILLISECOND == 0
    requires match e.cmd
             case ExpireIn(_, n, unit) => n > 0 ==> e.tk.stamp + n * unit < TWO63
             case Set(_, _, ttl, _) =>
               ttl.Some? ==> ttl.value >= MILLISECOND && ttl.value % MILLISECOND == 0 && e.tk.stamp + ttl.value < TWO63
             case _ => true
    ensures OnTheMillisecond(e)
  {
    hide Wrap64;
    if e.cmd.ExpireIn? && e.cmd.n > 0 {
      assert 0 <= e.tk.check(0) <= e.tk.write;
      WholeUnits(e.cmd.n, e.cmd.unit, e.tk.stamp);
      MillisecondClock(e.tk.stamp, e.cmd.n, e.cmd.unit);
    }
  }

  lemma WholeUnits(n: int, unit: int, stamp: int)
    requires n > 0 && (unit == SECOND || unit == MILLISECOND) && 0 <= stamp && stamp + n * unit < TWO63
    ensures Int64(n * unit) && n * unit >= MILLISECOND && Wrap64(n * unit) == n * unit
  {
    if unit == SECOND {
      assert n * unit == n * SECOND >= SECOND;
    } else {
      assert n * unit == n * MILLISECOND >= MILLISECOND;
    }
  }

  // ------------------------------------------------- what goes wrong, and when

  /** The guard is tight: a key live with deadline t1 whose expiry is moved to t2
      is lost by a replay at any moment from t1 up to t2. */
  lemma ExtensionLosesKey(m: Flat, p: Flat, e: Event, st: Setting, maxLen: int)
    requires InStep(m, p, e.r, st) && Timely(e, st) && e.cmd.PExpireAt?
    requires Lapsed(m, e.cmd.key, e) && e.r < Wrap64(e.cmd.ms * MILLISECOND)
    ensures Live(After(m, e, maxLen), e.cmd.key, e.r)
         == Some(Entry(m[e.cmd.key].val, Wrap64(e.cmd.ms * MILLISECOND)))
    ensures Live(Replayed(m, p, e, maxLen), e.cmd.key, e.r) == None
  {
    assert 0 <= e.tk.check(0) <= e.tk.write;
    InStepAt(m, p, e.cmd.key, e.r, st);
    ReplayOne(p, e.cmd, e.r, maxLen);
  }

  /** An append to a key with a deadline brings the key back, without expiry and
      without its old bytes, when it is replayed after the deadline. */
  lemma AppendRevivesKey(m: Flat, p: Flat, e: Event, st: Setting, maxLen: int)
    requires InStep(m, p, e.r, st) && Timely(e, st) && e.cmd.Append?
    requires Lapsed(m, e.cmd.key, e) && |m[e.cmd.key].val| + |e.cmd.suffix| <= maxLen
    ensures Live(After(m, e, maxLen), e.cmd.key, e.r) == None
    ensures Live(Replayed(m, p, e, maxLen), e.cmd.key, e.r) == Some(Entry(e.cmd.suffix, 0))
  {
    InStepAt(m, p, e.cmd.key, e.r, st);
    ReplayOne(p, e.cmd, e.r, maxLen);
    assert [] + e.cmd.suffix == e.cmd.suffix;
  }

  /** An EX or PX value whose duration wraps to zero or below: the live key never
      expires, its replay is deleted at once. */
  lemma SetOverflowLosesKey(m: Flat, p: Flat, e: Event, maxLen: int)
    requires WellFormed(e.cmd) && WellTicked(e.tk) && MILLISECOND <= e.tk.stamp <= e.r
    requires e.cmd.Set? && e.cmd.mode.SetAlways? && e.cmd.ttl.Some? && e.cmd.ttl.value <= 0
    ensures Live(After(m, e, maxLen), e.cmd.key, e.r) == Some(Entry(e.cmd.val, 0))
    ensures Live(Replayed(m, p, e, maxLen), e.cmd.key, e.r) == None
    ensures Duration("EX", 9223372037) < 0
  {
    var Set(key, val, ttl, _) := e.cmd;
    var ms := UnixMilli(e.tk.stamp + ttl.value);
    ReplayTwo(p, Set(key, val, None, SetAlways), PExpireAt(key, ms), e.r, maxLen);
    assert -TWO63 <= ms * MILLISECOND <= e.r;
    assert Wrap64(ms * MILLISECOND) <= e.r;
  }
}
