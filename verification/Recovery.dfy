/** End to end: requests served by a sharded store with an append-only file, the
    file cut off at an arbitrary byte, and a second sharded store that loads
    what is left. */
module Recovery {
  import opened Basics
  import opened TimedMap
  import opened Command
  import opened Replay
  import Resp
  import S = Store
  import R = Registry
  import P = Persist

  /** A client's request, its clock readings, and the reading at which its log
      records are replayed. */
  datatype Request = Request(tokens: seq<Bytes>, tk: Ticks, r: int)

  /** The request as an event. One that is rejected changes nothing and logs
      nothing, like a command that only looks. */
  ghost function Typed(q: Request): Event {
    match Parse(q.tokens)
    case Parsed(cmd) => Event(cmd, q.tk, q.r)
    case Invalid(_) => Event(Exists([[]]), q.tk, q.r)
  }

  ghost function TypedAll(qs: seq<Request>): (r: seq<Event>)
    ensures |r| == |qs|
  {
    seq(|qs|, i requires 0 <= i < |qs| => Typed(qs[i]))
  }

  ghost function RawLive(qs: seq<Request>, maxLen: int): Flat {
    if qs == [] then map[]
    else
      var q := qs[|qs| - 1];
      ExecRaw(RawLive(qs[..|qs| - 1], maxLen), q.tokens, q.tk, maxLen).m
  }

  /** The records of the last request. */
  ghost function LastRecords(qs: seq<Request>, maxLen: int): seq<seq<Bytes>>
    requires qs != []
  {
    var q := qs[|qs| - 1];
    ExecRaw(RawLive(qs[..|qs| - 1], maxLen), q.tokens, q.tk, maxLen).log
  }

  ghost function RawLog(qs: seq<Request>, maxLen: int): seq<seq<Bytes>> {
    if qs == [] then [] else RawLog(qs[..|qs| - 1], maxLen) + LastRecords(qs, maxLen)
  }

  lemma {:induction false} RawLiveIsLive(qs: seq<Request>, maxLen: int)
    ensures RawLive(qs, maxLen) == LiveMap(TypedAll(qs), maxLen)
  {
    if qs != [] {
      var n := |qs| - 1;
      RawLiveIsLive(qs[..n], maxLen);
      assert TypedAll(qs)[..n] == TypedAll(qs[..n]);
    }
  }

  /** The last record of each request is replayed at the reading of the request;
      one before it at any. */
  ghost predicate ReplayedAt(qs: seq<Request>, clock: nat -> Ticks, maxLen: int) {
    qs == [] ||
    (ReplayedAt(qs[..|qs| - 1], clock, maxLen) &&
     var from := |RawLog(qs[..|qs| - 1], maxLen)|;
     (LastRecords(qs, maxLen) != [] ==> clock(from + |LastRecords(qs, maxLen)| - 1) == At(qs[|qs| - 1].r)))
  }

  predicate PlainSet(c: Cmd) {
    c.Set? && c.ttl.None? && c.mode.SetAlways?
  }

  /** An unconditional SET without expiry does not look at the clock. */
  lemma PlainSetAnyTime(m: Flat, c: Cmd, a: Ticks, b: Ticks, maxLen: int)
    requires PlainSet(c)
    ensures Exec(m, c, a, maxLen).m == Exec(m, c, b, maxLen).m
  {
  }

  /** Executing token lists that parse as given, all at r but for plain SETs, is
      replaying those commands at r. */
  lemma {:induction false} RunIsReplay(m: Flat, done: seq<seq<Bytes>>, recs: seq<seq<Bytes>>, log: seq<Cmd>,
                                       r: int, clock: nat -> Ticks, maxLen: int)
    requires |recs| == |log|
    requires forall j :: 0 <= j < |recs| ==> Parse(recs[j]) == Parsed(log[j])
    requires forall j :: 0 <= j < |recs| ==> clock(|done| + j) == At(r) || PlainSet(log[j])
    ensures P.RunTokens(m, done + recs, clock, maxLen)
         == ReplayRecords(P.RunTokens(m, done, clock, maxLen), log, r, maxLen)
  {
    hide Parse, Exec, ExecRaw;
    if recs == [] {
      assert done + recs == done;
    } else {
      var n := |recs| - 1;
      RunIsReplay(m, done, recs[..n], log[..n], r, clock, maxLen);
      assert (done + recs)[..|done| + n] == done + recs[..n];
      assert (done + recs)[|done| + n] == recs[n];
      var before := P.RunTokens(m, done + recs[..n], clock, maxLen);
      RawOfParsed(before, recs[n], log[n], clock(|done| + n), maxLen);
      if clock(|done| + n) != At(r) { PlainSetAnyTime(before, log[n], clock(|done| + n), At(r), maxLen); }
    }
  }

  lemma RawOfParsed(m: Flat, tokens: seq<Bytes>, cmd: Cmd, tk: Ticks, maxLen: int)
    requires Parse(tokens) == Parsed(cmd)
    ensures ExecRaw(m, tokens, tk, maxLen).m == Exec(m, cmd, tk, maxLen).m
  {
  }

  lemma {:induction false} LogReplays(qs: seq<Request>, clock: nat -> Ticks, maxLen: int)
    requires ReplayedAt(qs, clock, maxLen) && forall i :: 0 <= i < |qs| ==> WellTicked(qs[i].tk)
    ensures P.RunTokens(map[], RawLog(qs, maxLen), clock, maxLen) == ReplayMap(TypedAll(qs), maxLen)
  {
    hide Exec, Parse, WellTicked, LastRecords, ReplayRecords;
    if qs != [] {
      var n := |qs| - 1;
      LogReplays(qs[..n], clock, maxLen);
      RawLiveIsLive(qs[..n], maxLen);
      assert TypedAll(qs)[..n] == TypedAll(qs[..n]);
      LastReplays(qs, clock, maxLen);
    }
  }

  lemma LastReplays(qs: seq<Request>, clock: nat -> Ticks, maxLen: int)
    requires qs != [] && ReplayedAt(qs, clock, maxLen) && WellTicked(qs[|qs| - 1].tk)
    ensures var front, q := qs[..|qs| - 1], qs[|qs| - 1];
            P.RunTokens(map[], RawLog(qs, maxLen), clock, maxLen)
            == ReplayRecords(P.RunTokens(map[], RawLog(front, maxLen), clock, maxLen),
                             Exec(RawLive(front, maxLen), Typed(q).cmd, q.tk, maxLen).log, q.r, maxLen)
  {
    hide Exec, Parse, WellTicked, P.RunTokens, LastRecords, RawLive, ReplayRecords, Typed;
    var front, q := qs[..|qs| - 1], qs[|qs| - 1];
    var m, done, recs := RawLive(front, maxLen), RawLog(front, maxLen), LastRecords(qs, maxLen);
    var log := Exec(m, Typed(q).cmd, q.tk, maxLen).log;
    LastRecordsParse(qs, maxLen);
    RecordsPerRequest(m, Typed(q).cmd, q.tk, maxLen);
    LogStep(qs, maxLen);
    RunIsReplay(map[], done, recs, log, q.r, clock, maxLen);
  }

  lemma LastRecordsParse(qs: seq<Request>, maxLen: int)
    requires qs != [] && WellTicked(qs[|qs| - 1].tk)
    ensures var q := qs[|qs| - 1];
            var log := Exec(RawLive(qs[..|qs| - 1], maxLen), Typed(q).cmd, q.tk, maxLen).log;
            var recs := LastRecords(qs, maxLen);
            |recs| == |log| && forall j :: 0 <= j < |recs| ==> Parse(recs[j]) == Parsed(log[j])
  {
    var q, m := qs[|qs| - 1], RawLive(qs[..|qs| - 1], maxLen);
    if Parse(q.tokens).Parsed? {
      forall j | 0 <= j < |LastRecords(qs, maxLen)|
        ensures Parse(LastRecords(qs, maxLen)[j]) == Parsed(Exec(m, Parse(q.tokens).cmd, q.tk, maxLen).log[j])
      {
        RecordParses(q.tokens, m, q.tk, maxLen, j);
      }
    }
  }

  // --------------------------------------------------- what is logged can be read

  /** Room for the names and the decimal deadlines that records add. */
  predicate Roomy(lim: Resp.Limits) {
    lim.maxBulkLen >= 20 && lim.maxArgs >= 3
  }

  /** The byte strings of a command are among the tokens it was parsed from. */
  lemma PartsOfTokens(name: Name, args: seq<Bytes>, cmd: Cmd)
    requires Arity(name, |args|) && ParseArgs(name, args) == Parsed(cmd)
    ensures cmd.Del? ==> cmd.keys == args
    ensures cmd.MSet? || cmd.MSetNX? ==> Flatten(cmd.pairs) == args
    ensures cmd.Set? || cmd.SetNew? || cmd.GetSet? ==> |args| >= 2 && cmd.key == args[0] && cmd.val == args[1]
    ensures cmd.Append? ==> |args| == 2 && cmd.key == args[0] && cmd.suffix == args[1]
    ensures cmd.ExpireIn? || cmd.ExpireAt? || cmd.PExpireAt? ==> |args| == 2 && cmd.key == args[0]
    ensures cmd.Persist? || cmd.IncrBy? ==> |args| >= 1 && cmd.key == args[0]
  {
    hide ParseInt, SetOptions, Flatten, Wrap64;
    if cmd.MSet? || cmd.MSetNX? { FlattenPairs(args); }
  }

  lemma LoggedParts(m: Flat, cmd: Cmd, tk: Ticks, maxLen: int, c: Cmd)
    requires c in Exec(m, cmd, tk, maxLen).log
    ensures c.Set? ==> (cmd.Set? || cmd.SetNew? || cmd.GetSet?) && c.key == cmd.key && c.val == cmd.val
    ensures c.PExpireAt? ==>
              (cmd.Set? || cmd.ExpireIn? || cmd.ExpireAt? || cmd.PExpireAt?) && c.key == cmd.key
    ensures c.Del? ==> cmd == c || (cmd.ExpireIn? && c.keys == [cmd.key])
    ensures c.MSet? ==> (cmd.MSet? || cmd.MSetNX?) && cmd.pairs == c.pairs
    ensures c.IncrBy? || c.Append? || c.Persist? || c.Flush? ==> c == cmd
  {
  }

  /** The byte strings of log command c are among the arguments. */
  predicate BuiltFrom(c: Cmd, args: seq<Bytes>) {
    match c
    case Set(key, val, _, _) => |args| >= 2 && key == args[0] && val == args[1]
    case Append(key, suffix) => |args| == 2 && key == args[0] && suffix == args[1]
    case Del(keys) => keys == args || (|args| >= 1 && keys == [args[0]])
    case MSet(pairs) => Flatten(pairs) == args
    case IncrBy(key, _) => |args| >= 1 && key == args[0]
    case Persist(key) => |args| >= 1 && key == args[0]
    case PExpireAt(key, ms) => |args| >= 2 && key == args[0] && Int64(ms)
    case _ => true
  }

  lemma BuiltRecordFits(name: Name, args: seq<Bytes>, c: Cmd, lim: Resp.Limits)
    requires |args| + 1 <= lim.maxArgs && Resp.ArgsFit(args, lim) && Roomy(lim) && BuiltFrom(c, args)
    ensures Resp.CommandFits(Record(name, args, c), lim)
  {
    hide Flatten, FormatInt;
    if c.PExpireAt? { FormatIntLength(c.ms); }
  }

  lemma LoggedBuilt(name: Name, args: seq<Bytes>, m: Flat, tk: Ticks, maxLen: int, i: nat)
    requires Arity(name, |args|) && ParseArgs(name, args).Parsed?
    requires WellFormed(ParseArgs(name, args).cmd) && WellTicked(tk)
    requires i < |Exec(m, ParseArgs(name, args).cmd, tk, maxLen).log|
    ensures BuiltFrom(Exec(m, ParseArgs(name, args).cmd, tk, maxLen).log[i], args)
  {
    var cmd := ParseArgs(name, args).cmd;
    var c := Exec(m, cmd, tk, maxLen).log[i];
    LoggedForms(cmd, m, tk, maxLen, i);
    LoggedParts(m, cmd, tk, maxLen, c);
    PartsOfTokens(name, args, cmd);
    hide Exec, ParseArgs, Flatten, WellFormed, WellTicked;
  }

  /** A request that the reader accepted leads to records that it accepts. */
  lemma RecordFits(tokens: seq<Bytes>, m: Flat, tk: Ticks, maxLen: int, lim: Resp.Limits, i: nat)
    requires Resp.CommandFits(tokens, lim) && Roomy(lim) && Parse(tokens).Parsed? && WellTicked(tk)
    requires i < |Exec(m, Parse(tokens).cmd, tk, maxLen).log|
    ensures Resp.CommandFits(ExecRaw(m, tokens, tk, maxLen).log[i], lim)
  {
    hide Exec, ParseArgs, LookupName, Lower, BuiltFrom, Record;
    ParseWellFormed(tokens);
    var name, args := LookupName(Lower(tokens[0])).value, tokens[1..];
    LoggedBuilt(name, args, m, tk, maxLen, i);
    BuiltRecordFits(name, args, Exec(m, Parse(tokens).cmd, tk, maxLen).log[i], lim);
  }

  lemma {:induction false} LogFits(qs: seq<Request>, maxLen: int, lim: Resp.Limits)
    requires Roomy(lim) && forall i :: 0 <= i < |qs| ==> WellTicked(qs[i].tk) && Resp.CommandFits(qs[i].tokens, lim)
    ensures P.AllFit(RawLog(qs, maxLen), lim)
  {
    if qs != [] {
      var n := |qs| - 1;
      var q, m := qs[n], RawLive(qs[..n], maxLen);
      LogFits(qs[..n], maxLen, lim);
      hide Exec;
      if Parse(q.tokens).Parsed? {
        forall i | 0 <= i < |LastRecords(qs, maxLen)| ensures Resp.CommandFits(LastRecords(qs, maxLen)[i], lim) {
          RecordFits(q.tokens, m, q.tk, maxLen, lim, i);
        }
      }
    }
  }

  // -------------------------------------------------------- at the byte level

  const B: nat := 4096

  /** What a file cut off after the records of the first i requests, and before
      the end of the next record, gives back: exactly those records, and with
      them the store as the requests left it whenever the crash after request i
      is one to recover from. */
  lemma CrashRecovery(qs: seq<Request>, i: nat, cut: nat, st: Setting, clock: nat -> Ticks, maxLen: int)
    requires i <= |qs| && TimelyRun(TypedAll(qs), st) && ReplayedAt(qs[..i], clock, maxLen)
    requires P.AllFit(RawLog(qs, maxLen), Resp.DefaultLimits())
    requires cut <= |R.EncodeLog(RawLog(qs, maxLen))|
    requires P.Whole(RawLog(qs, maxLen), cut) == |RawLog(qs[..i], maxLen)|
    ensures var found := P.LoadAll(R.EncodeLog(RawLog(qs, maxLen))[..cut], B, Resp.DefaultLimits());
            found.cmds == RawLog(qs[..i], maxLen) &&
            (found.end == if P.CutInArgument(RawLog(qs, maxLen), cut) then Resp.Torn else Resp.Eof) &&
            (i > 0 ==>
               (InStep(RawLive(qs[..i], maxLen), P.RunTokens(map[], found.cmds, clock, maxLen), qs[i - 1].r, st) <==>
                RecoveredAt(TypedAll(qs), i - 1, st, maxLen)))
  {
    hide RawLog, RawLive, P.LoadAll, R.EncodeLog, P.Whole, P.CutInArgument, InStep, ReplayedAt;
    hide TimelyRun, Timely, WellTicked, LiveMap, ReplayMap, P.RunTokens;
    P.TornTail(RawLog(qs, maxLen), cut, B, Resp.DefaultLimits());
    RawLogPrefix(qs, i, maxLen);
    TimelyTicks(qs, i, st);
    LogReplays(qs[..i], clock, maxLen);
    RawLiveIsLive(qs[..i], maxLen);
    assert TypedAll(qs[..i]) == TypedAll(qs)[..i];
  }

  /** The store is recovered after a crash behind any request if and only if every
      command met its guard. */
  lemma CrashRecoveryExact(qs: seq<Request>, st: Setting, clock: nat -> Ticks, maxLen: int)
    requires TimelyRun(TypedAll(qs), st) && forall i :: 0 <= i <= |qs| ==> ReplayedAt(qs[..i], clock, maxLen)
    requires P.AllFit(RawLog(qs, maxLen), Resp.DefaultLimits())
    ensures (forall i :: 0 < i <= |qs| ==> Reloads(qs, i, st, clock, maxLen)) <==>
            (forall i :: 0 <= i < |qs| ==> GuardedAt(TypedAll(qs), i, st, maxLen))
  {
    hide TimelyRun, ReplayedAt, RawLog, P.AllFit, Reloads, GuardedAt, RecoveredAt;
    var evs := TypedAll(qs);
    forall i | 0 < i <= |qs| ensures Reloads(qs, i, st, clock, maxLen) <==> RecoveredAt(evs, i - 1, st, maxLen) {
      ReloadsIff(qs, i, st, clock, maxLen);
    }
    RecoveryExact(evs, st, maxLen);
    if forall i :: 0 < i <= |qs| ==> Reloads(qs, i, st, clock, maxLen) {
      forall i | 0 <= i < |evs| ensures RecoveredAt(evs, i, st, maxLen) {
        assert Reloads(qs, i + 1, st, clock, maxLen);
      }
    }
  }

  /** Loading the file that the first i requests have written gives back what they
      left. */
  ghost predicate Reloads(qs: seq<Request>, i: nat, st: Setting, clock: nat -> Ticks, maxLen: int)
    requires 0 < i <= |qs|
  {
    var file := R.EncodeLog(RawLog(qs[..i], maxLen));
    InStep(RawLive(qs[..i], maxLen),
           P.RunTokens(map[], P.LoadAll(file, B, Resp.DefaultLimits()).cmds, clock, maxLen), qs[i - 1].r, st)
  }

  lemma ReloadsIff(qs: seq<Request>, i: nat, st: Setting, clock: nat -> Ticks, maxLen: int)
    requires 0 < i <= |qs| && TimelyRun(TypedAll(qs), st) && ReplayedAt(qs[..i], clock, maxLen)
    requires P.AllFit(RawLog(qs, maxLen), Resp.DefaultLimits())
    ensures Reloads(qs, i, st, clock, maxLen) <==> RecoveredAt(TypedAll(qs), i - 1, st, maxLen)
  {
    hide RawLog, RawLive, P.LoadAll, R.EncodeLog, P.Whole, P.CutInArgument, InStep, ReplayedAt;
    hide TimelyRun, LiveMap, ReplayMap, P.RunTokens;
    var front := qs[..i];
    var log := RawLog(front, maxLen);
    RawLogPrefix(qs, i, maxLen);
    TimelyPrefix(qs, i, st);
    P.WholeOfAll(log);
    assert front[..i] == front;
    assert R.EncodeLog(log)[..|R.EncodeLog(log)|] == R.EncodeLog(log);
    CrashRecovery(front, i, |R.EncodeLog(log)|, st, clock, maxLen);
    assert TypedAll(front) == TypedAll(qs)[..i];
    assert TypedAll(front)[..i] == TypedAll(qs)[..i];
  }

  lemma TimelyTicks(qs: seq<Request>, i: nat, st: Setting)
    requires i <= |qs| && TimelyRun(TypedAll(qs), st)
    ensures forall j :: 0 <= j < i ==> WellTicked(qs[..i][j].tk)
  {
    hide WellTicked, WellFormed;
    forall j | 0 <= j < i ensures WellTicked(qs[..i][j].tk) { assert Timely(TypedAll(qs)[j], st); }
  }

  lemma {:induction false} RawLogPrefix(qs: seq<Request>, i: nat, maxLen: int)
    requires i <= |qs|
    ensures |RawLog(qs[..i], maxLen)| <= |RawLog(qs, maxLen)|
    ensures RawLog(qs, maxLen)[..|RawLog(qs[..i], maxLen)|] == RawLog(qs[..i], maxLen)
  {
    hide LastRecords;
    if i < |qs| {
      var n := |qs| - 1;
      RawLogPrefix(qs[..n], i, maxLen);
      assert qs[..n][..i] == qs[..i];
    } else {
      assert qs[..i] == qs;
    }
  }

  /** A request puts at most two records into the log, and two only for a SET
      with an expiry. */
  lemma RecordsPerRequest(m: Flat, cmd: Cmd, tk: Ticks, maxLen: int)
    ensures var log := Exec(m, cmd, tk, maxLen).log;
            |log| <= 2 &&
            (|log| == 2 ==> cmd.Set? && cmd.ttl.Some? && log[0] == Set(cmd.key, cmd.val, None, SetAlways)
                            && log[1].PExpireAt? && log[1].key == cmd.key)
  {
  }

  /** Wherever the file is cut, the records found are those of a number of whole
      requests, or split a SET with an expiry. */
  lemma {:induction false} CutLandsBetween(qs: seq<Request>, j: nat, maxLen: int) returns (i: nat)
    requires j <= |RawLog(qs, maxLen)|
    ensures i <= |qs| && |RawLog(qs[..i], maxLen)| <= j
    ensures j == |RawLog(qs[..i], maxLen)| ||
            (i < |qs| && j == |RawLog(qs[..i], maxLen)| + 1 && Typed(qs[i]).cmd.Set? && Typed(qs[i]).cmd.ttl.Some?)
  {
    hide RawLog, LastRecords, Typed;
    if qs == [] {
      i := 0;
      EmptyLog(maxLen);
      assert qs[..0] == [];
    } else {
      var n := |qs| - 1;
      LogStep(qs, maxLen);
      RecordsOfLast(qs, maxLen);
      if j == |RawLog(qs, maxLen)| {
        i := |qs|;
        assert qs[..i] == qs;
      } else if j <= |RawLog(qs[..n], maxLen)| {
        i := CutLandsBetween(qs[..n], j, maxLen);
        assert qs[..n][..i] == qs[..i];
      } else {
        i := n;
      }
    }
  }

  lemma RecordsOfLast(qs: seq<Request>, maxLen: int)
    requires qs != []
    ensures |LastRecords(qs, maxLen)| <= 2
    ensures var cmd := Typed(qs[|qs| - 1]).cmd; |LastRecords(qs, maxLen)| == 2 ==> cmd.Set? && cmd.ttl.Some?
  {
    var q, m := qs[|qs| - 1], RawLive(qs[..|qs| - 1], maxLen);
    RecordsPerRequest(m, Typed(q).cmd, q.tk, maxLen);
    hide Exec;
    assert Parse(q.tokens).Parsed? ==> |LastRecords(qs, maxLen)| == |Exec(m, Typed(q).cmd, q.tk, maxLen).log|;
  }

  /** A cut between those two records leaves the key without its expiry: it is
      visible at every later time, long after the live key has gone. */
  lemma SplitSetNeverExpires(m: Flat, p: Flat, e: Event, t: int, maxLen: int)
    requires e.cmd.Set? && |Exec(m, e.cmd, e.tk, maxLen).log| == 2
    ensures Live(ReplayRecords(p, Exec(m, e.cmd, e.tk, maxLen).log[..1], e.r, maxLen), e.cmd.key, t)
         == Some(Entry(e.cmd.val, 0))
  {
    var log := Exec(m, e.cmd, e.tk, maxLen).log;
    assert log[..1] == [log[0]];
    ReplayOne(p, log[0], e.r, maxLen);
  }

  /** A file cut between those two records, from its bytes: the store as the
      requests before left it, but for the key of the SET, which is there for good. */
  lemma CrashSplit(qs: seq<Request>, i: nat, cut: nat, clock: nat -> Ticks, maxLen: int)
    requires i < |qs| && ReplayedAt(qs[..i], clock, maxLen) && forall j :: 0 <= j < |qs| ==> WellTicked(qs[j].tk)
    requires P.AllFit(RawLog(qs, maxLen), Resp.DefaultLimits())
    requires |LastRecords(qs[..i + 1], maxLen)| == 2 && cut <= |R.EncodeLog(RawLog(qs, maxLen))|
    requires P.Whole(RawLog(qs, maxLen), cut) == |RawLog(qs[..i], maxLen)| + 1
    ensures var cmd := Typed(qs[i]).cmd;
            var found := P.LoadAll(R.EncodeLog(RawLog(qs, maxLen))[..cut], B, Resp.DefaultLimits()).cmds;
            cmd.Set? &&
            P.RunTokens(map[], found, clock, maxLen)
            == ReplayMap(TypedAll(qs[..i]), maxLen)[cmd.key := Entry(cmd.val, 0)]
  {
    hide RawLog, RawLive, P.LoadAll, R.EncodeLog, P.Whole, P.CutInArgument, ReplayedAt, WellTicked, ReplayMap;
    hide Exec, Parse, P.RunTokens, LastRecords, Typed, TypedAll;
    var front, next := qs[..i], qs[..i + 1];
    assert next[..i] == front && next[i] == qs[i];
    P.TornTail(RawLog(qs, maxLen), cut, B, Resp.DefaultLimits());
    RawLogPrefix(qs, i + 1, maxLen);
    LogStep(next, maxLen);
    LogReplays(front, clock, maxLen);
    LastRecordsParse(next, maxLen);
    var done, recs, m := RawLog(front, maxLen), LastRecords(next, maxLen), RawLive(front, maxLen);
    var cmd := Typed(qs[i]).cmd;
    RecordsPerRequest(m, cmd, qs[i].tk, maxLen);
    var log := Exec(m, cmd, qs[i].tk, maxLen).log;
    assert RawLog(qs, maxLen)[..|done| + 1] == RawLog(next, maxLen)[..|done| + 1] == done + [recs[0]];
    SetAfter(done, recs[0], log[0], clock, maxLen);
  }

  lemma SetAfter(done: seq<seq<Bytes>>, rec: seq<Bytes>, c: Cmd, clock: nat -> Ticks, maxLen: int)
    requires PlainSet(c) && Parse(rec) == Parsed(c)
    ensures P.RunTokens(map[], done + [rec], clock, maxLen)
         == P.RunTokens(map[], done, clock, maxLen)[c.key := Entry(c.val, 0)]
  {
    hide Exec, Parse, P.RunTokens;
    var m := P.RunTokens(map[], done, clock, maxLen);
    RunIsReplay(map[], done, [rec], [c], 0, clock, maxLen);
    ReplayOne(m, c, 0, maxLen);
    PlainSetExec(m, c.key, c.val, 0, maxLen);
  }

  lemma LogStep(qs: seq<Request>, maxLen: int)
    requires qs != []
    ensures RawLog(qs, maxLen) == RawLog(qs[..|qs| - 1], maxLen) + LastRecords(qs, maxLen)
  {
  }

  // ------------------------------------------------------- on the real stores

  /** The live clock does not go back between requests. */
  ghost predicate Served(qs: seq<Request>) {
    (forall i :: 0 <= i < |qs| ==> WellTicked(qs[i].tk)) &&
    forall i, j :: 0 <= i < j < |qs| ==> qs[i].tk.stamp <= qs[j].tk.check(0)
  }

  lemma RawAgrees(a: Flat, b: Flat, tokens: seq<Bytes>, tk: Ticks, maxLen: int)
    requires SameView(a, b, tk.check(0)) && WellTicked(tk)
    ensures ExecRaw(a, tokens, tk, maxLen).log == ExecRaw(b, tokens, tk, maxLen).log
    ensures SameView(ExecRaw(a, tokens, tk, maxLen).m, ExecRaw(b, tokens, tk, maxLen).m, tk.stamp)
  {
    P.RawCongruence(a, b, tokens, tk, maxLen);
    if Parse(tokens).Parsed? { P.ExecCongruence(a, b, Parse(tokens).cmd, tk, maxLen); }
  }

  lemma ServeStep(after: Flat, m: Flat, qs: seq<Request>, i: nat, maxLen: int)
    requires i < |qs| && Served(qs)
    requires i == 0 ==> m == map[]
    requires i > 0 ==> SameView(m, RawLive(qs[..i], maxLen), qs[i - 1].tk.stamp)
    requires SameView(after, ExecRaw(m, qs[i].tokens, qs[i].tk, maxLen).m, qs[i].tk.stamp)
    ensures SameView(after, RawLive(qs[..i + 1], maxLen), qs[i].tk.stamp)
    ensures RawLog(qs[..i + 1], maxLen) ==
            RawLog(qs[..i], maxLen) + ExecRaw(m, qs[i].tokens, qs[i].tk, maxLen).log
  {
    hide ExecRaw;
    var q, ref := qs[i], RawLive(qs[..i], maxLen);
    assert qs[..i + 1][..i] == qs[..i];
    if i > 0 { SameViewLater(m, ref, qs[i - 1].tk.stamp, q.tk.check(0)); }
    RawAgrees(m, ref, q.tokens, q.tk, maxLen);
    forall k ensures Live(after, k, q.tk.stamp) == Live(RawLive(qs[..i + 1], maxLen), k, q.tk.stamp) {
      assert Live(after, k, q.tk.stamp) == Live(ExecRaw(m, q.tokens, q.tk, maxLen).m, k, q.tk.stamp);
    }
  }

  /** Serving requests through the registry: the store looks like the reference
      run and the file holds its log. */
  method Serve(reg: R.Registry, qs: seq<Request>)
    requires reg.store.Valid() && reg.store.flat == map[] && Served(qs)
    requires reg.aof != null && !reg.aof.closed && reg.aof.file == []
    modifies reg.store, reg.aof
    ensures reg.store.Valid() && reg.aof.file == R.EncodeLog(RawLog(qs, reg.store.maxValLen))
    ensures qs != [] ==>
              SameView(reg.store.flat, RawLive(qs, reg.store.maxValLen), qs[|qs| - 1].tk.stamp)
  {
    hide S.Store.Valid, S.Total, ExecRaw, RawLive, RawLog, SameView, R.EncodeLog, WellTicked;
    assert qs[..0] == [];
    assert R.EncodeLog(RawLog([], reg.store.maxValLen)) == [] by { EmptyLog(reg.store.maxValLen); }
    for i := 0 to |qs|
      invariant reg.store.Valid() && !reg.aof.closed
      invariant reg.aof.file == R.EncodeLog(RawLog(qs[..i], reg.store.maxValLen))
      invariant i == 0 ==> reg.store.flat == map[]
      invariant i > 0 ==> SameView(reg.store.flat, RawLive(qs[..i], reg.store.maxValLen), qs[i - 1].tk.stamp)
    {
      ghost var m := reg.store.flat;
      var _ := reg.Execute(qs[i].tokens, qs[i].tk);
      ServeStep(reg.store.flat, m, qs, i, reg.store.maxValLen);
      R.EncodeLogConcat(RawLog(qs[..i], reg.store.maxValLen),
                        ExecRaw(m, qs[i].tokens, qs[i].tk, reg.store.maxValLen).log);
    }
    assert qs[..|qs|] == qs;
  }

  lemma EmptyLog(maxLen: int)
    ensures RawLog([], maxLen) == [] && R.EncodeLog(RawLog([], maxLen)) == []
  {
  }

  lemma InStepOfViews(m: Flat, p: Flat, a: Flat, b: Flat, r: int, st: Setting)
    requires SameView(a, m, r) && SameView(b, p, r)
    ensures InStep(a, b, r, st) <==> InStep(m, p, r, st)
  {
    forall k ensures Kept(Live(a, k, r), Live(b, k, r), st) <==> Kept(Live(m, k, r), Live(p, k, r), st) {
      assert Live(a, k, r) == Live(m, k, r) && Live(b, k, r) == Live(p, k, r);
    }
  }

  /** The whole story: requests are served by one store; the server dies when
      the file has reached byte `cut`, past the records of the first i requests
      and before the end of the next record; another store, with other shards,
      loads the file. If those requests met their guards it shows what they left,
      and when none came after them, what the first store shows. */
  method ServeThenRecover(live: R.Registry, spare: R.Registry, qs: seq<Request>, cut: nat, ghost i: nat,
                          ghost st: Setting, clock: nat -> Ticks)
    returns (n: nat, err: Option<Resp.ReadError>)
    requires live.store.Valid() && live.store.flat == map[] && Served(qs) && i <= |qs|
    requires live.aof != null && !live.aof.closed && live.aof.file == []
    requires spare.store.Valid() && spare.store.flat == map[] && spare.aof == null && spare.store != live.store
    requires spare.store.maxValLen == live.store.maxValLen
    requires TimelyRun(TypedAll(qs), st) && ReplayedAt(qs[..i], clock, live.store.maxValLen)
    requires P.WellClocked(clock) && P.AllFit(RawLog(qs, live.store.maxValLen), Resp.DefaultLimits())
    requires cut <= |R.EncodeLog(RawLog(qs, live.store.maxValLen))|
    requires P.Whole(RawLog(qs, live.store.maxValLen), cut) == |RawLog(qs[..i], live.store.maxValLen)|
    modifies live.store, live.aof, spare.store
    ensures n == |RawLog(qs[..i], live.store.maxValLen)|
    ensures err.Some? <==> P.CutInArgument(RawLog(qs, live.store.maxValLen), cut)
    ensures i == 0 ==> spare.store.flat == map[]
    ensures i > 0 && (forall j :: 0 <= j < i ==> GuardedAt(TypedAll(qs), j, st, live.store.maxValLen)) ==>
              InStep(RawLive(qs[..i], live.store.maxValLen), spare.store.flat, qs[i - 1].r, st)
    ensures i > 0 && i == |qs| ==>
              (InStep(live.store.flat, spare.store.flat, qs[i - 1].r, st) <==>
               RecoveredAt(TypedAll(qs), i - 1, st, live.store.maxValLen))
  {
    hide S.Store.Valid, S.Total, ExecRaw, RawLive, SameView, R.EncodeLog, P.LoadAll, P.RunTokens, RecoveredAt;
    hide InStep, ReplayedAt, P.Whole, P.Follows, TimelyRun, GuardedAt, P.CutInArgument, RawLog;
    Serve(live, qs);
    n, err := P.Load(Some(live.aof.file[..cut]), spare, clock);
    ghost var max := live.store.maxValLen;
    CrashRecovery(qs, i, cut, st, clock, max);
    if i == 0 {
      NothingLoaded(spare.store.flat, qs, clock, max);
    } else {
      ghost var r := qs[i - 1].r;
      ghost var m, p := RawLive(qs[..i], max), P.RunTokens(map[], RawLog(qs[..i], max), clock, max);
      TimelyPrefix(qs, i, st);
      LoadedAtEnd(spare.store.flat, qs[..i], st, clock, max);
      SameViewSelf(m, r);
      InStepOfViews(m, p, m, spare.store.flat, r, st);
      if forall j :: 0 <= j < i ==> GuardedAt(TypedAll(qs), j, st, max) {
        GuardedPrefix(TypedAll(qs), i - 1, st, max);
      }
      if i == |qs| {
        assert qs[..i] == qs;
        ServedAtEnd(live.store.flat, qs, st, max);
        InStepOfViews(m, p, live.store.flat, spare.store.flat, r, st);
      }
    }
  }

  lemma NothingLoaded(b: Flat, qs: seq<Request>, clock: nat -> Ticks, maxLen: int)
    requires P.Follows(b, map[], RawLog(qs[..0], maxLen), |RawLog(qs[..0], maxLen)|, clock, maxLen)
    ensures b == map[]
  {
  }

  lemma SameViewSelf(m: Flat, r: int)
    ensures SameView(m, m, r)
  {
  }

  lemma TimelyPrefix(qs: seq<Request>, i: nat, st: Setting)
    requires 0 < i <= |qs| && TimelyRun(TypedAll(qs), st)
    ensures TimelyRun(TypedAll(qs[..i]), st)
  {
    hide Timely;
    assert TypedAll(qs[..i]) == TypedAll(qs)[..i];
  }

  lemma ServedAtEnd(a: Flat, qs: seq<Request>, st: Setting, maxLen: int)
    requires qs != [] && TimelyRun(TypedAll(qs), st)
    requires SameView(a, RawLive(qs, maxLen), qs[|qs| - 1].tk.stamp)
    ensures SameView(a, RawLive(qs, maxLen), qs[|qs| - 1].r)
  {
    hide RawLive, SameView, WellTicked, WellFormed;
    assert Timely(TypedAll(qs)[|qs| - 1], st);
    SameViewLater(a, RawLive(qs, maxLen), qs[|qs| - 1].tk.stamp, qs[|qs| - 1].r);
  }

  lemma LoadedAtEnd(b: Flat, qs: seq<Request>, st: Setting, clock: nat -> Ticks, maxLen: int)
    requires qs != [] && TimelyRun(TypedAll(qs), st) && ReplayedAt(qs, clock, maxLen)
    requires P.Follows(b, map[], RawLog(qs, maxLen), |RawLog(qs, maxLen)|, clock, maxLen)
    ensures SameView(b, P.RunTokens(map[], RawLog(qs, maxLen), clock, maxLen), qs[|qs| - 1].r)
  {
    hide P.RunTokens, SameView, P.Follows, ReplayedAt, RawLog;
    var evs := TypedAll(qs);
    assert Timely(evs[|qs| - 1], st);
    assert evs[|qs| - 1].r == qs[|qs| - 1].r && 0 <= evs[|qs| - 1].tk.check(0);
    LastReading(qs, st, clock, maxLen, qs[|qs| - 1].r);
    FollowsLater(b, RawLog(qs, maxLen), clock, maxLen, qs[|qs| - 1].r);
  }

  lemma FollowsLater(b: Flat, log: seq<seq<Bytes>>, clock: nat -> Ticks, maxLen: int, r: int)
    requires P.Follows(b, map[], log, |log|, clock, maxLen) && 0 <= r
    requires log != [] ==> clock(|log| - 1).stamp <= r
    ensures SameView(b, P.RunTokens(map[], log, clock, maxLen), r)
  {
    hide P.RunTokens, SameView;
    assert log[..|log|] == log;
    SameViewLater(b, P.RunTokens(map[], log, clock, maxLen), if |log| == 0 then 0 else clock(|log| - 1).stamp, r);
  }

  lemma {:induction false} LastReading(qs: seq<Request>, st: Setting, clock: nat -> Ticks, maxLen: int, r: int)
    requires ReplayedAt(qs, clock, maxLen) && TimelyRun(TypedAll(qs), st)
    requires forall i :: 0 <= i < |qs| ==> TypedAll(qs)[i].r <= r
    ensures RawLog(qs, maxLen) != [] ==> clock(|RawLog(qs, maxLen)| - 1).stamp <= r
  {
    hide Timely, LastRecords;
    if qs != [] {
      var n := |qs| - 1;
      if LastRecords(qs, maxLen) == [] {
        assert TypedAll(qs[..n]) == TypedAll(qs)[..n];
        LastReading(qs[..n], st, clock, maxLen, r);
        assert RawLog(qs, maxLen) == RawLog(qs[..n], maxLen);
      } else {
        assert TypedAll(qs)[n].r == qs[n].r;
      }
    }
  }
}
