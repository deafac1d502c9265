/** Loading the file: reading commands until it ends, executing each, and what a
    file that was cut off at any byte gives back. */
module Persist {
  import opened Basics
  import opened TimedMap
  import opened Command
  import Resp
  import RespIO
  import S = Store
  import R = Registry
  import F = Refinement

  datatype Loaded = Loaded(cmds: seq<seq<Bytes>>, end: Resp.ReadError)

  /** The commands that can be read off the front of a file, and how it ends. */
  function LoadAll(input: Bytes, B: nat, lim: Resp.Limits): (r: Loaded)
    requires B > 0
    decreases |input|
  {
    match Resp.Command(input, B, lim)
    case Bad(e) => Loaded([], e)
    case Got(args, rest) =>
      var more := LoadAll(rest, B, lim);
      Loaded([args] + more.cmds, more.end)
  }

  predicate AllFit(recs: seq<seq<Bytes>>, lim: Resp.Limits) {
    forall i :: 0 <= i < |recs| ==> Resp.CommandFits(recs[i], lim)
  }

  /** How many records lie wholly inside the first `cut` bytes. */
  function Whole(recs: seq<seq<Bytes>>, cut: nat): (j: nat)
    ensures j <= |recs|
  {
    if recs == [] || cut < |Resp.EncodeCommand(recs[0])| then 0
    else 1 + Whole(recs[1..], cut - |Resp.EncodeCommand(recs[0])|)
  }

  /** The cut is inside the bytes of an argument of the record it splits. */
  predicate CutInArgument(recs: seq<seq<Bytes>>, cut: nat) {
    recs != [] &&
    (if cut < |Resp.EncodeCommand(recs[0])|
     then Resp.InBody(recs[0], cut - |Resp.EncodeLen(|recs[0]|)|)
     else CutInArgument(recs[1..], cut - |Resp.EncodeCommand(recs[0])|))
  }

  lemma {:induction false} WholeMeaning(recs: seq<seq<Bytes>>, cut: nat)
    ensures |R.EncodeLog(recs[..Whole(recs, cut)])| <= cut
    ensures Whole(recs, cut) < |recs| ==> cut < |R.EncodeLog(recs[..Whole(recs, cut) + 1])|
  {
    hide Resp.EncodeCommand;
    if recs == [] {
    } else if cut < |Resp.EncodeCommand(recs[0])| {
      LogHead(recs[..1]);
    } else {
      var j, rest := Whole(recs, cut), cut - |Resp.EncodeCommand(recs[0])|;
      WholeMeaning(recs[1..], rest);
      LogHead(recs[..j]);
      assert recs[..j][1..] == recs[1..][..j - 1];
      if j < |recs| {
        LogHead(recs[..j + 1]);
        assert recs[..j + 1][1..] == recs[1..][..j];
      }
    }
  }

  lemma LogHead(recs: seq<seq<Bytes>>)
    requires recs != []
    ensures R.EncodeLog(recs) == Resp.EncodeCommand(recs[0]) + R.EncodeLog(recs[1..])
  {
    hide Resp.EncodeCommand;
    var one := [recs[0]];
    assert recs == one + recs[1..];
    R.EncodeLogConcat(one, recs[1..]);
    assert one[..0] == [];
    assert R.EncodeLog(one[..0]) == [];
    assert R.EncodeLog(one) == [] + Resp.EncodeCommand(recs[0]);
  }

  /** Whatever byte the file is cut at, loading it finds exactly the records that
      lie wholly before the cut, in order. It reports an error when the cut is
      inside the bytes of an argument, and otherwise takes the cut for the end. */
  lemma {:induction false} TornTail(recs: seq<seq<Bytes>>, cut: nat, B: nat, lim: Resp.Limits)
    requires B > 0 && Resp.Sane(lim) && AllFit(recs, lim) && cut <= |R.EncodeLog(recs)|
    ensures LoadAll(R.EncodeLog(recs)[..cut], B, lim)
         == Loaded(recs[..Whole(recs, cut)], if CutInArgument(recs, cut) then Resp.Torn else Resp.Eof)
  {
    hide Resp.EncodeCommand, Resp.Command, Resp.CommandFits, Resp.InBody, Resp.Sane;
    var file := R.EncodeLog(recs);
    if recs == [] {
      EmptyFile(B, lim);
      assert file[..cut] == [];
    } else {
      LogHead(recs);
      var head, tail := Resp.EncodeCommand(recs[0]), R.EncodeLog(recs[1..]);
      if cut < |head| {
        assert file[..cut] == head[..cut];
        Resp.TornCommand(recs[0], cut, B, lim);
      } else {
        var rest := tail[..cut - |head|];
        assert file[..cut] == head + rest;
        Resp.CommandRoundTrip(recs[0], rest, B, lim);
        TornTail(recs[1..], cut - |head|, B, lim);
        assert [recs[0]] + recs[1..][..Whole(recs[1..], cut - |head|)] == recs[..Whole(recs, cut)];
      }
    }
  }

  lemma EmptyFile(B: nat, lim: Resp.Limits)
    requires B > 0
    ensures Resp.Command([], B, lim) == Resp.Bad(Resp.Eof) && LoadAll([], B, lim) == Loaded([], Resp.Eof)
  {
  }

  /** Different logs make different files. */
  lemma LogUnique(a: seq<seq<Bytes>>, b: seq<seq<Bytes>>, B: nat, lim: Resp.Limits)
    requires B > 0 && Resp.Sane(lim) && AllFit(a, lim) && AllFit(b, lim)
    requires R.EncodeLog(a) == R.EncodeLog(b)
    ensures a == b
  {
    WholeFile(a, B, lim);
    WholeFile(b, B, lim);
  }

  lemma WholeFile(recs: seq<seq<Bytes>>, B: nat, lim: Resp.Limits)
    requires B > 0 && Resp.Sane(lim) && AllFit(recs, lim)
    ensures LoadAll(R.EncodeLog(recs), B, lim).cmds == recs
  {
    hide Resp.EncodeCommand, LoadAll;
    var file := R.EncodeLog(recs);
    TornTail(recs, |file|, B, lim);
    WholeOfAll(recs);
    assert file[..|file|] == file;
    assert recs[..|recs|] == recs;
  }

  lemma {:induction false} WholeOfAll(recs: seq<seq<Bytes>>)
    ensures Whole(recs, |R.EncodeLog(recs)|) == |recs|
  {
    hide Resp.EncodeCommand;
    if recs != [] {
      LogHead(recs);
      WholeOfAll(recs[1..]);
    }
  }

  /** A record beyond the limits of the loader, which are fixed while those of the
      server can be raised, stops the load there with an error. */
  lemma {:induction false} LargeRecordStops(recs: seq<seq<Bytes>>, j: nat, B: nat, lim: Resp.Limits)
    requires B > 0 && Resp.Sane(lim) && j < |recs| && AllFit(recs[..j], lim)
    requires !Resp.CommandFits(recs[j], lim) && Resp.Sized(recs[j])
    ensures LoadAll(R.EncodeLog(recs), B, lim) == Loaded(recs[..j], Resp.Protocol)
  {
    hide Resp.EncodeCommand, Resp.Command, Resp.CommandFits, Resp.Sane, Resp.Sized;
    var rest := R.EncodeLog(recs[1..]);
    LogHead(recs);
    if j == 0 {
      Resp.LargeCommand(recs[0], rest, B, lim);
    } else {
      assert recs[0] == recs[..j][0];
      Resp.CommandRoundTrip(recs[0], rest, B, lim);
      assert recs[1..][..j - 1] == recs[..j][1..];
      LargeRecordStops(recs[1..], j - 1, B, lim);
      assert [recs[0]] + recs[1..][..j - 1] == recs[..j];
    }
  }

  /** A log is read back if and only if all its records are within the limits. */
  lemma LoadsBackIff(recs: seq<seq<Bytes>>, B: nat, lim: Resp.Limits)
    requires B > 0 && Resp.Sane(lim) && forall i :: 0 <= i < |recs| ==> Resp.Sized(recs[i])
    ensures LoadAll(R.EncodeLog(recs), B, lim).cmds == recs <==> AllFit(recs, lim)
  {
    if AllFit(recs, lim) {
      WholeFile(recs, B, lim);
    } else {
      var j := FirstLarge(recs, lim);
      LargeRecordStops(recs, j, B, lim);
    }
  }

  lemma FirstLarge(recs: seq<seq<Bytes>>, lim: Resp.Limits) returns (j: nat)
    requires !AllFit(recs, lim)
    ensures j < |recs| && AllFit(recs[..j], lim) && !Resp.CommandFits(recs[j], lim)
  {
    hide Resp.CommandFits;
    j := 0;
    while Resp.CommandFits(recs[j], lim)
      invariant j < |recs| && AllFit(recs[..j], lim)
      decreases |recs| - j
    {
      assert j + 1 < |recs|;
      j := j + 1;
    }
  }

  // -------------------------------------------------------------- congruence

  lemma SameBatch(a: Flat, b: Flat, pairs: seq<Pair>, tk: Ticks, t: int)
    requires SameView(a, b, tk.check(0)) && WellTicked(tk) && tk.check(0) <= t
    ensures SameView(PutAll(a, pairs), PutAll(b, pairs), t)
    ensures AnyLive(a, pairs, Sample(tk.check, |pairs|)) <==> AnyLive(b, pairs, Sample(tk.check, |pairs|))
  {
    SameViewLater(a, b, tk.check(0), t);
    F.SamePutAll(a, b, pairs, t);
    F.SameAnyLive(a, b, pairs, Sample(tk.check, |pairs|), tk.check(0));
  }

  lemma SameDel(a: Flat, b: Flat, keys: seq<Bytes>, tk: Ticks)
    requires SameView(a, b, tk.check(0)) && WellTicked(tk)
    ensures var x, y := ExecDel(a, keys, tk), ExecDel(b, keys, tk);
            x.answer == y.answer && x.log == y.log && SameView(x.m, y.m, tk.stamp)
  {
    F.SameDelCount(a, b, keys, Sample(tk.check, |keys|), tk.check(0));
    SameViewLater(a, b, tk.check(0), tk.stamp);
    F.SameDelAll(a, b, keys, tk.stamp);
  }

  predicate OneKey(cmd: Cmd) {
    cmd.Get? || cmd.Set? || cmd.SetNew? || cmd.GetSet? || cmd.IncrBy? || cmd.Append? || cmd.Persist? ||
    (cmd.ExpireIn? && cmd.n > 0) || cmd.ExpireAt? || cmd.PExpireAt?
  }

  /** A command on one key depends on, and changes, what is live there only. */
  lemma OneKeyLocal(a: Flat, b: Flat, cmd: Cmd, tk: Ticks, maxLen: int)
    requires OneKey(cmd) && Live(a, cmd.key, tk.check(0)) == Live(b, cmd.key, tk.check(0))
    ensures var x, y := Exec(a, cmd, tk, maxLen), Exec(b, cmd, tk, maxLen);
            x.answer == y.answer && x.log == y.log &&
            exists o :: x.m == Update(a, cmd.key, o) && y.m == Update(b, cmd.key, o)
  {
    var x := Exec(a, cmd, tk, maxLen);
    hide SetKey, IncrKey, AppendKey, PersistKey, ExpireKey, ExpireAtKey, Live, Deadline;
    var o := if cmd.key in x.m then Some(x.m[cmd.key]) else None;
    assert x.m == Update(a, cmd.key, o);
    assert Exec(b, cmd, tk, maxLen).m == Update(b, cmd.key, o);
  }

  /** Stores that look alike execute alike. */
  lemma ExecCongruence(a: Flat, b: Flat, cmd: Cmd, tk: Ticks, maxLen: int)
    requires SameView(a, b, tk.check(0)) && WellTicked(tk)
    ensures var x, y := Exec(a, cmd, tk, maxLen), Exec(b, cmd, tk, maxLen);
            x.answer == y.answer && x.log == y.log && SameView(x.m, y.m, tk.stamp)
  {
    SameViewLater(a, b, tk.check(0), tk.stamp);
    if OneKey(cmd) {
      assert Live(a, cmd.key, tk.check(0)) == Live(b, cmd.key, tk.check(0));
      OneKeyLocal(a, b, cmd, tk, maxLen);
      var x, y := Exec(a, cmd, tk, maxLen), Exec(b, cmd, tk, maxLen);
      var o :| x.m == Update(a, cmd.key, o) && y.m == Update(b, cmd.key, o);
      SameViewUpdate(a, b, cmd.key, o, tk.stamp);
    } else {
      match cmd
      case Exists(keys) => F.SameCount(a, b, keys, Sample(tk.check, |keys|), tk.check(0));
      case Del(keys) => SameDel(a, b, keys, tk);
      case ExpireIn(key, _, _) => SameDel(a, b, [key], tk);
      case Flush =>
      case MSet(pairs) => SameBatch(a, b, pairs, tk, tk.stamp);
      case MSetNX(pairs) => SameBatch(a, b, pairs, tk, tk.stamp);
    }
  }

  // ------------------------------------------------------------------- load

  /** Executing token lists one after the other, the i-th at clock(i). */
  ghost function RunTokens(m: Flat, cmds: seq<seq<Bytes>>, clock: nat -> Ticks, maxLen: int): Flat {
    if cmds == [] then m
    else
      var n := |cmds| - 1;
      ExecRaw(RunTokens(m, cmds[..n], clock, maxLen), cmds[n], clock(n), maxLen).m
  }

  ghost predicate WellClocked(clock: nat -> Ticks) {
    (forall i :: WellTicked(clock(i))) && forall i, j :: 0 <= i < j ==> clock(i).stamp <= clock(j).check(0)
  }

  lemma RawCongruence(a: Flat, b: Flat, tokens: seq<Bytes>, tk: Ticks, maxLen: int)
    requires SameView(a, b, tk.check(0)) && WellTicked(tk)
    ensures SameView(ExecRaw(a, tokens, tk, maxLen).m, ExecRaw(b, tokens, tk, maxLen).m, tk.stamp)
  {
    if Parse(tokens).Parsed? {
      ExecCongruence(a, b, Parse(tokens).cmd, tk, maxLen);
    } else {
      SameViewLater(a, b, tk.check(0), tk.stamp);
    }
  }

  /** Load: execute every command of the file against a registry that does not
      propagate. The number returned is that of the commands executed. A missing
      file is as good as an empty one. */
  method Load(path: Option<Bytes>, reg: R.Registry, clock: nat -> Ticks) returns (n: nat, err: Option<Resp.ReadError>)
    requires reg.store.Valid() && reg.aof == null && WellClocked(clock)
    modifies reg.store
    ensures reg.store.Valid()
    ensures path.None? ==> reg.store.flat == old(reg.store.flat)
    ensures var all := LoadAll(if path.None? then [] else path.value, 4096, Resp.DefaultLimits());
            n == |all.cmds| &&
            err == (if all.end == Resp.Eof then None else Some(all.end)) &&
            Follows(reg.store.flat, old(reg.store.flat), all.cmds, n, clock, reg.store.maxValLen)
  {
    hide S.Store.Valid, S.Total, ExecRaw, Resp.Command, LoadAll, RunTokens, SameView, WellTicked;
    var lim := Resp.DefaultLimits();
    ghost var m0 := reg.store.flat;
    if path.None? {
      EmptyFile(4096, lim);
      FollowsStart(m0, LoadAll([], 4096, lim).cmds, clock, reg.store.maxValLen);
      return 0, None;
    }
    var br := new RespIO.Reader(path.value, 4096);
    ghost var all := LoadAll(path.value, 4096, lim);
    n := 0;
    assert all.cmds[0..] == all.cmds;
    FollowsStart(m0, all.cmds, clock, reg.store.maxValLen);
    while true
      invariant br.Valid() && br.B == 4096 && reg.store.Valid() && n <= |all.cmds|
      invariant LoadAll(br.rest, 4096, lim) == Loaded(all.cmds[n..], all.end)
      invariant Follows(reg.store.flat, m0, all.cmds, n, clock, reg.store.maxValLen)
      decreases |br.rest|
    {
      LoadNext(br.rest, all, n, lim);
      var r := br.ReadCommand(lim);
      if r.Failed? {
        return n, if r.err == Resp.Eof then None else Some(r.err);
      }
      ghost var m := reg.store.flat;
      LoadStep(m, m0, all.cmds, n, clock, reg.store.maxValLen);
      var _ := reg.Execute(r.val, clock(n));
      LoadChain(reg.store.flat, m, m0, all.cmds, n, clock, reg.store.maxValLen);
      n := n + 1;
    }
  }

  /** What the next read of the loop finds. */
  lemma LoadNext(rest: Bytes, all: Loaded, n: nat, lim: Resp.Limits)
    requires n <= |all.cmds| && LoadAll(rest, 4096, lim) == Loaded(all.cmds[n..], all.end)
    ensures var next := Resp.Command(rest, 4096, lim);
            if next.Bad? then n == |all.cmds| && next.err == all.end
            else n < |all.cmds| && next.val == all.cmds[n] && |next.rest| < |rest| &&
                 LoadAll(next.rest, 4096, lim) == Loaded(all.cmds[n + 1..], all.end)
  {
    hide Resp.Command;
    match Resp.Command(rest, 4096, lim)
    case Bad(e) =>
    case Got(args, tail) =>
      var more := LoadAll(tail, 4096, lim);
      assert all.cmds[n..] == [args] + more.cmds;
      assert all.cmds[n + 1..] == all.cmds[n..][1..];
      assert more.cmds == ([args] + more.cmds)[1..];
  }

  /** After n commands the store looks like the reference run. */
  ghost predicate Follows(m: Flat, m0: Flat, cmds: seq<seq<Bytes>>, n: nat, clock: nat -> Ticks, maxLen: int)
    requires n <= |cmds|
  {
    (n == 0 ==> m == m0) &&
    SameView(m, RunTokens(m0, cmds[..n], clock, maxLen), if n == 0 then 0 else clock(n - 1).stamp)
  }

  lemma FollowsStart(m0: Flat, cmds: seq<seq<Bytes>>, clock: nat -> Ticks, maxLen: int)
    ensures Follows(m0, m0, cmds, 0, clock, maxLen)
  {
  }

  /** The store and the reference still look alike when the next command starts. */
  lemma LoadStep(m: Flat, m0: Flat, cmds: seq<seq<Bytes>>, n: nat, clock: nat -> Ticks, maxLen: int)
    requires WellClocked(clock) && n < |cmds|
    requires Follows(m, m0, cmds, n, clock, maxLen)
    ensures WellTicked(clock(n)) && SameView(m, RunTokens(m0, cmds[..n], clock, maxLen), clock(n).check(0))
  {
    if n > 0 {
      SameViewLater(m, RunTokens(m0, cmds[..n], clock, maxLen), clock(n - 1).stamp, clock(n).check(0));
    }
  }

  lemma LoadChain(after: Flat, m: Flat, m0: Flat, cmds: seq<seq<Bytes>>, n: nat, clock: nat -> Ticks, maxLen: int)
    requires WellClocked(clock) && n < |cmds|
    requires SameView(m, RunTokens(m0, cmds[..n], clock, maxLen), clock(n).check(0))
    requires SameView(after, ExecRaw(m, cmds[n], clock(n), maxLen).m, clock(n).stamp)
    ensures Follows(after, m0, cmds, n + 1, clock, maxLen)
  {
    hide ExecRaw;
    assert cmds[..n + 1][..n] == cmds[..n];
    var ref := RunTokens(m0, cmds[..n], clock, maxLen);
    assert WellTicked(clock(n));
    RawCongruence(m, ref, cmds[n], clock(n), maxLen);
    var t := clock(n).stamp;
    forall k ensures Live(after, k, t) == Live(RunTokens(m0, cmds[..n + 1], clock, maxLen), k, t) {
      assert Live(after, k, t) == Live(ExecRaw(m, cmds[n], clock(n), maxLen).m, k, t);
    }
  }
}
