/** The append-only file and the registry that executes commands against the
    store and appends the rewritten ones. */
module Registry {
  import opened Basics
  import opened TimedMap
  import opened Command
  import Resp
  import RespIO
  import S = Store

  // -------------------------------------------------------------- the file

  /** The bytes of a list of log records. */
  function EncodeLog(recs: seq<seq<Bytes>>): Bytes {
    if recs == [] then [] else EncodeLog(recs[..|recs| - 1]) + Resp.EncodeCommand(recs[|recs| - 1])
  }

  lemma {:induction false} EncodeLogConcat(a: seq<seq<Bytes>>, b: seq<seq<Bytes>>)
    ensures EncodeLog(a + b) == EncodeLog(a) + EncodeLog(b)
  {
    hide Resp.EncodeCommand;
    if b == [] {
      assert a + b == a;
      assert EncodeLog(a) + [] == EncodeLog(a);
    } else {
      var n := |b| - 1;
      EncodeLogConcat(a, b[..n]);
      assert (a + b)[..|a + b| - 1] == a + b[..n];
      var x, y, z := EncodeLog(a), EncodeLog(b[..n]), Resp.EncodeCommand(b[n]);
      assert (x + y) + z == x + (y + z);
    }
  }

  lemma BulksStep(out: Bytes, args: seq<Bytes>, i: nat)
    requires i < |args|
    ensures out + Resp.EncodeBulks(args[i..])
         == (out + Resp.EncodeBulk(args[i])) + Resp.EncodeBulks(args[i + 1..])
  {
    hide Resp.EncodeBulk;
    assert args[i..][1..] == args[i + 1..];
    var x, y := Resp.EncodeBulk(args[i]), Resp.EncodeBulks(args[i + 1..]);
    assert (out + x) + y == out + (x + y);
  }

  class AOF {
    var file: Bytes
    var closed: bool

    /** Open: what the file holds already is kept. */
    constructor (existing: Bytes)
      ensures file == existing && !closed
    {
      file := existing;
      closed := false;
    }

    /** One record, through the writer and its flush; nothing after Close. */
    method Append(args: seq<Bytes>)
      modifies this
      ensures closed == old(closed)
      ensures file == if closed then old(file) else old(file) + Resp.EncodeCommand(args)
    {
      if closed {
        return;
      }
      var w := new RespIO.Writer();
      w.WriteArrayLen(|args|);
      ghost var head := w.out;
      hide Resp.EncodeBulk;
      for i := 0 to |args|
        invariant w.out + Resp.EncodeBulks(args[i..]) == head + Resp.EncodeBulks(args)
        invariant file == old(file) && closed == old(closed)
      {
        BulksStep(w.out, args, i);
        w.WriteBulk(args[i]);
      }
      assert w.out + [] == w.out && [] + Resp.EncodeLen(|args|) == head;
      assert w.out == Resp.EncodeCommand(args);
      file := file + w.out;
    }

    method Close()
      modifies this
      ensures closed && file == old(file)
    {
      closed := true;
    }
  }

  // ---------------------------------------------------------------- registry

  class Registry {
    const store: S.Store
    /** null while no propagator is attached. */
    const aof: AOF?

    constructor (store: S.Store, aof: AOF?)
      ensures this.store == store && this.aof == aof
    {
      this.store := store;
      this.aof := aof;
    }

    ghost function Done(m: Flat, cmd: Cmd, tk: Ticks): Outcome {
      Exec(m, cmd, tk, store.maxValLen)
    }

    method HandleSet(key: Bytes, val: Bytes, ttl: Option<int>, mode: SetMode, tk: Ticks)
      returns (ok: bool, log: seq<Cmd>)
      requires store.Valid()
      modifies store
      ensures store.Valid()
      ensures (store.flat, log) == (ExecSet(old(store.flat), key, val, ttl, mode, tk).m,
                                    ExecSet(old(store.flat), key, val, ttl, mode, tk).log)
      ensures ok <==> ExecSet(old(store.flat), key, val, ttl, mode, tk).answer == OK
    {
      hide S.Store.Valid, S.Total;
      var d := if ttl.None? then 0 else ttl.value;
      ok := store.Set(key, val, d, mode, tk.check(0), tk.write);
      log := [];
      if !ok {
        return;
      }
      log := [Set(key, val, None, SetAlways)];
      if ttl.Some? {
        log := [Set(key, val, None, SetAlways), PExpireAt(key, UnixMilli(tk.stamp + d))];
      }
    }

    method HandleDel(keys: seq<Bytes>, tk: Ticks) returns (n: nat, log: seq<Cmd>)
      requires store.Valid()
      modifies store
      ensures store.Valid()
      ensures Outcome(store.flat, Int(n), log) == ExecDel(old(store.flat), keys, tk)
    {
      hide S.Store.Valid, S.Total;
      n := store.Del(keys, Sample(tk.check, |keys|));
      log := if n > 0 then [Del(keys)] else [];
    }

    method HandleExpire(cmd: Cmd, tk: Ticks) returns (a: Answer, log: seq<Cmd>)
      requires store.Valid() && WellTicked(tk) && (cmd.ExpireIn? || cmd.ExpireAt? || cmd.PExpireAt?)
      modifies store
      ensures store.Valid()
      ensures Outcome(store.flat, a, log) == Done(old(store.flat), cmd, tk)
    {
      hide S.Store.Valid, S.Total, ExpireKey, ExpireAtKey;
      assert 0 <= tk.check(0) <= tk.write;
      var ok: bool;
      match cmd
      case ExpireIn(key, n, unit) =>
        if n <= 0 {
          var count: nat;
          count, log := HandleDel([key], tk);
          return Int(count), log;
        }
        var ttl := Wrap64(n * unit);
        ok := store.Expire(key, ttl, tk.check(0), tk.write);
        log := if ok then [PExpireAt(key, UnixMilli(tk.stamp + ttl))] else [];
        a := Int(if ok then 1 else 0);
      case ExpireAt(key, secs) =>
        ok := store.ExpireAt(key, secs, tk.check(0), tk.write);
        log := if ok then [PExpireAt(key, Wrap64(secs * 1000))] else [];
        a := Int(if ok then 1 else 0);
      case PExpireAt(key, ms) =>
        ok := store.ExpireAtMs(key, ms, tk.check(0), tk.write);
        log := if ok then [PExpireAt(key, ms)] else [];
        a := Int(if ok then 1 else 0);
    }

    method HandleKey(cmd: Cmd, tk: Ticks) returns (a: Answer, log: seq<Cmd>)
      requires store.Valid()
      requires cmd.Get? || cmd.GetSet? || cmd.IncrBy? || cmd.Append? || cmd.Persist?
      modifies store
      ensures store.Valid()
      ensures Outcome(store.flat, a, log) == Done(old(store.flat), cmd, tk)
    {
      hide S.Store.Valid, S.Total, IncrKey, AppendKey, PersistKey;
      var text: Option<Bytes>;
      var num: Option<int>;
      log := [];
      match cmd
      case Get(key) =>
        text := store.Get(key, tk.check(0));
        a := if text.None? then Null else Text(text.value);
      case GetSet(key, val) =>
        text := store.GetSet(key, val, tk.check(0));
        log := [Set(key, val, None, SetAlways)];
        a := if text.None? then Null else Text(text.value);
      case IncrBy(key, delta) =>
        num := store.IncrBy(key, delta, tk.check(0));
        log := if num.Some? then [cmd] else [];
        a := IntAnswer(num, NotInteger);
      case Append(key, suffix) =>
        num := store.Append(key, suffix, tk.check(0));
        log := if num.Some? then [cmd] else [];
        a := IntAnswer(num, TooLarge);
      case Persist(key) =>
        var ok := store.Persist(key, tk.check(0));
        log := if ok then [cmd] else [];
        a := Int(if ok then 1 else 0);
    }

    /** hMSet: the pairs one by one, each an unconditional SET. */
    method HandleMSet(pairs: seq<Pair>, tk: Ticks)
      requires store.Valid()
      modifies store
      ensures store.Valid() && store.flat == PutAll(old(store.flat), pairs)
    {
      hide S.Store.Valid, S.Total;
      for i := 0 to |pairs|
        invariant store.Valid() && store.flat == PutAll(old(store.flat), pairs[..i])
      {
        assert pairs[..i + 1][..i] == pairs[..i];
        var _ := store.Set(pairs[i].0, pairs[i].1, 0, SetAlways, tk.check(i), tk.write);
      }
      assert pairs[..|pairs|] == pairs;
    }

    /** The handlers. A batch that aborts may have purged expired keys. */
    method Handle(cmd: Cmd, tk: Ticks) returns (a: Answer, log: seq<Cmd>)
      requires store.Valid() && WellTicked(tk) && WellFormed(cmd)
      modifies store
      ensures store.Valid()
      ensures (a, log) == (Done(old(store.flat), cmd, tk).answer, Done(old(store.flat), cmd, tk).log)
      ensures SameView(store.flat, Done(old(store.flat), cmd, tk).m, tk.stamp)
    {
      hide S.Store.Valid, S.Total, PutAll, S.CountLive, ExecSet, ExecDel, ExecExpireIn, ExecExpireAt;
      hide IncrKey, AppendKey, PersistKey;
      var ok: bool;
      log := [];
      match cmd
      case Exists(keys) =>
        var n := store.Exists(keys, Sample(tk.check, |keys|));
        a := Int(n);
      case Set(key, val, ttl, mode) =>
        ok, log := HandleSet(key, val, ttl, mode, tk);
        SetAnswers(old(store.flat), key, val, ttl, mode, tk);
        a := if ok then OK else Null;
      case SetNew(key, val) =>
        ok, log := HandleSet(key, val, None, SetNX, tk);
        a := Int(if ok then 1 else 0);
      case Del(keys) =>
        var n: nat;
        n, log := HandleDel(keys, tk);
        a := Int(n);
      case Flush =>
        store.Flush();
        a, log := OK, [cmd];
      case MSet(pairs) =>
        HandleMSet(pairs, tk);
        a, log := OK, [cmd];
      case MSetNX(pairs) =>
        ok := store.SetNXMulti(pairs, Sample(tk.check, |pairs|));
        if ok {
          log := [MSet(pairs)];
        } else {
          SameViewLater(store.flat, old(store.flat), tk.check(|pairs| - 1), tk.stamp);
        }
        a := Int(if ok then 1 else 0);
      case ExpireIn(_, _, _) => a, log := HandleExpire(cmd, tk);
      case ExpireAt(_, _) => a, log := HandleExpire(cmd, tk);
      case PExpireAt(_, _) => a, log := HandleExpire(cmd, tk);
      case _ => a, log := HandleKey(cmd, tk);
    }

    /** Execute: parse, run the handler, append what it propagates. */
    method Execute(tokens: seq<Bytes>, tk: Ticks) returns (a: Answer)
      requires store.Valid() && WellTicked(tk)
      modifies store, aof
      ensures store.Valid()
      ensures a == ExecRaw(old(store.flat), tokens, tk, store.maxValLen).answer
      ensures SameView(store.flat, ExecRaw(old(store.flat), tokens, tk, store.maxValLen).m, tk.stamp)
      ensures aof != null && !old(aof.closed) ==>
                (!aof.closed &&
                 aof.file == old(aof.file) + EncodeLog(ExecRaw(old(store.flat), tokens, tk, store.maxValLen).log))
    {
      hide S.Store.Valid, S.Total, Exec, LookupName, Lower, ParseArgs, Record;
      var parsed := Parse(tokens);
      if parsed.Invalid? {
        return Fail(parsed.why);
      }
      ParseWellFormed(tokens);
      var log: seq<Cmd>;
      a, log := Handle(parsed.cmd, tk);
      if aof != null {
        Propagate(LookupName(Lower(tokens[0])).value, tokens[1..], log);
      }
    }

    method Propagate(name: Name, args: seq<Bytes>, log: seq<Cmd>)
      requires aof != null
      modifies aof
      ensures aof.closed == old(aof.closed)
      ensures !aof.closed ==> aof.file == old(aof.file) + EncodeLog(Records(name, args, log))
    {
      hide Record, Resp.EncodeCommand;
      ghost var recs := Records(name, args, log);
      assert recs[..0] == [];
      for i := 0 to |log|
        invariant aof.closed == old(aof.closed)
        invariant !aof.closed ==> aof.file == old(aof.file) + EncodeLog(recs[..i])
      {
        assert recs[..i + 1][..i] == recs[..i];
        aof.Append(Record(name, args, log[i]));
      }
      assert recs[..|recs|] == recs;
    }
  }

  lemma SetAnswers(m: Flat, key: Bytes, val: Bytes, ttl: Option<int>, mode: SetMode, tk: Ticks)
    ensures var a := ExecSet(m, key, val, ttl, mode, tk).answer; a == OK || a == Null
  {
  }
}
