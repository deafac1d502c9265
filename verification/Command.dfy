/** The dispatcher: tokens to a typed command, a typed command to its effect on
    the timed map, its answer and the commands it puts into the log. Message
    wording is reduced to the kind of failure. */
module Command {
  import opened Basics
  import opened TimedMap
  import S = Store

  datatype Failure =
    | EmptyCommand | UnknownCommand | WrongArity | SyntaxError | NotInteger | InvalidExpire | TooLarge

  datatype Answer = OK | Null | Int(n: int) | Text(b: Bytes) | Fail(why: Failure)

  datatype Cmd =
    | Get(key: Bytes)
    | Exists(keys: seq<Bytes>)
    | Set(key: Bytes, val: Bytes, ttl: Option<int>, mode: SetMode)
    | SetNew(key: Bytes, val: Bytes)
    | GetSet(key: Bytes, val: Bytes)
    | Del(keys: seq<Bytes>)
    | IncrBy(key: Bytes, delta: int)
    | Append(key: Bytes, suffix: Bytes)
    | ExpireIn(key: Bytes, n: int, unit: int)
    | ExpireAt(key: Bytes, secs: int)
    | PExpireAt(key: Bytes, ms: int)
    | Persist(key: Bytes)
    | Flush
    | MSet(pairs: seq<Pair>)
    | MSetNX(pairs: seq<Pair>)

  datatype ParsedCmd = Parsed(cmd: Cmd) | Invalid(why: Failure)

  // ---------------------------------------------------------------- parsing

  function LowerChar(c: char): char {
    if 'A' <= c <= 'Z' then (c as int + 32) as char else c
  }

  function UpperChar(c: char): char {
    if 'a' <= c <= 'z' then (c as int - 32) as char else c
  }

  function Lower(s: Bytes): Bytes { seq(|s|, i requires 0 <= i < |s| => LowerChar(s[i])) }

  function Upper(s: Bytes): Bytes { seq(|s|, i requires 0 <= i < |s| => UpperChar(s[i])) }

  function Pairs(args: seq<Bytes>): (r: seq<Pair>)
    requires |args| % 2 == 0
    ensures |r| == |args| / 2
    ensures forall i :: 0 <= i < |r| ==> r[i] == (args[2 * i], args[2 * i + 1])
  {
    seq(|args| / 2, i requires 0 <= i < |args| / 2 => (args[2 * i], args[2 * i + 1]))
  }

  datatype SetOpts = Opts(ttl: Option<int>, mode: SetMode) | BadOpts(why: Failure)

  /** The value of an EX or PX option as a duration, which wraps at 64 bits. */
  function Duration(opt: Bytes, n: int): int {
    Wrap64(n * if opt == "EX" then SECOND else MILLISECOND)
  }

  /** The option loop of SET from position i. */
  function SetOptions(rest: seq<Bytes>, i: nat, ttl: Option<int>, mode: SetMode): (r: SetOpts)
    ensures r.Opts? && (ttl.Some? ==> Int64(ttl.value)) ==> (r.ttl.Some? ==> Int64(r.ttl.value))
    decreases |rest| - i
  {
    if i >= |rest| then Opts(ttl, mode)
    else
      var opt := Upper(rest[i]);
      if opt == "EX" || opt == "PX" then
        if ttl.Some? || i + 1 >= |rest| then BadOpts(SyntaxError)
        else
          var n := ParseInt(rest[i + 1]);
          if n.None? then BadOpts(NotInteger)
          else if n.value <= 0 then BadOpts(InvalidExpire)
          else SetOptions(rest, i + 2, Some(Duration(opt, n.value)), mode)
      else if opt == "NX" || opt == "XX" then
        if !mode.SetAlways? then BadOpts(SyntaxError)
        else SetOptions(rest, i + 1, ttl, if opt == "NX" then SetNX else SetXX)
      else BadOpts(SyntaxError)
  }

  /** hSet's loop over the options. */
  method ReadSetOptions(rest: seq<Bytes>) returns (r: SetOpts)
    ensures r == SetOptions(rest, 0, None, SetAlways)
  {
    var ttl: Option<int> := None;
    var mode := SetAlways;
    var i := 0;
    while i < |rest|
      invariant 0 <= i
      invariant SetOptions(rest, i, ttl, mode) == SetOptions(rest, 0, None, SetAlways)
    {
      var opt := Upper(rest[i]);
      if opt == "EX" || opt == "PX" {
        if ttl.Some? || i + 1 >= |rest| {
          return BadOpts(SyntaxError);
        }
        var n := ParseInt(rest[i + 1]);
        if n.None? {
          return BadOpts(NotInteger);
        }
        if n.value <= 0 {
          return BadOpts(InvalidExpire);
        }
        ttl := Some(Duration(opt, n.value));
        i := i + 1;
      } else if opt == "NX" {
        if !mode.SetAlways? {
          return BadOpts(SyntaxError);
        }
        mode := SetNX;
      } else if opt == "XX" {
        if !mode.SetAlways? {
          return BadOpts(SyntaxError);
        }
        mode := SetXX;
      } else {
        return BadOpts(SyntaxError);
      }
      i := i + 1;
    }
    return Opts(ttl, mode);
  }

  function ModeOption(a: Bytes): Option<SetMode> {
    if Upper(a) == "NX" then Some(SetNX) else if Upper(a) == "XX" then Some(SetXX) else None
  }

  function TtlOption(a: Bytes, b: Bytes): Option<int> {
    if (Upper(a) == "EX" || Upper(a) == "PX") && ParseInt(b).Some? && ParseInt(b).value > 0
    then Some(Duration(Upper(a), ParseInt(b).value)) else None
  }

  /** The option lists that SET accepts, with their meaning. */
  function SetShape(rest: seq<Bytes>): Option<(Option<int>, SetMode)> {
    if |rest| == 0 then Some((None, SetAlways))
    else if |rest| == 1 && ModeOption(rest[0]).Some? then Some((None, ModeOption(rest[0]).value))
    else if |rest| == 2 && TtlOption(rest[0], rest[1]).Some? then
      Some((TtlOption(rest[0], rest[1]), SetAlways))
    else if |rest| == 3 && ModeOption(rest[0]).Some? && TtlOption(rest[1], rest[2]).Some? then
      Some((TtlOption(rest[1], rest[2]), ModeOption(rest[0]).value))
    else if |rest| == 3 && TtlOption(rest[0], rest[1]).Some? && ModeOption(rest[2]).Some? then
      Some((TtlOption(rest[0], rest[1]), ModeOption(rest[2]).value))
    else None
  }

  /** The loop accepts at most one expiry and at most one condition, in either
      order, and nothing else. */
  lemma SetOptionsShape(rest: seq<Bytes>)
    ensures SetOptions(rest, 0, None, SetAlways).Opts? <==> SetShape(rest).Some?
    ensures SetShape(rest).Some? ==>
              SetOptions(rest, 0, None, SetAlways) == Opts(SetShape(rest).value.0, SetShape(rest).value.1)
  {
    if |rest| > 0 {
      var opt := Upper(rest[0]);
      if opt == "NX" || opt == "XX" {
        SetOptionsAfterMode(rest, 1, None, if opt == "NX" then SetNX else SetXX);
      } else if |rest| > 1 && TtlOption(rest[0], rest[1]).Some? {
        SetOptionsAfterTtl(rest, 2, TtlOption(rest[0], rest[1]), SetAlways);
      }
    }
  }

  lemma SetOptionsAfterMode(rest: seq<Bytes>, i: nat, ttl: Option<int>, mode: SetMode)
    requires i <= |rest| && ttl.None? && !mode.SetAlways?
    ensures var r := SetOptions(rest, i, ttl, mode);
            if |rest| == i then r == Opts(None, mode)
            else if |rest| == i + 2 && TtlOption(rest[i], rest[i + 1]).Some? then
              r == Opts(TtlOption(rest[i], rest[i + 1]), mode)
            else r.BadOpts?
  {
    if i + 1 < |rest| && TtlOption(rest[i], rest[i + 1]).Some? {
      SetOptionsFull(rest, i + 2, TtlOption(rest[i], rest[i + 1]), mode);
    }
  }

  lemma SetOptionsAfterTtl(rest: seq<Bytes>, i: nat, ttl: Option<int>, mode: SetMode)
    requires i <= |rest| && ttl.Some? && mode.SetAlways?
    ensures var r := SetOptions(rest, i, ttl, mode);
            if |rest| == i then r == Opts(ttl, mode)
            else if |rest| == i + 1 && ModeOption(rest[i]).Some? then r == Opts(ttl, ModeOption(rest[i]).value)
            else r.BadOpts?
  {
    if i < |rest| && ModeOption(rest[i]).Some? {
      SetOptionsFull(rest, i + 1, ttl, ModeOption(rest[i]).value);
    }
  }

  lemma SetOptionsFull(rest: seq<Bytes>, i: nat, ttl: Option<int>, mode: SetMode)
    requires i <= |rest| && ttl.Some? && !mode.SetAlways?
    ensures SetOptions(rest, i, ttl, mode) == if |rest| == i then Opts(ttl, mode) else BadOpts(SyntaxError)
  {
  }

  /** The entries of the command table that are modelled. */
  datatype Name =
    | NGet | NExists | NSet | NSetNX | NGetSet | NDel | NIncr | NDecr | NIncrBy | NDecrBy | NAppend
    | NExpire | NPExpire | NExpireAt | NPExpireAt | NPersist | NFlushDB | NMSet | NMSetNX

  function LookupName(s: Bytes): Option<Name> {
    if s == "get" then Some(NGet)
    else if s == "exists" then Some(NExists)
    else if s == "set" then Some(NSet)
    else if s == "setnx" then Some(NSetNX)
    else if s == "getset" then Some(NGetSet)
    else if s == "del" then Some(NDel)
    else if s == "incr" then Some(NIncr)
    else if s == "decr" then Some(NDecr)
    else if s == "incrby" then Some(NIncrBy)
    else if s == "decrby" then Some(NDecrBy)
    else if s == "append" then Some(NAppend)
    else if s == "expire" then Some(NExpire)
    else if s == "pexpire" then Some(NPExpire)
    else if s == "expireat" then Some(NExpireAt)
    else if s == "pexpireat" then Some(NPExpireAt)
    else if s == "persist" then Some(NPersist)
    else if s == "flushdb" then Some(NFlushDB)
    else if s == "mset" then Some(NMSet)
    else if s == "msetnx" then Some(NMSetNX)
    else None
  }

  predicate Arity(name: Name, n: nat) {
    match name
    case NGet | NIncr | NDecr | NPersist => n == 1
    case NSetNX | NGetSet | NIncrBy | NDecrBy | NAppend => n == 2
    case NExpire | NPExpire | NExpireAt | NPExpireAt => n == 2
    case NExists | NDel => n >= 1
    case NSet | NMSet | NMSetNX => n >= 2
    case NFlushDB => n == 0
  }

  function ParseSet(args: seq<Bytes>): ParsedCmd
    requires |args| >= 2
  {
    match SetOptions(args[2..], 0, None, SetAlways)
    case Opts(ttl, mode) => Parsed(Set(args[0], args[1], ttl, mode))
    case BadOpts(why) => Invalid(why)
  }

  /** The commands whose second argument is an integer. */
  function ParseNumeric(name: Name, key: Bytes, n: int): Cmd {
    match name
    case NDecrBy => IncrBy(key, Wrap64(-n))
    case NExpire => ExpireIn(key, n, SECOND)
    case NPExpire => ExpireIn(key, n, MILLISECOND)
    case NExpireAt => ExpireAt(key, n)
    case NPExpireAt => PExpireAt(key, n)
    case _ => IncrBy(key, n)
  }

  function ParseArgs(name: Name, args: seq<Bytes>): ParsedCmd
    requires Arity(name, |args|)
  {
    match name
    case NGet => Parsed(Get(args[0]))
    case NExists => Parsed(Exists(args))
    case NSet => ParseSet(args)
    case NSetNX => Parsed(SetNew(args[0], args[1]))
    case NGetSet => Parsed(GetSet(args[0], args[1]))
    case NDel => Parsed(Del(args))
    case NIncr => Parsed(IncrBy(args[0], 1))
    case NDecr => Parsed(IncrBy(args[0], -1))
    case NAppend => Parsed(Append(args[0], args[1]))
    case NPersist => Parsed(Persist(args[0]))
    case NFlushDB => Parsed(Flush)
    case NMSet => if |args| % 2 != 0 then Invalid(WrongArity) else Parsed(MSet(Pairs(args)))
    case NMSetNX => if |args| % 2 != 0 then Invalid(WrongArity) else Parsed(MSetNX(Pairs(args)))
    case _ =>
      var n := ParseInt(args[1]);
      if n.None? then Invalid(NotInteger) else Parsed(ParseNumeric(name, args[0], n.value))
  }

  /** Execute up to the point where the handler touches the store. */
  function Parse(tokens: seq<Bytes>): ParsedCmd {
    if tokens == [] || tokens[0] == [] then Invalid(EmptyCommand)
    else
      var name := LookupName(Lower(tokens[0]));
      if name.None? then Invalid(UnknownCommand)
      else if !Arity(name.value, |tokens| - 1) then Invalid(WrongArity)
      else ParseArgs(name.value, tokens[1..])
  }

  /** What parsing guarantees about a command. */
  predicate WellFormed(cmd: Cmd) {
    match cmd
    case Set(_, _, ttl, _) => ttl.Some? ==> Int64(ttl.value)
    case IncrBy(_, delta) => Int64(delta)
    case ExpireIn(_, n, unit) => Int64(n) && (unit == SECOND || unit == MILLISECOND)
    case ExpireAt(_, secs) => Int64(secs)
    case PExpireAt(_, ms) => Int64(ms)
    case Exists(keys) => |keys| >= 1
    case Del(keys) => |keys| >= 1
    case MSet(pairs) => |pairs| >= 1
    case MSetNX(pairs) => |pairs| >= 1
    case _ => true
  }

  lemma ParseWellFormed(tokens: seq<Bytes>)
    ensures Parse(tokens).Parsed? ==> WellFormed(Parse(tokens).cmd)
  {
    hide LookupName, Lower;
  }

  // -------------------------------------------------------------- execution

  /** The clock readings of one command, in order: one expiry check per key,
      then the reading that turns a TTL into a deadline, then the reading that
      turns it into the deadline for the log. */
  datatype Ticks = Ticks(check: nat -> int, write: int, stamp: int)

  ghost predicate WellTicked(tk: Ticks) {
    (forall i, j :: 0 <= i <= j ==> tk.check(i) <= tk.check(j)) &&
    (forall i :: 0 <= tk.check(i) <= tk.write) &&
    tk.write <= tk.stamp < TWO63
  }

  /** time.Time.UnixMilli. */
  function UnixMilli(t: int): int {
    t / MILLISECOND
  }

  datatype Outcome = Outcome(m: Flat, answer: Answer, log: seq<Cmd>)

  function IntAnswer(r: Option<int>, why: Failure): Answer {
    if r.None? then Fail(why) else Int(r.value)
  }

  function ExecSet(m: Flat, key: Bytes, val: Bytes, ttl: Option<int>, mode: SetMode, tk: Ticks): Outcome {
    var d := if ttl.None? then 0 else ttl.value;
    var r := SetKey(Live(m, key, tk.check(0)), val, d, mode, tk.write);
    Outcome(Update(m, key, r.0), if r.1 then OK else Null,
            if !r.1 then []
            else if ttl.None? then [Set(key, val, None, SetAlways)]
            else [Set(key, val, None, SetAlways), PExpireAt(key, UnixMilli(tk.stamp + d))])
  }

  function ExecDel(m: Flat, keys: seq<Bytes>, tk: Ticks): Outcome {
    var n := DelCount(m, keys, Sample(tk.check, |keys|));
    Outcome(DelAll(m, keys), Int(n), if n > 0 then [Del(keys)] else [])
  }

  function ExecExpireIn(m: Flat, key: Bytes, n: int, unit: int, tk: Ticks): Outcome {
    if n <= 0 then ExecDel(m, [key], tk)
    else
      var ttl := Wrap64(n * unit);
      var r := ExpireKey(Live(m, key, tk.check(0)), ttl, tk.write);
      Outcome(Update(m, key, r.0), Int(if r.1 then 1 else 0),
              if r.1 then [PExpireAt(key, UnixMilli(tk.stamp + ttl))] else [])
  }

  function ExecExpireAt(m: Flat, key: Bytes, deadline: int, ms: int, tk: Ticks): Outcome {
    var r := ExpireAtKey(Live(m, key, tk.check(0)), deadline, tk.write);
    Outcome(Update(m, key, r.0), Int(if r.1 then 1 else 0), if r.1 then [PExpireAt(key, ms)] else [])
  }

  /** The handlers: new contents, answer, and what is propagated to the log. */
  ghost function Exec(m: Flat, cmd: Cmd, tk: Ticks, maxLen: int): Outcome {
    match cmd
    case Get(key) =>
      var cur := Live(m, key, tk.check(0));
      Outcome(Update(m, key, cur), if cur.None? then Null else Text(cur.value.val), [])
    case Exists(keys) => Outcome(m, Int(S.CountLive(m, keys, Sample(tk.check, |keys|))), [])
    case Set(key, val, ttl, mode) => ExecSet(m, key, val, ttl, mode, tk)
    case SetNew(key, val) =>
      var r := ExecSet(m, key, val, None, SetNX, tk);
      r.(answer := Int(if r.answer == OK then 1 else 0))
    case GetSet(key, val) =>
      var cur := Live(m, key, tk.check(0));
      Outcome(m[key := Entry(val, 0)], if cur.None? then Null else Text(cur.value.val),
              [Set(key, val, None, SetAlways)])
    case Del(keys) => ExecDel(m, keys, tk)
    case IncrBy(key, delta) =>
      var r := IncrKey(Live(m, key, tk.check(0)), delta);
      Outcome(Update(m, key, r.0), IntAnswer(r.1, NotInteger), if r.1.Some? then [cmd] else [])
    case Append(key, suffix) =>
      var r := AppendKey(Live(m, key, tk.check(0)), suffix, maxLen);
      Outcome(Update(m, key, r.0), IntAnswer(r.1, TooLarge), if r.1.Some? then [cmd] else [])
    case ExpireIn(key, n, unit) => ExecExpireIn(m, key, n, unit, tk)
    case ExpireAt(key, secs) => ExecExpireAt(m, key, Wrap64(secs * SECOND), Wrap64(secs * 1000), tk)
    case PExpireAt(key, ms) => ExecExpireAt(m, key, Wrap64(ms * MILLISECOND), ms, tk)
    case Persist(key) =>
      var r := PersistKey(Live(m, key, tk.check(0)));
      Outcome(Update(m, key, r.0), Int(if r.1 then 1 else 0), if r.1 then [cmd] else [])
    case Flush => Outcome(map[], OK, [cmd])
    case MSet(pairs) => Outcome(PutAll(m, pairs), OK, [cmd])
    case MSetNX(pairs) =>
      if AnyLive(m, pairs, Sample(tk.check, |pairs|)) then Outcome(m, Int(0), [])
      else Outcome(PutAll(m, pairs), Int(1), [MSet(pairs)])
  }

  // ------------------------------------------------------------ log records

  function Flatten(pairs: seq<Pair>): (r: seq<Bytes>)
    ensures |r| == 2 * |pairs|
    ensures forall i :: 0 <= i < |pairs| ==> r[2 * i] == pairs[i].0 && r[2 * i + 1] == pairs[i].1
  {
    if pairs == [] then []
    else
      var n := |pairs| - 1;
      Flatten(pairs[..n]) + [pairs[n].0, pairs[n].1]
  }

  /** The tokens that the handler of `name` propagates for the log command c. */
  function Record(name: Name, args: seq<Bytes>, c: Cmd): seq<Bytes> {
    match c
    case Set(key, val, _, _) => ["SET", key, val]
    case PExpireAt(key, ms) =>
      if name.NPExpireAt? && |args| == 2 then ["PEXPIREAT", args[0], args[1]]
      else ["PEXPIREAT", key, FormatInt(ms)]
    case Del(keys) => ["DEL"] + keys
    case IncrBy(key, _) =>
      if name.NIncr? then ["INCR", key]
      else if name.NDecr? then ["DECR", key]
      else if name.NIncrBy? then ["INCRBY"] + args
      else ["DECRBY"] + args
    case Append(key, suffix) => ["APPEND", key, suffix]
    case Persist(key) => ["PERSIST", key]
    case MSet(pairs) => ["MSET"] + Flatten(pairs)
    case _ => ["FLUSHDB"]
  }

  ghost function Records(name: Name, args: seq<Bytes>, log: seq<Cmd>): (r: seq<seq<Bytes>>)
    ensures |r| == |log|
  {
    seq(|log|, i requires 0 <= i < |log| => Record(name, args, log[i]))
  }

  datatype RawOutcome = RawOutcome(m: Flat, answer: Answer, log: seq<seq<Bytes>>)

  /** Execute on raw tokens. */
  ghost function ExecRaw(m: Flat, tokens: seq<Bytes>, tk: Ticks, maxLen: int): RawOutcome {
    match Parse(tokens)
    case Invalid(why) => RawOutcome(m, Fail(why), [])
    case Parsed(cmd) =>
      var r := Exec(m, cmd, tk, maxLen);
      RawOutcome(r.m, r.answer, Records(LookupName(Lower(tokens[0])).value, tokens[1..], r.log))
  }

  // --------------------------------------- what is logged parses as intended

  lemma LowerIs(a: Bytes, b: Bytes)
    requires |a| == |b| && forall i :: 0 <= i < |a| ==> LowerChar(a[i]) == b[i]
    ensures Lower(a) == b
  {
  }

  lemma LogNames1()
    ensures LookupName(Lower("SET")) == Some(NSet)
    ensures LookupName(Lower("PEXPIREAT")) == Some(NPExpireAt)
    ensures LookupName(Lower("DEL")) == Some(NDel)
    ensures LookupName(Lower("INCR")) == Some(NIncr)
  {
    LowerIs("SET", "set");
    LowerIs("PEXPIREAT", "pexpireat");
    LowerIs("DEL", "del");
    LowerIs("INCR", "incr");
  }

  lemma LogNames2()
    ensures LookupName(Lower("DECR")) == Some(NDecr)
    ensures LookupName(Lower("INCRBY")) == Some(NIncrBy)
    ensures LookupName(Lower("DECRBY")) == Some(NDecrBy)
    ensures LookupName(Lower("APPEND")) == Some(NAppend)
  {
    LowerIs("DECR", "decr");
    LowerIs("INCRBY", "incrby");
    LowerIs("DECRBY", "decrby");
    LowerIs("APPEND", "append");
  }

  lemma LogNames3()
    ensures LookupName(Lower("PERSIST")) == Some(NPersist)
    ensures LookupName(Lower("FLUSHDB")) == Some(NFlushDB)
    ensures LookupName(Lower("MSET")) == Some(NMSet)
  {
    LowerIs("PERSIST", "persist");
    LowerIs("FLUSHDB", "flushdb");
    LowerIs("MSET", "mset");
  }

  lemma PairsFlatten(pairs: seq<Pair>)
    ensures Pairs(Flatten(pairs)) == pairs
  {
  }

  /** The record of an MSET or MSETNX repeats its arguments. */
  lemma FlattenPairs(args: seq<Bytes>)
    requires |args| % 2 == 0
    ensures Flatten(Pairs(args)) == args
  {
    var r := Flatten(Pairs(args));
    forall i | 0 <= i < |args| ensures r[i] == args[i] {
      assert i == 2 * (i / 2) || i == 2 * (i / 2) + 1;
      assert Pairs(args)[i / 2] == (args[2 * (i / 2)], args[2 * (i / 2) + 1]);
    }
  }

  lemma ParseTokens(word: Bytes, name: Name, args: seq<Bytes>)
    requires word != [] && LookupName(Lower(word)) == Some(name) && Arity(name, |args|)
    ensures Parse([word] + args) == ParseArgs(name, args)
  {
    assert ([word] + args)[1..] == args;
  }

  lemma DeadlineRecordParses(key: Bytes, ms: int)
    requires Int64(ms)
    ensures Parse(["PEXPIREAT", key, FormatInt(ms)]) == Parsed(PExpireAt(key, ms))
  {
    LogNames1();
    ParseFormat(ms);
    assert ["PEXPIREAT", key, FormatInt(ms)] == ["PEXPIREAT"] + [key, FormatInt(ms)];
    ParseTokens("PEXPIREAT", NPExpireAt, [key, FormatInt(ms)]);
  }

  /** The log commands that carry no number. */
  predicate Plain(c: Cmd) {
    (c.Set? && c.ttl.None? && c.mode.SetAlways?) || (c.Del? && |c.keys| >= 1) ||
    c.Append? || c.Persist? || c.Flush? || (c.MSet? && |c.pairs| >= 1)
  }

  /** The record of every log command, except those whose number is repeated
      from the client's text. */
  lemma PlainRecordParses(name: Name, args: seq<Bytes>, c: Cmd)
    requires Plain(c)
    ensures Parse(Record(name, args, c)) == Parsed(c)
  {
    LogNames1();
    LogNames2();
    LogNames3();
    hide LookupName, Lower, Parse;
    match c
    case Set(key, val, _, _) =>
      assert Record(name, args, c) == ["SET"] + [key, val];
      ParseTokens("SET", NSet, [key, val]);
      assert [key, val][2..] == [];
    case Del(keys) => ParseTokens("DEL", NDel, keys);
    case Append(key, suffix) =>
      assert Record(name, args, c) == ["APPEND"] + [key, suffix];
      ParseTokens("APPEND", NAppend, [key, suffix]);
    case Persist(key) =>
      assert Record(name, args, c) == ["PERSIST"] + [key];
      ParseTokens("PERSIST", NPersist, [key]);
    case MSet(pairs) =>
      PairsFlatten(pairs);
      ParseTokens("MSET", NMSet, Flatten(pairs));
    case Flush =>
      assert Record(name, args, c) == ["FLUSHDB"] + [];
      ParseTokens("FLUSHDB", NFlushDB, []);
  }

  lemma IncrRecordParses(name: Name, args: seq<Bytes>, c: Cmd)
    requires Arity(name, |args|) && ParseArgs(name, args) == Parsed(c) && c.IncrBy?
    ensures Parse(Record(name, args, c)) == Parsed(c)
  {
    LogNames1();
    LogNames2();
    match name
    case NIncr =>
      assert Record(name, args, c) == ["INCR"] + [c.key] && args == [c.key];
      ParseTokens("INCR", NIncr, args);
    case NDecr =>
      assert Record(name, args, c) == ["DECR"] + [c.key] && args == [c.key];
      ParseTokens("DECR", NDecr, args);
    case NIncrBy => ParseTokens("INCRBY", NIncrBy, args);
    case NDecrBy => ParseTokens("DECRBY", NDecrBy, args);
  }

  lemma PExpireAtRecordParses(name: Name, args: seq<Bytes>, c: Cmd)
    requires name.NPExpireAt? && Arity(name, |args|) && ParseArgs(name, args) == Parsed(c) && c.PExpireAt?
    ensures Parse(Record(name, args, c)) == Parsed(c)
  {
    LogNames1();
    assert Record(name, args, c) == ["PEXPIREAT"] + args;
    ParseTokens("PEXPIREAT", NPExpireAt, args);
  }

  /** Which commands reach the log: rewritten forms only, with an increment and
      an absolute deadline passed on as they came. */
  lemma LoggedForms(cmd: Cmd, m: Flat, tk: Ticks, maxLen: int, i: nat)
    requires WellFormed(cmd) && WellTicked(tk) && i < |Exec(m, cmd, tk, maxLen).log|
    ensures var c := Exec(m, cmd, tk, maxLen).log[i];
            Plain(c) || (c.IncrBy? && c == cmd) || (c.PExpireAt? && Int64(c.ms) && (cmd.PExpireAt? ==> c == cmd))
  {
  }

  lemma NameOfCmd(name: Name, args: seq<Bytes>)
    requires Arity(name, |args|) && ParseArgs(name, args).Parsed?
    ensures ParseArgs(name, args).cmd.PExpireAt? <==> name.NPExpireAt?
  {
  }

  /** Reading a log record back yields the command that was meant. */
  lemma RecordParses(tokens: seq<Bytes>, m: Flat, tk: Ticks, maxLen: int, i: nat)
    requires Parse(tokens).Parsed? && WellTicked(tk)
    requires i < |Exec(m, Parse(tokens).cmd, tk, maxLen).log|
    ensures Parse(ExecRaw(m, tokens, tk, maxLen).log[i])
         == Parsed(Exec(m, Parse(tokens).cmd, tk, maxLen).log[i])
  {
    var cmd := Parse(tokens).cmd;
    var name, args := LookupName(Lower(tokens[0])).value, tokens[1..];
    var c := Exec(m, cmd, tk, maxLen).log[i];
    assert ParseArgs(name, args) == Parsed(cmd);
    assert ExecRaw(m, tokens, tk, maxLen).log[i] == Record(name, args, c);
    ParseWellFormed(tokens);
    LoggedForms(cmd, m, tk, maxLen, i);
    NameOfCmd(name, args);
    hide Exec, ParseArgs, LookupName, Lower;
    if c.IncrBy? {
      IncrRecordParses(name, args, c);
    } else if c.PExpireAt? {
      if cmd.PExpireAt? {
        PExpireAtRecordParses(name, args, c);
      } else {
        DeadlineRecordParses(c.key, c.ms);
      }
    } else {
      PlainRecordParses(name, args, c);
    }
  }
}
