/** What a client's words mean: for each command, from its tokens to the answer, the
    contents and the log, said in terms of what is stored and without any of the
    functions that the other modules compute with. */
module Meaning {
  import opened Basics
  import opened TimedMap
  import opened Command
  import S = Store

  // -------------------------------------------------------------- vocabulary

  /** The word is the name, in any mixture of cases. */
  predicate Spells(word: Bytes, name: Bytes) {
    |word| == |name| &&
    forall i :: 0 <= i < |name| ==> word[i] == name[i] || word[i] as int + 32 == name[i] as int
  }

  /** The key is stored and has not reached its deadline. */
  predicate IsLive(m: Flat, k: Bytes, t: int) {
    k in m && (m[k].expireAt == 0 || t < m[k].expireAt)
  }

  /** Afterwards the key holds o, and every other key what it held. */
  ghost predicate Leaves(m: Flat, after: Flat, k: Bytes, o: Option<Entry>) {
    (k in after <==> o.Some?) && (o.Some? ==> after[k] == o.value) &&
    forall j :: j != k ==> (j in after <==> j in m) && (j in m ==> after[j] == m[j])
  }

  /** The key keeps what it shows; an entry that has expired may go. */
  ghost predicate Keeps(m: Flat, after: Flat, k: Bytes, t: int) {
    Leaves(m, after, k, if IsLive(m, k, t) then Some(m[k]) else None)
  }

  /** The request was refused: no effect and nothing logged. */
  ghost predicate Refused(m: Flat, r: RawOutcome, why: Failure) {
    r == RawOutcome(m, Fail(why), [])
  }

  lemma LiveIs(m: Flat, k: Bytes, t: int)
    ensures Live(m, k, t) == if IsLive(m, k, t) then Some(m[k]) else None
  {
  }

  lemma UpdateLeaves(m: Flat, k: Bytes, o: Option<Entry>)
    ensures Leaves(m, Update(m, k, o), k, o)
  {
  }

  predicate Letters(name: Bytes) {
    forall i :: 0 <= i < |name| ==> 'a' <= name[i] <= 'z'
  }

  lemma SpellsLower(word: Bytes, name: Bytes)
    requires Letters(name)
    ensures Spells(word, name) <==> Lower(word) == name
  {
    if Spells(word, name) {
      LowerIs(word, name);
    } else if Lower(word) == name {
      forall i | 0 <= i < |name| ensures word[i] == name[i] || word[i] as int + 32 == name[i] as int {
        assert LowerChar(word[i]) == name[i];
      }
    }
  }

  /** The commands by their names. */
  function NameText(n: Name): Bytes {
    match n
    case NGet => "get" case NExists => "exists" case NSet => "set" case NSetNX => "setnx" case NGetSet => "getset"
    case NDel => "del" case NIncr => "incr" case NDecr => "decr" case NIncrBy => "incrby" case NDecrBy => "decrby"
    case NAppend => "append" case NExpire => "expire" case NPExpire => "pexpire" case NExpireAt => "expireat"
    case NPExpireAt => "pexpireat" case NPersist => "persist" case NFlushDB => "flushdb" case NMSet => "mset"
    case NMSetNX => "msetnx"
  }

  lemma NameLetters(n: Name)
    ensures Letters(NameText(n)) && NameText(n) != []
  {
  }

  lemma NameFound(n: Name)
    ensures LookupName(NameText(n)) == Some(n)
  {
  }

  lemma OnlyNames(s: Bytes)
    requires LookupName(s).Some?
    ensures s == NameText(LookupName(s).value)
  {
  }

  /** From the words to the command. */
  lemma Said(word: Bytes, n: Name, args: seq<Bytes>)
    requires Spells(word, NameText(n))
    ensures LookupName(Lower(word)) == Some(n)
    ensures Parse([word] + args) == if Arity(n, |args|) then ParseArgs(n, args) else Invalid(WrongArity)
  {
    NameLetters(n);
    NameFound(n);
    SpellsLower(word, NameText(n));
    hide LookupName, NameText, Spells, Letters;
    assert ([word] + args)[1..] == args;
  }

  lemma Runs(m: Flat, word: Bytes, n: Name, args: seq<Bytes>, tk: Ticks, maxLen: int)
    requires Spells(word, NameText(n))
    ensures var r := ExecRaw(m, [word] + args, tk, maxLen);
            if !Arity(n, |args|) then Refused(m, r, WrongArity)
            else match ParseArgs(n, args)
              case Invalid(why) => Refused(m, r, why)
              case Parsed(cmd) =>
                var o := Exec(m, cmd, tk, maxLen);
                r.m == o.m && r.answer == o.answer && r.log == Records(n, args, o.log)
  {
    hide Exec, ParseArgs, LookupName, Lower, NameText, Spells;
    Said(word, n, args);
    assert ([word] + args)[1..] == args;
  }

  // ------------------------------------------------------------------ reading

  lemma GetMeans(m: Flat, word: Bytes, k: Bytes, tk: Ticks, maxLen: int)
    requires Spells(word, "get")
    ensures var r := ExecRaw(m, [word] + [k], tk, maxLen);
            r.answer == (if IsLive(m, k, tk.check(0)) then Text(m[k].val) else Null) &&
            Keeps(m, r.m, k, tk.check(0)) && r.log == []
  {
    hide ExecRaw, Spells, LookupName, Lower, Parse;
    Runs(m, word, NGet, [k], tk, maxLen);
    LiveIs(m, k, tk.check(0));
    UpdateLeaves(m, k, Live(m, k, tk.check(0)));
  }

  /** How many of the keys, repeats included, are live when looked at. */
  ghost function LiveOnes(m: Flat, keys: seq<Bytes>, clock: nat -> int): set<nat> {
    set i: nat | i < |keys| && IsLive(m, keys[i], clock(i))
  }

  lemma {:induction false} CountLiveIs(m: Flat, keys: seq<Bytes>, clock: nat -> int, n: nat)
    requires |keys| <= n
    ensures S.CountLive(m, keys, Sample(clock, n)) == |LiveOnes(m, keys, clock)|
  {
    if keys == [] {
      assert LiveOnes(m, keys, clock) == {};
    } else {
      var last := |keys| - 1;
      CountLiveIs(m, keys[..last], clock, n);
      LiveIs(m, keys[last], clock(last));
      var front, all := LiveOnes(m, keys[..last], clock), LiveOnes(m, keys, clock);
      assert all == if IsLive(m, keys[last], clock(last)) then front + {last} else front;
    }
  }

  lemma ExistsMeans(m: Flat, word: Bytes, keys: seq<Bytes>, tk: Ticks, maxLen: int)
    requires Spells(word, "exists")
    ensures var r := ExecRaw(m, [word] + keys, tk, maxLen);
            if keys == [] then Refused(m, r, WrongArity)
            else r == RawOutcome(m, Int(|LiveOnes(m, keys, tk.check)|), [])
  {
    hide ExecRaw, Spells, LookupName, Lower, Parse;
    Runs(m, word, NExists, keys, tk, maxLen);
    CountLiveIs(m, keys, tk.check, |keys|);
  }

  // ------------------------------------------------------------------ writing

  /** The options ask for the condition. */
  predicate SaysMode(o: Bytes, mode: SetMode) {
    (mode.SetNX? && Spells(o, "nx")) || (mode.SetXX? && Spells(o, "xx"))
  }

  /** The options ask for a life of n seconds or n milliseconds. */
  predicate SaysTtl(o: Bytes, a: Bytes, ttl: int) {
    ParseInt(a).Some? && ParseInt(a).value > 0 &&
    ((Spells(o, "ex") && ttl == Wrap64(ParseInt(a).value * 1_000_000_000)) ||
     (Spells(o, "px") && ttl == Wrap64(ParseInt(a).value * 1_000_000)))
  }

  /** What the options of a SET ask for. */
  predicate OptionsSay(opts: seq<Bytes>, mode: SetMode, ttl: Option<int>) {
    match |opts|
    case 0 => mode.SetAlways? && ttl.None?
    case 1 => SaysMode(opts[0], mode) && ttl.None?
    case 2 => mode.SetAlways? && ttl.Some? && SaysTtl(opts[0], opts[1], ttl.value)
    case 3 => ttl.Some? && ((SaysMode(opts[0], mode) && SaysTtl(opts[1], opts[2], ttl.value)) ||
                            (SaysTtl(opts[0], opts[1], ttl.value) && SaysMode(opts[2], mode)))
    case _ => false
  }

  lemma SpellsUpper(o: Bytes, low: Bytes, up: Bytes)
    requires Letters(low) && |low| == |up| && forall i :: 0 <= i < |up| ==> up[i] as int + 32 == low[i] as int
    ensures Spells(o, low) <==> Upper(o) == up
  {
    if Spells(o, low) {
      forall i | 0 <= i < |up| ensures UpperChar(o[i]) == up[i] {}
      assert Upper(o) == up;
    } else if Upper(o) == up {
      forall i | 0 <= i < |low| ensures o[i] == low[i] || o[i] as int + 32 == low[i] as int {
        assert UpperChar(o[i]) == up[i];
      }
    }
  }

  lemma OptionWords(o: Bytes)
    ensures Spells(o, "nx") <==> Upper(o) == "NX"
    ensures Spells(o, "xx") <==> Upper(o) == "XX"
    ensures Spells(o, "ex") <==> Upper(o) == "EX"
    ensures Spells(o, "px") <==> Upper(o) == "PX"
  {
    SpellsUpper(o, "nx", "NX");
    SpellsUpper(o, "xx", "XX");
    SpellsUpper(o, "ex", "EX");
    SpellsUpper(o, "px", "PX");
  }

  lemma ModeWord(o: Bytes, mode: SetMode)
    ensures SaysMode(o, mode) <==> ModeOption(o) == Some(mode) && !mode.SetAlways?
  {
    OptionWords(o);
    hide Spells, Upper;
  }

  lemma TtlWord(o: Bytes, a: Bytes, ttl: int)
    ensures SaysTtl(o, a, ttl) <==> TtlOption(o, a) == Some(ttl)
  {
    OptionWords(o);
    hide Spells, Upper, Wrap64, ParseInt;
  }

  lemma ShapeSays(opts: seq<Bytes>, mode: SetMode, ttl: Option<int>)
    ensures OptionsSay(opts, mode, ttl) <==> SetShape(opts) == Some((ttl, mode))
  {
    hide SaysMode, SaysTtl, Spells;
    forall i | 0 <= i < |opts|
      ensures SaysMode(opts[i], mode) <==> ModeOption(opts[i]) == Some(mode) && !mode.SetAlways?
    {
      ModeWord(opts[i], mode);
    }
    if ttl.Some? {
      forall i | 0 <= i < |opts| - 1
        ensures SaysTtl(opts[i], opts[i + 1], ttl.value) <==> TtlOption(opts[i], opts[i + 1]) == ttl
      {
        TtlWord(opts[i], opts[i + 1], ttl.value);
      }
    }
    if |opts| == 3 { OneOrder(opts[0], opts[1], opts[2]); }
    hide ModeOption, TtlOption;
  }

  /** A word is not both a condition and an expiry. */
  lemma OneOrder(a: Bytes, b: Bytes, c: Bytes)
    ensures ModeOption(a).Some? ==> TtlOption(a, b).None?
    ensures ModeOption(a).Some? ==> !ModeOption(a).value.SetAlways?
    ensures ModeOption(c).Some? ==> !ModeOption(c).value.SetAlways?
  {
  }

  /** The record of a deadline in the log. */
  function DeadlineRecord(k: Bytes, ms: int): seq<Bytes> {
    ["PEXPIREAT", k, FormatInt(ms)]
  }

  /** SET with any options: it takes place unless its condition fails, replaces the
      value and the deadline, and is logged without them. */
  lemma SetMeans(m: Flat, word: Bytes, k: Bytes, v: Bytes, opts: seq<Bytes>, mode: SetMode, ttl: Option<int>,
                 tk: Ticks, maxLen: int)
    requires Spells(word, "set") && OptionsSay(opts, mode, ttl)
    ensures var r := ExecRaw(m, [word] + ([k, v] + opts), tk, maxLen);
            if mode.SetAlways? || (mode.SetNX? <==> !IsLive(m, k, tk.check(0))) then
              r.answer == OK &&
              Leaves(m, r.m, k,
                     Some(Entry(v, if ttl.Some? && ttl.value > 0 then Wrap64(tk.write + ttl.value) else 0))) &&
              r.log == [["SET", k, v]]
                       + if ttl.None? then [] else [DeadlineRecord(k, (tk.stamp + ttl.value) / 1_000_000)]
            else r.answer == Null && Keeps(m, r.m, k, tk.check(0)) && r.log == []
  {
    hide ExecRaw, Spells, LookupName, Lower, Parse;
    var args := [k, v] + opts;
    assert args[2..] == opts;
    Runs(m, word, NSet, args, tk, maxLen);
    ShapeSays(opts, mode, ttl);
    SetOptionsShape(opts);
    hide SetOptions, SetShape, OptionsSay;
    assert ParseArgs(NSet, args) == Parsed(Set(k, v, ttl, mode));
    SetExecMeans(m, args, k, v, ttl, mode, tk, maxLen);
  }

  lemma SetExecMeans(m: Flat, args: seq<Bytes>, k: Bytes, v: Bytes, ttl: Option<int>, mode: SetMode,
                     tk: Ticks, maxLen: int)
    ensures var o := Exec(m, Set(k, v, ttl, mode), tk, maxLen);
            var log := Records(NSet, args, o.log);
            if mode.SetAlways? || (mode.SetNX? <==> !IsLive(m, k, tk.check(0))) then
              o.answer == OK &&
              Leaves(m, o.m, k,
                     Some(Entry(v, if ttl.Some? && ttl.value > 0 then Wrap64(tk.write + ttl.value) else 0))) &&
              log == [["SET", k, v]]
                     + if ttl.None? then [] else [DeadlineRecord(k, (tk.stamp + ttl.value) / 1_000_000)]
            else o.answer == Null && Keeps(m, o.m, k, tk.check(0)) && log == []
  {
    hide Wrap64, FormatInt;
    LiveIs(m, k, tk.check(0));
    var o := Exec(m, Set(k, v, ttl, mode), tk, maxLen);
    UpdateLeaves(m, k, SetKey(Live(m, k, tk.check(0)), v, if ttl.None? then 0 else ttl.value, mode, tk.write).0);
  }

  /** Any other option list is refused. */
  lemma SetRefuses(m: Flat, word: Bytes, k: Bytes, v: Bytes, opts: seq<Bytes>, tk: Ticks, maxLen: int)
    requires Spells(word, "set") && forall mode, ttl :: !OptionsSay(opts, mode, ttl)
    ensures var r := ExecRaw(m, [word] + ([k, v] + opts), tk, maxLen);
            r.answer.Fail? && r.m == m && r.log == []
  {
    hide ExecRaw, Spells, LookupName, Lower, Parse;
    var args := [k, v] + opts;
    assert args[2..] == opts;
    Runs(m, word, NSet, args, tk, maxLen);
    if SetShape(opts).Some? {
      ShapeSays(opts, SetShape(opts).value.1, SetShape(opts).value.0);
      assert false;
    }
    SetOptionsShape(opts);
  }

  lemma SetNXMeans(m: Flat, word: Bytes, k: Bytes, v: Bytes, tk: Ticks, maxLen: int)
    requires Spells(word, "setnx")
    ensures var r := ExecRaw(m, [word] + [k, v], tk, maxLen);
            if IsLive(m, k, tk.check(0)) then r.answer == Int(0) && Keeps(m, r.m, k, tk.check(0)) && r.log == []
            else r.answer == Int(1) && Leaves(m, r.m, k, Some(Entry(v, 0))) && r.log == [["SET", k, v]]
  {
    hide ExecRaw, Spells, LookupName, Lower, Parse;
    Runs(m, word, NSetNX, [k, v], tk, maxLen);
    LiveIs(m, k, tk.check(0));
    UpdateLeaves(m, k, SetKey(Live(m, k, tk.check(0)), v, 0, SetNX, tk.write).0);
  }

  lemma GetSetMeans(m: Flat, word: Bytes, k: Bytes, v: Bytes, tk: Ticks, maxLen: int)
    requires Spells(word, "getset")
    ensures var r := ExecRaw(m, [word] + [k, v], tk, maxLen);
            r.answer == (if IsLive(m, k, tk.check(0)) then Text(m[k].val) else Null) &&
            Leaves(m, r.m, k, Some(Entry(v, 0))) && r.log == [["SET", k, v]]
  {
    hide ExecRaw, Spells, LookupName, Lower, Parse;
    Runs(m, word, NGetSet, [k, v], tk, maxLen);
    LiveIs(m, k, tk.check(0));
  }

  /** The keys of a DEL that are live when it first comes to them. */
  ghost function Deleted(m: Flat, keys: seq<Bytes>, clock: nat -> int): set<nat> {
    set i: nat | i < |keys| && keys[i] !in keys[..i] && IsLive(m, keys[i], clock(i))
  }

  /** The last key counts if it is new and live. */
  lemma DeletedNext(m: Flat, keys: seq<Bytes>, clock: nat -> int)
    requires keys != []
    ensures var last := |keys| - 1;
            var front, all := Deleted(m, keys[..last], clock), Deleted(m, keys, clock);
            last !in front &&
            all == if keys[last] !in keys[..last] && IsLive(m, keys[last], clock(last)) then front + {last} else front
  {
    hide IsLive;
    var last := |keys| - 1;
    forall i: nat | i < last ensures keys[..last][..i] == keys[..i] {}
  }

  lemma {:induction false} DelCountIs(m: Flat, keys: seq<Bytes>, clock: nat -> int, n: nat)
    requires |keys| <= n
    ensures DelCount(m, keys, Sample(clock, n)) == |Deleted(m, keys, clock)|
  {
    hide IsLive, Live, DelAll;
    if keys == [] {
      assert Deleted(m, keys, clock) == {};
    } else {
      hide Deleted;
      var last := |keys| - 1;
      DelCountIs(m, keys[..last], clock, n);
      LiveDelAll(m, keys[..last], keys[last], clock(last));
      LiveIs(m, keys[last], clock(last));
      DeletedNext(m, keys, clock);
    }
  }

  lemma {:induction false} DelAllIs(m: Flat, keys: seq<Bytes>, k: Bytes)
    ensures k in DelAll(m, keys) <==> k in m && k !in keys
    ensures k in DelAll(m, keys) ==> DelAll(m, keys)[k] == m[k]
  {
    if keys != [] { DelAllIs(m, keys[..|keys| - 1], k); }
  }

  lemma DelMeans(m: Flat, word: Bytes, keys: seq<Bytes>, tk: Ticks, maxLen: int)
    requires Spells(word, "del")
    ensures var r := ExecRaw(m, [word] + keys, tk, maxLen);
            if keys == [] then Refused(m, r, WrongArity)
            else
              (forall k :: (k in r.m <==> k in m && k !in keys) && (k in r.m ==> r.m[k] == m[k])) &&
              r.answer == Int(|Deleted(m, keys, tk.check)|) &&
              r.log == if Deleted(m, keys, tk.check) == {} then [] else [["DEL"] + keys]
  {
    hide ExecRaw, Spells, LookupName, Lower, Parse;
    Runs(m, word, NDel, keys, tk, maxLen);
    DelCountIs(m, keys, tk.check, |keys|);
    var left := DelAll(m, keys);
    forall k ensures (k in left <==> k in m && k !in keys) && (k in left ==> left[k] == m[k]) {
      DelAllIs(m, keys, k);
    }
  }

  // ----------------------------------------------------------------- counters

  /** The tokens move a counter at k by d. */
  predicate MovesBy(tokens: seq<Bytes>, k: Bytes, d: int) {
    (|tokens| == 2 && tokens[1] == k &&
     ((Spells(tokens[0], "incr") && d == 1) || (Spells(tokens[0], "decr") && d == -1))) ||
    (|tokens| == 3 && tokens[1] == k && ParseInt(tokens[2]).Some? &&
     ((Spells(tokens[0], "incrby") && d == ParseInt(tokens[2]).value) ||
      (Spells(tokens[0], "decrby") && d == -ParseInt(tokens[2]).value)))
  }

  /** The integer that a counter has, a missing key counting as 0. */
  function CounterAt(m: Flat, k: Bytes, t: int): Option<int> {
    if IsLive(m, k, t) then ParseInt(m[k].val) else Some(0)
  }

  /** The result of moving a counter, whoever asks for it. */
  ghost predicate Moved(m: Flat, r: RawOutcome, k: Bytes, d: int, t: int) {
    var v := CounterAt(m, k, t);
    if v.None? then r.answer == Fail(NotInteger) && Keeps(m, r.m, k, t) && r.log == []
    else
      r.answer == Int(Wrap64(v.value + d)) && Leaves(m, r.m, k, Some(Entry(FormatInt(Wrap64(v.value + d)), 0))) &&
      |r.log| == 1
  }

  lemma IncrExecMeans(m: Flat, k: Bytes, delta: int, d: int, tk: Ticks, maxLen: int, r: RawOutcome)
    requires delta == Wrap64(d)
    requires var o := Exec(m, IncrBy(k, delta), tk, maxLen); r.m == o.m && r.answer == o.answer && |r.log| == |o.log|
    ensures Moved(m, r, k, d, tk.check(0))
  {
    hide FormatInt, ParseInt;
    LiveIs(m, k, tk.check(0));
    var v := CounterAt(m, k, tk.check(0));
    if v.Some? { WrapAdd(d, v.value); }
    hide Wrap64;
    UpdateLeaves(m, k, IncrKey(Live(m, k, tk.check(0)), delta).0);
  }

  /** INCR and DECR move by one, INCRBY and DECRBY by their argument, up and down. */
  lemma CounterMeans(m: Flat, tokens: seq<Bytes>, k: Bytes, d: int, tk: Ticks, maxLen: int)
    requires MovesBy(tokens, k, d)
    ensures Moved(m, ExecRaw(m, tokens, tk, maxLen), k, d, tk.check(0))
  {
    hide Exec, Moved, ExecRaw, Spells, LookupName, Lower, Parse;
    var r := ExecRaw(m, tokens, tk, maxLen);
    var word, args := tokens[0], tokens[1..];
    assert tokens == [word] + args;
    if |tokens| == 2 && Spells(word, "incr") && d == 1 {
      Runs(m, word, NIncr, args, tk, maxLen);
      assert Wrap64(1) == 1;
      IncrExecMeans(m, k, 1, d, tk, maxLen, r);
    } else if |tokens| == 2 {
      Runs(m, word, NDecr, args, tk, maxLen);
      assert Wrap64(-1) == -1;
      IncrExecMeans(m, k, -1, d, tk, maxLen, r);
    } else if Spells(word, "incrby") && d == ParseInt(tokens[2]).value {
      Runs(m, word, NIncrBy, args, tk, maxLen);
      IncrExecMeans(m, k, d, d, tk, maxLen, r);
    } else {
      Runs(m, word, NDecrBy, args, tk, maxLen);
      IncrExecMeans(m, k, Wrap64(d), d, tk, maxLen, r);
    }
  }

  // ------------------------------------------------------------------- append

  /** APPEND puts the suffix behind the value and keeps the deadline, unless the
      result would be too long. */
  lemma AppendMeans(m: Flat, word: Bytes, k: Bytes, suffix: Bytes, tk: Ticks, maxLen: int)
    requires Spells(word, "append")
    ensures var r := ExecRaw(m, [word] + [k, suffix], tk, maxLen);
            var was := if IsLive(m, k, tk.check(0)) then m[k] else Entry([], 0);
            if |was.val| + |suffix| > maxLen then
              r.answer == Fail(TooLarge) && Keeps(m, r.m, k, tk.check(0)) && r.log == []
            else
              k in r.m && |was.val| <= |r.m[k].val| &&
              r.m[k].val[..|was.val|] == was.val && r.m[k].val[|was.val|..] == suffix &&
              Leaves(m, r.m, k, Some(Entry(r.m[k].val, was.expireAt))) && r.answer == Int(|r.m[k].val|) &&
              r.log == [["APPEND", k, suffix]]
  {
    hide ExecRaw, Spells, LookupName, Lower, Parse;
    Runs(m, word, NAppend, [k, suffix], tk, maxLen);
    LiveIs(m, k, tk.check(0));
    UpdateLeaves(m, k, AppendKey(Live(m, k, tk.check(0)), suffix, maxLen).0);
  }

  // ------------------------------------------------------------------- expiry

  /** EXPIRE counts in seconds and PEXPIRE in milliseconds. */
  predicate SaysUnit(word: Bytes, unit: int) {
    (Spells(word, "expire") && unit == 1_000_000_000) || (Spells(word, "pexpire") && unit == 1_000_000)
  }

  lemma ExpireMeans(m: Flat, word: Bytes, unit: int, k: Bytes, a: Bytes, tk: Ticks, maxLen: int)
    requires SaysUnit(word, unit)
    ensures var r := ExecRaw(m, [word] + [k, a], tk, maxLen);
            if ParseInt(a).None? then Refused(m, r, NotInteger)
            else if !IsLive(m, k, tk.check(0)) then r.answer == Int(0) && Leaves(m, r.m, k, None) && r.log == []
            else
              var n := ParseInt(a).value;
              var ttl := Wrap64(n * unit);
              r.answer == Int(1) &&
              Leaves(m, r.m, k, if n <= 0 || ttl <= 0 then None else Some(Entry(m[k].val, Wrap64(tk.write + ttl)))) &&
              r.log == [if n <= 0 then ["DEL", k] else DeadlineRecord(k, (tk.stamp + ttl) / 1_000_000)]
  {
    hide ExecRaw, Spells, LookupName, Lower, Parse;
    hide Exec, Wrap64, FormatInt, ParseInt, Leaves, IsLive;
    var n := if Spells(word, "expire") && unit == 1_000_000_000 then NExpire else NPExpire;
    var args := [k, a];
    Runs(m, word, n, args, tk, maxLen);
    if ParseInt(a).Some? {
      assert ParseArgs(n, args) == Parsed(ExpireIn(k, ParseInt(a).value, unit));
      ExpireExecMeans(m, n, args, k, ParseInt(a).value, unit, tk, maxLen);
    }
  }

  lemma ExpireExecMeans(m: Flat, name: Name, args: seq<Bytes>, k: Bytes, n: int, unit: int, tk: Ticks, maxLen: int)
    requires name.NExpire? || name.NPExpire?
    ensures var o := Exec(m, ExpireIn(k, n, unit), tk, maxLen);
            var log := Records(name, args, o.log);
            if !IsLive(m, k, tk.check(0)) then o.answer == Int(0) && Leaves(m, o.m, k, None) && log == []
            else
              var ttl := Wrap64(n * unit);
              o.answer == Int(1) &&
              Leaves(m, o.m, k, if n <= 0 || ttl <= 0 then None else Some(Entry(m[k].val, Wrap64(tk.write + ttl)))) &&
              log == [if n <= 0 then ["DEL", k] else DeadlineRecord(k, (tk.stamp + ttl) / 1_000_000)]
  {
    hide Wrap64, FormatInt;
    LiveIs(m, k, tk.check(0));
    if n <= 0 {
      DelCountIs(m, [k], tk.check, 1);
      assert [k][..0] == [] && ["DEL"] + [k] == ["DEL", k];
      assert Deleted(m, [k], tk.check) == if IsLive(m, k, tk.check(0)) then {0} else {};
      var left := DelAll(m, [k]);
      forall j ensures (j in left <==> j in m && j != k) && (j in left ==> left[j] == m[j]) {
        DelAllIs(m, [k], j);
      }
    } else {
      UpdateLeaves(m, k, ExpireKey(Live(m, k, tk.check(0)), Wrap64(n * unit), tk.write).0);
    }
  }

  /** EXPIREAT and PEXPIREAT set an absolute deadline, or delete when it has passed;
      the log has it in milliseconds. */
  lemma ExpireAtMeans(m: Flat, word: Bytes, k: Bytes, a: Bytes, tk: Ticks, maxLen: int)
    requires Spells(word, "expireat") || Spells(word, "pexpireat")
    ensures var r := ExecRaw(m, [word] + [k, a], tk, maxLen);
            if ParseInt(a).None? then Refused(m, r, NotInteger)
            else if !IsLive(m, k, tk.check(0)) then r.answer == Int(0) && Leaves(m, r.m, k, None) && r.log == []
            else
              var n := ParseInt(a).value;
              var at := Wrap64(n * if Spells(word, "expireat") then 1_000_000_000 else 1_000_000);
              r.answer == Int(1) &&
              Leaves(m, r.m, k, if at <= tk.write then None else Some(Entry(m[k].val, at))) &&
              r.log == [if Spells(word, "expireat") then DeadlineRecord(k, Wrap64(n * 1000)) else ["PEXPIREAT", k, a]]
  {
    hide ExecRaw, Spells, LookupName, Lower, Parse, Wrap64, FormatInt, Exec;
    var args := [k, a];
    var secs := Spells(word, "expireat");
    Runs(m, word, if secs then NExpireAt else NPExpireAt, args, tk, maxLen);
    if ParseInt(a).Some? { ExpireAtExecMeans(m, k, a, ParseInt(a).value, secs, tk, maxLen); }
  }

  lemma ExpireAtExecMeans(m: Flat, k: Bytes, a: Bytes, n: int, secs: bool, tk: Ticks, maxLen: int)
    ensures var o := Exec(m, if secs then ExpireAt(k, n) else PExpireAt(k, n), tk, maxLen);
            var log := Records(if secs then NExpireAt else NPExpireAt, [k, a], o.log);
            if !IsLive(m, k, tk.check(0)) then o.answer == Int(0) && Leaves(m, o.m, k, None) && log == []
            else
              var at := Wrap64(n * if secs then 1_000_000_000 else 1_000_000);
              o.answer == Int(1) && Leaves(m, o.m, k, if at <= tk.write then None else Some(Entry(m[k].val, at))) &&
              log == [if secs then DeadlineRecord(k, Wrap64(n * 1000)) else ["PEXPIREAT", k, a]]
  {
    hide Wrap64, FormatInt;
    LiveIs(m, k, tk.check(0));
    var at := Wrap64(n * if secs then 1_000_000_000 else 1_000_000);
    UpdateLeaves(m, k, ExpireAtKey(Live(m, k, tk.check(0)), at, tk.write).0);
  }

  lemma PersistMeans(m: Flat, word: Bytes, k: Bytes, tk: Ticks, maxLen: int)
    requires Spells(word, "persist")
    ensures var r := ExecRaw(m, [word] + [k], tk, maxLen);
            if IsLive(m, k, tk.check(0)) && m[k].expireAt != 0 then
              r.answer == Int(1) && Leaves(m, r.m, k, Some(Entry(m[k].val, 0))) && r.log == [["PERSIST", k]]
            else r.answer == Int(0) && Keeps(m, r.m, k, tk.check(0)) && r.log == []
  {
    hide ExecRaw, Spells, LookupName, Lower, Parse;
    Runs(m, word, NPersist, [k], tk, maxLen);
    LiveIs(m, k, tk.check(0));
    UpdateLeaves(m, k, PersistKey(Live(m, k, tk.check(0))).0);
  }

  // ------------------------------------------------------------- several keys

  lemma FlushMeans(m: Flat, word: Bytes, tk: Ticks, maxLen: int)
    requires Spells(word, "flushdb")
    ensures ExecRaw(m, [word] + [], tk, maxLen) == RawOutcome(map[], OK, [["FLUSHDB"]])
  {
    hide ExecRaw, Spells, LookupName, Lower, Parse;
    Runs(m, word, NFlushDB, [], tk, maxLen);
  }

  /** The last value that the arguments give to k, if any. */
  ghost predicate Given(args: seq<Bytes>, k: Bytes, i: nat) {
    2 * i + 1 < |args| && args[2 * i] == k && forall j :: i < j && 2 * j + 1 < |args| ==> args[2 * j] != k
  }

  /** Every key of the list holds its last value without expiry, and every other
      key what it held. */
  ghost predicate AllWritten(m: Flat, after: Flat, args: seq<Bytes>) {
    (forall k, i :: Given(args, k, i) ==> k in after && after[k] == Entry(args[2 * i + 1], 0)) &&
    forall k :: (forall i :: !Given(args, k, i)) ==> (k in after <==> k in m) && (k in m ==> after[k] == m[k])
  }

  lemma PutAllWrites(m: Flat, args: seq<Bytes>)
    requires |args| % 2 == 0
    ensures AllWritten(m, PutAll(m, Pairs(args)), args)
  {
    var pairs := Pairs(args);
    var after := PutAll(m, pairs);
    forall k, i: nat | Given(args, k, i) ensures k in after && after[k] == Entry(args[2 * i + 1], 0) {
      PutAllAt(m, pairs, k);
      assert pairs[i].0 == k;
      var j := LastPair(pairs, k);
      assert j == i by { assert pairs[j] == (args[2 * j], args[2 * j + 1]); }
    }
    forall k | forall i :: !Given(args, k, i)
      ensures (k in PutAll(m, pairs) <==> k in m) && (k in m ==> PutAll(m, pairs)[k] == m[k])
    {
      PutAllAt(m, pairs, k);
      var j := LastPair(pairs, k);
      if j >= 0 {
        assert Given(args, k, j) by {
          forall x | j < x && 2 * x + 1 < |args| ensures args[2 * x] != k { assert pairs[x].0 == args[2 * x]; }
        }
        assert false;
      }
    }
  }

  lemma MSetMeans(m: Flat, word: Bytes, args: seq<Bytes>, tk: Ticks, maxLen: int)
    requires Spells(word, "mset")
    ensures var r := ExecRaw(m, [word] + args, tk, maxLen);
            if |args| < 2 || |args| % 2 != 0 then Refused(m, r, WrongArity)
            else r.answer == OK && AllWritten(m, r.m, args) && r.log == [["MSET"] + args]
  {
    hide ExecRaw, Spells, LookupName, Lower, Parse;
    hide AllWritten;
    Runs(m, word, NMSet, args, tk, maxLen);
    if |args| % 2 == 0 {
      PutAllWrites(m, args);
      FlattenPairs(args);
    }
  }

  /** One of the keys is live when it is looked at. */
  ghost predicate SomeLive(m: Flat, args: seq<Bytes>, clock: nat -> int) {
    exists i: nat :: KeyLive(m, args, clock, i)
  }

  ghost predicate KeyLive(m: Flat, args: seq<Bytes>, clock: nat -> int, i: nat) {
    2 * i + 1 < |args| && IsLive(m, args[2 * i], clock(i))
  }

  lemma AnyLiveIs(m: Flat, args: seq<Bytes>, clock: nat -> int)
    requires |args| % 2 == 0
    ensures AnyLive(m, Pairs(args), Sample(clock, |args| / 2)) <==> SomeLive(m, args, clock)
  {
    var pairs, ts := Pairs(args), Sample(clock, |args| / 2);
    if AnyLive(m, pairs, ts) {
      var i :| 0 <= i < |pairs| && Live(m, pairs[i].0, ts[i]).Some?;
      LiveIs(m, pairs[i].0, ts[i]);
      assert KeyLive(m, args, clock, i);
    }
    if SomeLive(m, args, clock) {
      var i: nat :| KeyLive(m, args, clock, i);
      LiveIs(m, args[2 * i], clock(i));
      assert Live(m, pairs[i].0, ts[i]).Some?;
    }
  }

  /** MSETNX writes all or nothing, and is logged as the MSET it amounts to. */
  lemma MSetNXMeans(m: Flat, word: Bytes, args: seq<Bytes>, tk: Ticks, maxLen: int)
    requires Spells(word, "msetnx")
    ensures var r := ExecRaw(m, [word] + args, tk, maxLen);
            if |args| < 2 || |args| % 2 != 0 then Refused(m, r, WrongArity)
            else if SomeLive(m, args, tk.check) then r == RawOutcome(m, Int(0), [])
            else r.answer == Int(1) && AllWritten(m, r.m, args) && r.log == [["MSET"] + args]
  {
    hide ExecRaw, Spells, LookupName, Lower, Parse, Exec, AllWritten, SomeLive, AnyLive, PutAll;
    Runs(m, word, NMSetNX, args, tk, maxLen);
    if |args| >= 2 && |args| % 2 == 0 {
      assert ParseArgs(NMSetNX, args) == Parsed(MSetNX(Pairs(args)));
      BatchExec(m, args, tk, maxLen);
    }
  }

  lemma BatchExec(m: Flat, args: seq<Bytes>, tk: Ticks, maxLen: int)
    requires |args| % 2 == 0
    ensures var o := Exec(m, MSetNX(Pairs(args)), tk, maxLen);
            if SomeLive(m, args, tk.check) then o == Outcome(m, Int(0), [])
            else o.answer == Int(1) && AllWritten(m, o.m, args) &&
                 Records(NMSetNX, args, o.log) == [["MSET"] + args]
  {
    hide AllWritten, SomeLive, AnyLive, PutAll, Pairs;
    AnyLiveIs(m, args, tk.check);
    PutAllWrites(m, args);
    FlattenPairs(args);
  }

  // ---------------------------------------------------------------- refusals

  /** How many arguments a command takes; -1 stands for no bound. */
  function Bounds(n: Name): (int, int) {
    match n
    case NFlushDB => (0, 0)
    case NGet => (1, 1) case NIncr => (1, 1) case NDecr => (1, 1) case NPersist => (1, 1)
    case NExists => (1, -1) case NDel => (1, -1)
    case NSet => (2, -1) case NMSet => (2, -1) case NMSetNX => (2, -1)
    case _ => (2, 2)
  }

  /** A word that names no command is refused, and so is a command with too few or
      too many arguments; both leave everything as it was. */
  lemma RefusalMeans(m: Flat, word: Bytes, args: seq<Bytes>, tk: Ticks, maxLen: int)
    ensures var r := ExecRaw(m, [word] + args, tk, maxLen);
            (word == [] ==> Refused(m, r, EmptyCommand)) &&
            (word != [] && (forall n :: !Spells(word, NameText(n))) ==> Refused(m, r, UnknownCommand)) &&
            (forall n :: Spells(word, NameText(n)) &&
                         (|args| < Bounds(n).0 || (Bounds(n).1 != -1 && |args| > Bounds(n).1)) ==>
               Refused(m, r, WrongArity))
  {
    hide Exec, ParseArgs, Spells, LookupName, Lower, NameText;
    var r := ExecRaw(m, [word] + args, tk, maxLen);
    if word != [] && LookupName(Lower(word)).Some? {
      var n := LookupName(Lower(word)).value;
      OnlyNames(Lower(word));
      NameLetters(n);
      SpellsLower(word, NameText(n));
    }
    forall n | Spells(word, NameText(n)) && (|args| < Bounds(n).0 || (Bounds(n).1 != -1 && |args| > Bounds(n).1))
      ensures Refused(m, r, WrongArity)
    {
      Runs(m, word, n, args, tk, maxLen);
    }
  }
}
