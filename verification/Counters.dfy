/** Counters: INCR, DECR, INCRBY and DECRBY on one key, in any order, from the
    tokens that clients send. */
module Counters {
  import opened Basics
  import opened TimedMap
  import opened Command
  import opened Meaning

  function Sum(ds: seq<int>): int {
    if ds == [] then 0 else Sum(ds[..|ds| - 1]) + ds[|ds| - 1]
  }

  /** A request with its clock readings. */
  datatype Step = Step(tokens: seq<Bytes>, tk: Ticks)

  /** The requests move the counter at key by ds, one after the other. */
  ghost predicate AllMove(steps: seq<Step>, key: Bytes, ds: seq<int>) {
    |ds| == |steps| && forall i :: 0 <= i < |steps| ==> MovesBy(steps[i].tokens, key, ds[i])
  }

  ghost function Run(m: Flat, steps: seq<Step>, maxLen: int): Flat {
    if steps == [] then m
    else
      var s := steps[|steps| - 1];
      ExecRaw(Run(m, steps[..|steps| - 1], maxLen), s.tokens, s.tk, maxLen).m
  }

  /** After at least one command the key holds, without expiry, the canonical
      text of the start plus all moves, reduced to 64 bits; no other key has
      changed. */
  lemma {:induction false} CounterValue(m: Flat, key: Bytes, steps: seq<Step>, ds: seq<int>, start: int, maxLen: int)
    requires steps != [] && AllMove(steps, key, ds) && CounterAt(m, key, steps[0].tk.check(0)) == Some(start)
    ensures Run(m, steps, maxLen) == m[key := Entry(FormatInt(Wrap64(start + Sum(ds))), 0)]
  {
    hide ExecRaw, Wrap64, FormatInt, ParseInt, CounterAt, MovesBy;
    var n := |steps| - 1;
    var s, d := steps[n], ds[n];
    if n == 0 {
      assert steps[..0] == [] && ds[..0] == [];
      MoveExec(m, key, s, d, start, maxLen);
    } else {
      CounterValue(m, key, steps[..n], ds[..n], start, maxLen);
      var before, v := Run(m, steps[..n], maxLen), Wrap64(start + Sum(ds[..n]));
      CounterRead(m, key, v, s.tk.check(0));
      MoveExec(before, key, s, d, v, maxLen);
      WrapAdd(start + Sum(ds[..n]), d);
      assert start + Sum(ds) == start + Sum(ds[..n]) + d;
    }
  }

  lemma MoveExec(m: Flat, key: Bytes, s: Step, d: int, v: int, maxLen: int)
    requires MovesBy(s.tokens, key, d) && CounterAt(m, key, s.tk.check(0)) == Some(v)
    ensures ExecRaw(m, s.tokens, s.tk, maxLen).m == m[key := Entry(FormatInt(Wrap64(v + d)), 0)]
  {
    hide ExecRaw, Wrap64, FormatInt, CounterAt, MovesBy;
    CounterMeans(m, s.tokens, key, d, s.tk, maxLen);
  }

  lemma CounterRead(m: Flat, key: Bytes, v: int, t: int)
    requires Int64(v)
    ensures CounterAt(m[key := Entry(FormatInt(v), 0)], key, t) == Some(v)
  {
    ParseFormat(v);
  }

  // ------------------------------------------------------ order independence

  lemma {:induction false} SumRemove(ds: seq<int>, i: nat)
    requires i < |ds|
    ensures Sum(ds) == Sum(ds[..i] + ds[i + 1..]) + ds[i]
  {
    var n := |ds| - 1;
    if i < n {
      SumRemove(ds[..n], i);
      assert (ds[..i] + ds[i + 1..])[..n - 1] == ds[..n][..i] + ds[..n][i + 1..];
    } else {
      assert ds[..i] + ds[i + 1..] == ds[..n];
    }
  }

  lemma RemoveOne(s: seq<int>, i: nat)
    requires i < |s|
    ensures multiset(s[..i] + s[i + 1..]) == multiset(s) - multiset{s[i]}
  {
    assert s == s[..i] + [s[i]] + s[i + 1..];
  }

  lemma {:induction false} SumPermuted(a: seq<int>, b: seq<int>)
    requires multiset(a) == multiset(b)
    ensures Sum(a) == Sum(b)
  {
    assert Sum([]) == 0;
    hide Sum;
    if a == [] {
      assert |multiset(b)| == 0;
    } else {
      var n := |a| - 1;
      assert a[n] in multiset(b);
      var i :| 0 <= i < |b| && b[i] == a[n];
      var rest := b[..i] + b[i + 1..];
      RemoveOne(a, n);
      RemoveOne(b, i);
      assert a[..n] + a[n + 1..] == a[..n];
      SumPermuted(a[..n], rest);
      SumRemove(a, n);
      SumRemove(b, i);
    }
  }

  /** Two runs of counter commands that make the same moves in different orders, at
      whatever times and in whatever words, leave the same store. */
  lemma CounterOrder(m: Flat, key: Bytes, a: seq<Step>, ds: seq<int>, b: seq<Step>, es: seq<int>, start: int,
                     maxLen: int)
    requires a != [] && b != [] && AllMove(a, key, ds) && AllMove(b, key, es) && multiset(ds) == multiset(es)
    requires CounterAt(m, key, a[0].tk.check(0)) == Some(start)
    requires CounterAt(m, key, b[0].tk.check(0)) == Some(start)
    ensures Run(m, a, maxLen) == Run(m, b, maxLen)
  {
    SumPermuted(ds, es);
    CounterValue(m, key, a, ds, start, maxLen);
    CounterValue(m, key, b, es, start, maxLen);
  }
}
