/** Any program of store operations, run on the sharded store, returns what it
    would return on one flat timed map that never purges and never sweeps. */
module Refinement {
  import opened Basics
  import opened TimedMap
  import S = Store

  datatype Op =
    | Get(key: Bytes)
    | Set(key: Bytes, val: Bytes, ttl: int, mode: SetMode)
    | Del(keys: seq<Bytes>)
    | Exists(keys: seq<Bytes>)
    | IncrBy(key: Bytes, delta: int)
    | Append(key: Bytes, suffix: Bytes)
    | Expire(key: Bytes, ttl: int)
    | ExpireAt(key: Bytes, unixSeconds: int)
    | ExpireAtMs(key: Bytes, unixMs: int)
    | Persist(key: Bytes)
    | TTL(key: Bytes)
    | GetSet(key: Bytes, val: Bytes)
    | SetNXMulti(pairs: seq<Pair>)
    | Flush
    | Sweep

  datatype Result = Nothing | Text(b: Bytes) | Number(n: int) | Flag(f: bool)

  function OfBytes(o: Option<Bytes>): Result { if o.None? then Nothing else Text(o.value) }

  function OfInt(o: Option<int>): Result { if o.None? then Nothing else Number(o.value) }

  function ValueOf(o: Option<Entry>): Result { if o.None? then Nothing else Text(o.value.val) }

  /** The clock readings of one operation: one expiry check per key, then the last
      one, from which deadlines and remaining times are computed. */
  datatype Readings = Readings(check: nat -> int, last: int)

  ghost predicate WellRead(rd: Readings) {
    (forall i, j :: 0 <= i <= j ==> rd.check(i) <= rd.check(j)) &&
    (forall i :: 0 <= rd.check(i) <= rd.last) && rd.last < TWO63
  }

  /** An operation on a single key: what is left there and what is returned. */
  function KeyStep(cur: Option<Entry>, op: Op, t: int, maxLen: int): (Option<Entry>, Result) {
    match op
    case Get(_) => (cur, ValueOf(cur))
    case Set(_, val, ttl, mode) => var r := SetKey(cur, val, ttl, mode, t); (r.0, Flag(r.1))
    case IncrBy(_, delta) => var r := IncrKey(cur, delta); (r.0, OfInt(r.1))
    case Append(_, suffix) => var r := AppendKey(cur, suffix, maxLen); (r.0, OfInt(r.1))
    case Expire(_, ttl) => var r := ExpireKey(cur, ttl, t); (r.0, Flag(r.1))
    case ExpireAt(_, secs) => var r := ExpireAtKey(cur, Wrap64(secs * SECOND), t); (r.0, Flag(r.1))
    case ExpireAtMs(_, ms) => var r := ExpireAtKey(cur, Wrap64(ms * MILLISECOND), t); (r.0, Flag(r.1))
    case Persist(_) => var r := PersistKey(cur); (r.0, Flag(r.1))
    case TTL(_) =>
      (cur, if cur.None? then Nothing
            else if cur.value.expireAt == 0 then Number(-1)
            else Number(Wrap64(cur.value.expireAt - t)))
    case GetSet(_, val) => (Some(Entry(val, 0)), ValueOf(cur))
    case _ => (cur, Nothing)
  }

  predicate SingleKey(op: Op) {
    op.Get? || op.Set? || op.IncrBy? || op.Append? || op.Expire? || op.ExpireAt? || op.ExpireAtMs? || op.Persist? ||
    op.TTL? || op.GetSet?
  }

  /** One operation on the flat map. */
  ghost function FlatStep(m: Flat, op: Op, rd: Readings, maxLen: int): (Flat, Result) {
    if SingleKey(op) then
      var r := KeyStep(Live(m, op.key, rd.check(0)), op, rd.last, maxLen);
      (Update(m, op.key, r.0), r.1)
    else match op
      case Del(keys) => (DelAll(m, keys), Number(DelCount(m, keys, Sample(rd.check, |keys|))))
      case Exists(keys) => (m, Number(S.CountLive(m, keys, Sample(rd.check, |keys|))))
      case SetNXMulti(pairs) =>
        if AnyLive(m, pairs, Sample(rd.check, |pairs|)) then (m, Flag(false)) else (PutAll(m, pairs), Flag(true))
      case Flush => (map[], Nothing)
      case _ => (m, Nothing)
  }

  datatype Timed = Timed(op: Op, rd: Readings)

  ghost function FlatRun(m: Flat, ops: seq<Timed>, maxLen: int): (Flat, seq<Result>) {
    if ops == [] then (m, [])
    else
      var last := ops[|ops| - 1];
      var before := FlatRun(m, ops[..|ops| - 1], maxLen);
      var step := FlatStep(before.0, last.op, last.rd, maxLen);
      (step.0, before.1 + [step.1])
  }

  // -------------------------------------------------------------- stuttering

  lemma SameDelAll(a: Flat, b: Flat, keys: seq<Bytes>, t: int)
    requires SameView(a, b, t)
    ensures SameView(DelAll(a, keys), DelAll(b, keys), t)
  {
    forall k ensures Live(DelAll(a, keys), k, t) == Live(DelAll(b, keys), k, t) {
      LiveDelAll(a, keys, k, t);
      LiveDelAll(b, keys, k, t);
      assert Live(a, k, t) == Live(b, k, t);
    }
  }

  lemma {:induction false} SameDelCount(a: Flat, b: Flat, keys: seq<Bytes>, ts: seq<int>, t: int)
    requires SameView(a, b, t) && |keys| <= |ts| && forall i :: 0 <= i < |ts| ==> t <= ts[i]
    ensures DelCount(a, keys, ts) == DelCount(b, keys, ts)
  {
    if keys != [] {
      var n := |keys| - 1;
      SameDelCount(a, b, keys[..n], ts, t);
      LiveDelAll(a, keys[..n], keys[n], ts[n]);
      LiveDelAll(b, keys[..n], keys[n], ts[n]);
      SameViewLater(a, b, t, ts[n]);
      assert Live(a, keys[n], ts[n]) == Live(b, keys[n], ts[n]);
    }
  }

  lemma {:induction false} SameCount(a: Flat, b: Flat, keys: seq<Bytes>, ts: seq<int>, t: int)
    requires SameView(a, b, t) && |keys| <= |ts| && forall i :: 0 <= i < |ts| ==> t <= ts[i]
    ensures S.CountLive(a, keys, ts) == S.CountLive(b, keys, ts)
  {
    if keys != [] {
      var n := |keys| - 1;
      SameCount(a, b, keys[..n], ts, t);
      SameViewLater(a, b, t, ts[n]);
      assert Live(a, keys[n], ts[n]) == Live(b, keys[n], ts[n]);
    }
  }

  lemma SamePutAll(a: Flat, b: Flat, pairs: seq<Pair>, t: int)
    requires SameView(a, b, t)
    ensures SameView(PutAll(a, pairs), PutAll(b, pairs), t)
  {
    forall k ensures Live(PutAll(a, pairs), k, t) == Live(PutAll(b, pairs), k, t) {
      LivePutAll(a, pairs, k, t);
      LivePutAll(b, pairs, k, t);
      assert Live(a, k, t) == Live(b, k, t);
    }
  }

  lemma SameAnyLive(a: Flat, b: Flat, pairs: seq<Pair>, ts: seq<int>, t: int)
    requires SameView(a, b, t) && |pairs| <= |ts| && forall i :: 0 <= i < |ts| ==> t <= ts[i]
    ensures AnyLive(a, pairs, ts) <==> AnyLive(b, pairs, ts)
  {
    forall i | 0 <= i < |pairs| ensures Live(a, pairs[i].0, ts[i]) == Live(b, pairs[i].0, ts[i]) {
      SameViewLater(a, b, t, ts[i]);
    }
  }

  /** Maps that look alike answer alike and go on looking alike: what lazy
      purging and sweeping have or have not removed can never be observed. */
  lemma StepCongruence(a: Flat, b: Flat, op: Op, rd: Readings, maxLen: int)
    requires WellRead(rd) && SameView(a, b, rd.check(0))
    ensures FlatStep(a, op, rd, maxLen).1 == FlatStep(b, op, rd, maxLen).1
    ensures SameView(FlatStep(a, op, rd, maxLen).0, FlatStep(b, op, rd, maxLen).0, rd.last)
  {
    SameViewLater(a, b, rd.check(0), rd.last);
    if SingleKey(op) {
      assert Live(a, op.key, rd.check(0)) == Live(b, op.key, rd.check(0));
      SameViewUpdate(a, b, op.key, KeyStep(Live(a, op.key, rd.check(0)), op, rd.last, maxLen).0, rd.last);
    } else {
      match op
      case Del(keys) =>
        SameDelCount(a, b, keys, Sample(rd.check, |keys|), rd.check(0));
        SameDelAll(a, b, keys, rd.last);
      case Exists(keys) => SameCount(a, b, keys, Sample(rd.check, |keys|), rd.check(0));
      case SetNXMulti(pairs) =>
        SameAnyLive(a, b, pairs, Sample(rd.check, |pairs|), rd.check(0));
        SamePutAll(a, b, pairs, rd.last);
      case _ =>
    }
  }

  // ------------------------------------------------------------ the key count

  /** What an operation that returned r does to the lead of the count over the
      maps: only a batch that names a key twice widens it, and a flush ends it. */
  function DriftStep(d: int, op: Op, r: Result): int {
    match op
    case SetNXMulti(pairs) => if r == Flag(true) then d + |pairs| - |S.KeySet(pairs)| else d
    case Flush => 0
    case _ => d
  }

  function DriftRun(d: int, ops: seq<Timed>, rs: seq<Result>): int
    requires |ops| == |rs|
  {
    if ops == [] then d
    else
      var n := |ops| - 1;
      DriftStep(DriftRun(d, ops[..n], rs[..n]), ops[n].op, rs[n])
  }

  ghost predicate DistinctKeys(pairs: seq<Pair>) {
    forall i, j :: 0 <= i < j < |pairs| ==> pairs[i].0 != pairs[j].0
  }

  lemma DistinctExtend(pairs: seq<Pair>)
    requires pairs != []
    ensures var n := |pairs| - 1;
            DistinctKeys(pairs) <==> DistinctKeys(pairs[..n]) && pairs[n].0 !in S.KeySet(pairs[..n])
  {
    var n := |pairs| - 1;
    var front, k := pairs[..n], pairs[n].0;
    if k in S.KeySet(front) {
      var p :| p in front && p.0 == k;
      var i :| 0 <= i < n && front[i] == p;
      assert pairs[i].0 == pairs[n].0;
    } else {
      forall i | 0 <= i < n ensures pairs[i].0 != k { assert front[i] in front; }
    }
    assert forall i :: 0 <= i < n ==> front[i] == pairs[i];
  }

  lemma {:induction false} DistinctSize(pairs: seq<Pair>)
    ensures |S.KeySet(pairs)| <= |pairs|
    ensures DistinctKeys(pairs) <==> |S.KeySet(pairs)| == |pairs|
  {
    if pairs == [] {
      assert S.KeySet(pairs) == {};
    } else {
      hide S.KeySet, DistinctKeys;
      var n := |pairs| - 1;
      var front, k := pairs[..n], pairs[n].0;
      DistinctSize(front);
      DistinctExtend(pairs);
      S.KeySetExtend(pairs, n);
      assert pairs[..n + 1] == pairs;
      if k in S.KeySet(front) { assert S.KeySet(front) + {k} == S.KeySet(front); }
    }
  }

  /** The count of a store that starts out exact never falls behind, and it stays
      exact as long as every batch that succeeds names its keys once. */
  lemma {:induction false} ExactCount(ops: seq<Timed>, rs: seq<Result>)
    requires |ops| == |rs|
    ensures DriftRun(0, ops, rs) >= 0
    ensures (forall i :: 0 <= i < |ops| && ops[i].op.SetNXMulti? && rs[i] == Flag(true) ==>
               DistinctKeys(ops[i].op.pairs)) ==> DriftRun(0, ops, rs) == 0
  {
    if ops != [] {
      var n := |ops| - 1;
      ExactCount(ops[..n], rs[..n]);
      if ops[n].op.SetNXMulti? { DistinctSize(ops[n].op.pairs); }
    }
  }

  // -------------------------------------------------------------- refinement

  /** The clock never goes back and stays in the range of a Unix nanosecond
      count; the durations are int64 values. */
  ghost predicate WellTimed(ops: seq<Timed>) {
    (forall i :: 0 <= i < |ops| ==> WellRead(ops[i].rd)) &&
    (forall i, j :: 0 <= i < j < |ops| ==> ops[i].rd.last <= ops[j].rd.check(0)) &&
    forall i :: 0 <= i < |ops| && ops[i].op.Expire? ==> Int64(ops[i].op.ttl)
  }

  method PerformKey(s: S.Store, op: Op, rd: Readings) returns (r: Result)
    requires s.Valid() && SingleKey(op) && WellRead(rd) && (op.Expire? ==> Int64(op.ttl))
    modifies s
    ensures s.Valid() && s.Drift() == old(s.Drift())
    ensures s.flat
         == Update(old(s.flat), op.key, KeyStep(Live(old(s.flat), op.key, rd.check(0)), op, rd.last, s.maxValLen).0)
    ensures r == KeyStep(Live(old(s.flat), op.key, rd.check(0)), op, rd.last, s.maxValLen).1
  {
    hide S.Store.Valid, S.Store.Drift, S.Total, SetKey, IncrKey, AppendKey, ExpireKey, ExpireAtKey, PersistKey;
    var text: Option<Bytes>;
    var num: Option<int>;
    var ok: bool;
    var t1, t2 := rd.check(0), rd.last;
    match op
    case Get(key) => text := s.Get(key, t1); r := OfBytes(text);
    case Set(key, val, ttl, mode) => ok := s.Set(key, val, ttl, mode, t1, t2); r := Flag(ok);
    case IncrBy(key, delta) => num := s.IncrBy(key, delta, t1); r := OfInt(num);
    case Append(key, suffix) => num := s.Append(key, suffix, t1); r := OfInt(num);
    case Expire(key, ttl) => ok := s.Expire(key, ttl, t1, t2); r := Flag(ok);
    case ExpireAt(key, secs) => ok := s.ExpireAt(key, secs, t1, t2); r := Flag(ok);
    case ExpireAtMs(key, ms) => ok := s.ExpireAtMs(key, ms, t1, t2); r := Flag(ok);
    case Persist(key) => ok := s.Persist(key, t1); r := Flag(ok);
    case TTL(key) => num := s.TTL(key, t1, t2); r := OfInt(num);
    case GetSet(key, val) => text := s.GetSet(key, val, t1); r := OfBytes(text);
  }

  method Perform(s: S.Store, op: Op, rd: Readings) returns (r: Result)
    requires s.Valid() && WellRead(rd) && (op.Expire? ==> Int64(op.ttl))
    modifies s
    ensures s.Valid() && s.Drift() == DriftStep(old(s.Drift()), op, r)
    ensures SameView(s.flat, FlatStep(old(s.flat), op, rd, s.maxValLen).0, rd.last)
    ensures r == FlatStep(old(s.flat), op, rd, s.maxValLen).1
  {
    hide S.Store.Valid, S.Store.Drift, S.Total, KeyStep, DelAll, DelCount, PutAll, S.CountLive, S.KeySet;
    if SingleKey(op) {
      r := PerformKey(s, op, rd);
      return;
    }
    var n: nat;
    match op
    case Del(keys) => n := s.Del(keys, Sample(rd.check, |keys|)); r := Number(n);
    case Exists(keys) => n := s.Exists(keys, Sample(rd.check, |keys|)); r := Number(n);
    case SetNXMulti(pairs) =>
      ghost var m := s.flat;
      var ok := s.SetNXMulti(pairs, Sample(rd.check, |pairs|));
      if !ok { SameViewLater(s.flat, m, Sample(rd.check, |pairs|)[|pairs| - 1], rd.last); }
      r := Flag(ok);
    case Flush => s.Flush(); r := Nothing;
    case Sweep => s.Sweep(rd.last); r := Nothing;
  }

  /** Any sequence of operations under a non-decreasing clock, for any number of
      shards and any way of assigning keys to them: the results are those of the
      flat map, and the count leads the maps by what repeated keys in batches
      have added since the last flush. */
  method Run(s: S.Store, ops: seq<Timed>) returns (rs: seq<Result>)
    requires s.Valid() && WellTimed(ops)
    modifies s
    ensures s.Valid() && |rs| == |ops|
    ensures rs == FlatRun(old(s.flat), ops, s.maxValLen).1
    ensures ops != [] ==> SameView(s.flat, FlatRun(old(s.flat), ops, s.maxValLen).0, ops[|ops| - 1].rd.last)
    ensures s.Drift() == DriftRun(old(s.Drift()), ops, rs)
  {
    hide S.Store.Valid, S.Store.Drift, FlatStep, DriftStep, SameView, WellRead;
    rs := [];
    for i := 0 to |ops|
      invariant s.Valid() && |rs| == i
      invariant rs == FlatRun(old(s.flat), ops[..i], s.maxValLen).1
      invariant i == 0 ==> s.flat == old(s.flat)
      invariant i > 0 ==> SameView(s.flat, FlatRun(old(s.flat), ops[..i], s.maxValLen).0, ops[i - 1].rd.last)
      invariant s.Drift() == DriftRun(old(s.Drift()), ops[..i], rs)
    {
      ghost var before, m := s.flat, FlatRun(old(s.flat), ops[..i], s.maxValLen).0;
      assert ops[..i + 1][..i] == ops[..i];
      SameStart(before, m, ops, i);
      StepCongruence(before, m, ops[i].op, ops[i].rd, s.maxValLen);
      var r := Perform(s, ops[i].op, ops[i].rd);
      SameViewTrans(s.flat, FlatStep(before, ops[i].op, ops[i].rd, s.maxValLen).0,
                    FlatStep(m, ops[i].op, ops[i].rd, s.maxValLen).0, ops[i].rd.last);
      assert (rs + [r])[..i] == rs;
      rs := rs + [r];
    }
    assert ops[..|ops|] == ops;
  }

  /** Alike after the operation before, alike when the next one starts. */
  lemma SameStart(a: Flat, b: Flat, ops: seq<Timed>, i: nat)
    requires WellTimed(ops) && i < |ops|
    requires i == 0 ==> a == b
    requires i > 0 ==> SameView(a, b, ops[i - 1].rd.last)
    ensures WellRead(ops[i].rd) && SameView(a, b, ops[i].rd.check(0))
  {
    if i > 0 { SameViewLater(a, b, ops[i - 1].rd.last, ops[i].rd.check(0)); }
  }
}
