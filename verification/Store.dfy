/** The sharded store: per-shard maps, a lazily maintained count and the heap of
    deadlines, updated in place. Every method is proved against the flat timed
    map of TimedMap. Clock readings are parameters, in the order in which the
    source takes them. */
module Store {
  import opened Basics
  import opened TimedMap
  import opened ExpHeap
  import Glob

  // ------------------------------------------------------- sharded contents

  type Shards = seq<Flat>

  /** `slot` is the masked hash: the index of the shard that owns a key. Each
      key lives in its own shard. */
  ghost predicate Placed(slot: Bytes -> nat, shards: Shards) {
    (forall k :: slot(k) < |shards|) &&
    forall i, k :: 0 <= i < |shards| && k in shards[i] ==> slot(k) == i
  }

  /** m is the flat map that the shards hold together. */
  ghost predicate Holds(slot: Bytes -> nat, shards: Shards, m: Flat)
    requires Placed(slot, shards)
  {
    forall k :: (k in m <==> k in shards[slot(k)]) && (k in m ==> m[k] == shards[slot(k)][k])
  }

  /** The total size of all shard maps. */
  ghost function Total(shards: Shards): nat {
    if shards == [] then 0 else Total(shards[..|shards| - 1]) + |shards[|shards| - 1]|
  }

  lemma {:induction false} TotalUpdate(shards: Shards, i: nat, m: Flat)
    requires i < |shards|
    ensures Total(shards[i := m]) == Total(shards) - |shards[i]| + |m|
  {
    var n := |shards| - 1;
    if i == n {
      assert shards[i := m][..n] == shards[..n];
    } else {
      assert shards[i := m][..n] == shards[..n][i := m];
      TotalUpdate(shards[..n], i, m);
    }
  }

  lemma FlatUpdate(slot: Bytes -> nat, shards: Shards, m: Flat, k: Bytes, o: Option<Entry>)
    requires Placed(slot, shards) && Holds(slot, shards, m)
    ensures var after := shards[slot(k) := Update(shards[slot(k)], k, o)];
            Placed(slot, after) && Holds(slot, after, Update(m, k, o))
  {
  }

  lemma SizeUpdate(m: Flat, k: Bytes, o: Option<Entry>)
    ensures |Update(m, k, o)| == |m| - (if k in m then 1 else 0) + if o.Some? then 1 else 0
  {
    var rest := m - {k};
    assert k in m ==> m.Keys == rest.Keys + {k};
    assert k !in m ==> m == rest;
    assert o.Some? ==> m[k := o.value].Keys == rest.Keys + {k};
  }

  /** The part of the map that lies in the first n shards. */
  ghost function Part(slot: Bytes -> nat, m: Flat, n: nat): Flat {
    map k | k in m && slot(k) < n :: m[k]
  }

  lemma PartExtend(slot: Bytes -> nat, shards: Shards, m: Flat, n: nat)
    requires Placed(slot, shards) && Holds(slot, shards, m) && n < |shards|
    ensures |Part(slot, m, n + 1)| == |Part(slot, m, n)| + |shards[n]|
  {
    var a, b, sh := Part(slot, m, n).Keys, Part(slot, m, n + 1).Keys, shards[n].Keys;
    forall k ensures k in sh <==> k in m && slot(k) == n {
      if k in m && slot(k) == n { assert k in shards[slot(k)]; }
    }
    assert b == a + sh && a !! sh;
  }

  /** The shards together are as large as the flat map, so the total size is the
      number of keys stored. */
  lemma TotalIsSize(slot: Bytes -> nat, shards: Shards, m: Flat)
    requires Placed(slot, shards) && Holds(slot, shards, m)
    ensures Total(shards) == |m|
  {
    PartTotal(slot, shards, m, |shards|);
    assert shards[..|shards|] == shards;
    assert Part(slot, m, |shards|) == m;
  }

  lemma {:induction false} PartTotal(slot: Bytes -> nat, shards: Shards, m: Flat, n: nat)
    requires Placed(slot, shards) && Holds(slot, shards, m) && n <= |shards|
    ensures |Part(slot, m, n)| == Total(shards[..n])
  {
    if n == 0 {
      assert Part(slot, m, 0) == map[];
    } else {
      PartTotal(slot, shards, m, n - 1);
      PartExtend(slot, shards, m, n - 1);
      assert shards[..n][..n - 1] == shards[..n - 1];
    }
  }

  lemma {:induction false} EmptyTotal(shards: Shards)
    requires forall i :: 0 <= i < |shards| ==> shards[i] == map[]
    ensures Total(shards) == 0
  {
    if shards != [] { EmptyTotal(shards[..|shards| - 1]); }
  }

  /** Every entry with a deadline can be found through the heap, and no heap
      entry carries the 0 that stands for "no deadline". */
  ghost predicate Covered(m: Flat, exp: Heap) {
    (forall k :: k in m && m[k].expireAt != 0 ==> ExpEntry(m[k].expireAt, k) in exp) &&
    forall e :: e in exp ==> e.deadline != 0
  }

  lemma CoveredPush(m: Flat, h: Heap, after: Heap, k: Bytes, e: Entry)
    requires Covered(m, h) && e.expireAt != 0
    requires multiset(after) == multiset(h) + multiset{ExpEntry(e.expireAt, k)}
    ensures Covered(m[k := e], after)
  {
    forall x ensures x in after <==> x in h || x == ExpEntry(e.expireAt, k) {
      assert x in after <==> x in multiset(after);
    }
  }

  // ------------------------------------------------------------ power of two

  predicate IsPow2(p: int) {
    p == 1 || (p > 1 && p % 2 == 0 && IsPow2(p / 2))
  }

  lemma {:induction false} Pow2Gap(p: int, q: int)
    requires IsPow2(p) && IsPow2(q) && p < q
    ensures 2 * p <= q
  {
    if p > 1 { Pow2Gap(p / 2, q / 2); }
  }

  /** nextPow2: the least power of two that is at least n. */
  method NextPow2(n: int) returns (p: int)
    ensures IsPow2(p) && n <= p
    ensures forall q :: IsPow2(q) && n <= q ==> p <= q
  {
    p := 1;
    while p < n
      invariant IsPow2(p) && p > 0
      invariant forall q :: IsPow2(q) && n <= q ==> p <= q
      decreases n - p
    {
      forall q | IsPow2(q) && n <= q ensures 2 * p <= q { Pow2Gap(p, q); }
      p := 2 * p;
    }
  }

  // -------------------------------------------------------------- the store

  ghost predicate Monotone(ts: seq<int>) {
    forall i, j :: 0 <= i <= j < |ts| ==> ts[i] <= ts[j]
  }

  predicate NoDup(s: seq<Bytes>) {
    forall i, j :: 0 <= i < j < |s| ==> s[i] != s[j]
  }

  lemma NoDupConcat(a: seq<Bytes>, b: seq<Bytes>)
    requires NoDup(a) && NoDup(b) && forall k :: k in a ==> k !in b
    ensures NoDup(a + b)
  {
    forall i, j | 0 <= i < j < |a + b| ensures (a + b)[i] != (a + b)[j] {
      if i < |a| <= j { assert a[i] in a && b[j - |a|] in b; }
    }
  }

  function KeySet(pairs: seq<Pair>): set<Bytes> {
    set p | p in pairs :: p.0
  }

  lemma KeySetExtend(pairs: seq<Pair>, i: nat)
    requires i < |pairs|
    ensures KeySet(pairs[..i + 1]) == KeySet(pairs[..i]) + {pairs[i].0}
    ensures KeySet(pairs[..i + 1]) <= KeySet(pairs)
  {
    assert pairs[..i + 1] == pairs[..i] + [pairs[i]];
    forall k | k in KeySet(pairs[..i]) + {pairs[i].0} ensures k in KeySet(pairs[..i + 1]) {
      if k == pairs[i].0 {
        assert pairs[i] in pairs[..i + 1];
      } else {
        var p :| p in pairs[..i] && p.0 == k;
        assert p in pairs[..i + 1];
      }
    }
  }

  /** Writing the next pair of a batch over a map that had none of its keys. */
  lemma NextPair(m: Flat, pairs: seq<Pair>, i: nat)
    requires i < |pairs| && m.Keys !! KeySet(pairs)
    ensures PutAll(m, pairs[..i + 1]) == PutAll(m, pairs[..i])[pairs[i].0 := Entry(pairs[i].1, 0)]
    ensures |KeySet(pairs[..i + 1])| ==
            |KeySet(pairs[..i])| + if pairs[i].0 in PutAll(m, pairs[..i]) then 0 else 1
  {
    var k, done := pairs[i].0, pairs[..i];
    assert pairs[..i + 1][..i] == done;
    KeySetExtend(pairs, i);
    PutAllAt(m, done, k);
    assert k !in m;
    if k in KeySet(done) {
      var p :| p in done && p.0 == k;
      assert KeySet(pairs[..i + 1]) == KeySet(done);
    }
  }

  /** Entries under the keys of a batch do not matter to its outcome. */
  lemma PutAllCovers(m0: Flat, m1: Flat, pairs: seq<Pair>)
    requires forall k :: k in m1 ==> k in m0 && m1[k] == m0[k]
    requires forall k :: k in m0 && k !in m1 ==> k in KeySet(pairs)
    ensures PutAll(m1, pairs) == PutAll(m0, pairs)
  {
    forall k
      ensures k in PutAll(m1, pairs) <==> k in PutAll(m0, pairs)
      ensures k in PutAll(m1, pairs) ==> PutAll(m1, pairs)[k] == PutAll(m0, pairs)[k]
    {
      PutAllAt(m0, pairs, k);
      PutAllAt(m1, pairs, k);
      if k in KeySet(pairs) {
        var p :| p in pairs && p.0 == k;
        assert LastPair(pairs, k) >= 0;
      }
    }
  }

  function CountLive(m: Flat, keys: seq<Bytes>, ts: seq<int>): nat
    requires |keys| <= |ts|
  {
    if keys == [] then 0
    else
      var last := |keys| - 1;
      CountLive(m, keys[..last], ts) + if Live(m, keys[last], ts[last]).Some? then 1 else 0
  }

  class Store {
    const slot: Bytes -> nat
    const maxValLen: int
    var shards: Shards
    var count: int
    var exp: Heap

    /** The flat map that the shards represent. */
    ghost var flat: Flat

    ghost predicate Sharded()
      reads this`shards, this`flat
    {
      Placed(slot, shards) && Holds(slot, shards, flat)
    }

    ghost predicate Valid()
      reads this
    {
      Sharded() && Ordered(exp) && Covered(flat, exp)
    }

    /** How far the count is ahead of the maps. */
    ghost function Drift(): int
      reads this`count, this`shards
    {
      count - Total(shards)
    }

    constructor (slot: Bytes -> nat, n: nat, maxValLen: int)
      requires forall k :: slot(k) < n
      ensures Valid() && flat == map[] && Drift() == 0
      ensures |shards| == n && this.slot == slot && this.maxValLen == maxValLen
    {
      this.slot := slot;
      this.maxValLen := maxValLen;
      shards := seq(n, _ => map[]);
      count := 0;
      exp := [];
      flat := map[];
      new;
      EmptyTotal(shards);
    }

    /** The map access `sh.m[key]` on the shard that owns key. */
    function Lookup(key: Bytes): (o: Option<Entry>)
      requires Sharded()
      reads this`shards, this`flat
      ensures o == if key in flat then Some(flat[key]) else None
    {
      var sh := shards[slot(key)];
      if key in sh then Some(sh[key]) else None
    }

    /** The assignment `sh.m[key] = e`. */
    method Put(key: Bytes, e: Entry)
      requires Sharded()
      modifies this`shards, this`flat
      ensures Sharded() && |shards| == old(|shards|)
      ensures flat == old(flat)[key := e]
      ensures Total(shards) == old(Total(shards)) + if key in old(flat) then 0 else 1
    {
      var i := slot(key);
      FlatUpdate(slot, shards, flat, key, Some(e));
      TotalUpdate(shards, i, Update(shards[i], key, Some(e)));
      SizeUpdate(shards[i], key, Some(e));
      shards := shards[i := shards[i][key := e]];
      flat := flat[key := e];
    }

    method Purge(key: Bytes)
      requires Sharded() && key in flat
      modifies this`shards, this`count, this`flat
      ensures Sharded() && |shards| == old(|shards|)
      ensures flat == old(flat) - {key}
      ensures Drift() == old(Drift())
    {
      var i := slot(key);
      FlatUpdate(slot, shards, flat, key, None);
      TotalUpdate(shards, i, Update(shards[i], key, None));
      SizeUpdate(shards[i], key, None);
      shards := shards[i := shards[i] - {key}];
      count := count - 1;
      flat := flat - {key};
    }

    method PushExpiry(key: Bytes, deadline: int)
      requires Ordered(exp)
      modifies this`exp
      ensures Ordered(exp)
      ensures multiset(exp) == old(multiset(exp)) + multiset{ExpEntry(deadline, key)}
    {
      exp := ExpHeap.Push(exp, ExpEntry(deadline, key));
    }

    method Get(key: Bytes, t: int) returns (r: Option<Bytes>)
      requires Valid()
      modifies this`shards, this`count, this`flat
      ensures Valid() && |shards| == old(|shards|) && Drift() == old(Drift())
      ensures flat == Update(old(flat), key, Live(old(flat), key, t))
      ensures r == match Live(old(flat), key, t) case None => None case Some(e) => Some(e.val)
    {
      hide Holds, Placed, Total;
      UpdateFacts(flat, key);
      var e := Lookup(key);
      if e.None? {
        return None;
      }
      if Expired(e.value, t) {
        Purge(key);
        return None;
      }
      return Some(e.value.val);
    }

    method Set(key: Bytes, val: Bytes, ttl: int, mode: SetMode, t1: int, t2: int) returns (ok: bool)
      requires Valid()
      modifies this
      ensures Valid() && |shards| == old(|shards|) && Drift() == old(Drift())
      ensures (Update(old(flat), key, SetKey(Live(old(flat), key, t1), val, ttl, mode, t2).0), ok)
           == (flat, SetKey(Live(old(flat), key, t1), val, ttl, mode, t2).1)
      ensures ok <==> mode.SetAlways? || (mode.SetNX? <==> Live(old(flat), key, t1).None?)
      ensures ok ==> flat == old(flat)[key := Entry(val, if ttl > 0 then Wrap64(t2 + ttl) else 0)]
      ensures !ok ==> Live(flat, key, t1) == Live(old(flat), key, t1) && flat - {key} == old(flat) - {key}
    {
      hide Holds, Placed, Total;
      UpdateFacts(flat, key);
      var e := Lookup(key);
      var exists_ := e.Some?;
      if exists_ && Expired(e.value, t1) {
        Purge(key);
        exists_ := false;
      }
      match mode {
        case SetNX => if exists_ { return false; }
        case SetXX => if !exists_ { return false; }
        case SetAlways =>
      }
      var dl := 0;
      if ttl > 0 {
        dl := Wrap64(t2 + ttl);
      }
      Put(key, Entry(val, dl));
      if !exists_ {
        count := count + 1;
      }
      if dl != 0 {
        PushExpiry(key, dl);
        CoveredPush(old(flat), old(exp), exp, key, Entry(val, dl));
      }
      return true;
    }

    method Del(keys: seq<Bytes>, ts: seq<int>) returns (n: nat)
      requires Valid() && |ts| == |keys|
      modifies this`shards, this`count, this`flat
      ensures Valid() && |shards| == old(|shards|) && Drift() == old(Drift())
      ensures flat == DelAll(old(flat), keys) && n == DelCount(old(flat), keys, ts)
    {
      hide Holds, Placed, Total;
      n := 0;
      for i := 0 to |keys|
        invariant Valid() && |shards| == old(|shards|) && Drift() == old(Drift())
        invariant flat == DelAll(old(flat), keys[..i]) && n == DelCount(old(flat), keys[..i], ts)
      {
        assert keys[..i + 1][..i] == keys[..i];
        var e := Lookup(keys[i]);
        if e.Some? {
          if !Expired(e.value, ts[i]) {
            n := n + 1;
          }
          Purge(keys[i]);
        }
      }
      assert keys[..|keys|] == keys;
    }

    method Exists(keys: seq<Bytes>, ts: seq<int>) returns (n: nat)
      requires Valid() && |ts| == |keys|
      ensures n == CountLive(flat, keys, ts)
    {
      n := 0;
      for i := 0 to |keys|
        invariant n == CountLive(flat, keys[..i], ts)
      {
        assert keys[..i + 1][..i] == keys[..i];
        var e := Lookup(keys[i]);
        if e.Some? && !Expired(e.value, ts[i]) {
          n := n + 1;
        }
      }
      assert keys[..|keys|] == keys;
    }

    method IncrBy(key: Bytes, delta: int, t: int) returns (r: Option<int>)
      requires Valid()
      modifies this`shards, this`count, this`flat
      ensures Valid() && |shards| == old(|shards|) && Drift() == old(Drift())
      ensures (flat, r) == (Update(old(flat), key, IncrKey(Live(old(flat), key, t), delta).0),
                              IncrKey(Live(old(flat), key, t), delta).1)
    {
      hide Holds, Placed, Total;
      UpdateFacts(flat, key);
      var e := Lookup(key);
      var ok := e.Some?;
      if ok && Expired(e.value, t) {
        Purge(key);
        ok := false;
      }
      var cur := 0;
      if ok {
        var n := ParseInt(e.value.val);
        if n.None? {
          return None;
        }
        cur := n.value;
      }
      cur := Wrap64(cur + delta);
      Put(key, Entry(FormatInt(cur), 0));
      if !ok {
        count := count + 1;
      }
      return Some(cur);
    }

    method Append(key: Bytes, suffix: Bytes, t: int) returns (r: Option<int>)
      requires Valid()
      modifies this`shards, this`count, this`flat
      ensures Valid() && |shards| == old(|shards|) && Drift() == old(Drift())
      ensures (flat, r) == (Update(old(flat), key, AppendKey(Live(old(flat), key, t), suffix, maxValLen).0),
                              AppendKey(Live(old(flat), key, t), suffix, maxValLen).1)
      ensures var was := match Live(old(flat), key, t) case None => Entry([], 0) case Some(e) => e;
              (r.Some? <==> |was.val| + |suffix| <= maxValLen) &&
              (r.Some? ==> key in flat && |was.val| <= |flat[key].val| == r.value &&
                           flat[key].val[..|was.val|] == was.val && flat[key].val[|was.val|..] == suffix &&
                           flat[key].expireAt == was.expireAt)
    {
      hide Holds, Placed, Total;
      UpdateFacts(flat, key);
      var e := Lookup(key);
      var ok := e.Some?;
      if ok && Expired(e.value, t) {
        Purge(key);
        ok := false;
      }
      if !ok {
        if |suffix| > maxValLen {
          return None;
        }
        Put(key, Entry(suffix, 0));
        count := count + 1;
        assert [] + suffix == suffix;
        return Some(|suffix|);
      }
      if |e.value.val| + |suffix| > maxValLen {
        return None;
      }
      Put(key, Entry(e.value.val + suffix, e.value.expireAt));
      return Some(|e.value.val| + |suffix|);
    }

    method Expire(key: Bytes, ttl: int, t1: int, t2: int) returns (r: bool)
      requires Valid() && Int64(ttl) && 0 <= t2 < TWO63
      modifies this
      ensures Valid() && |shards| == old(|shards|) && Drift() == old(Drift())
      ensures (flat, r) == (Update(old(flat), key, ExpireKey(Live(old(flat), key, t1), ttl, t2).0),
                              ExpireKey(Live(old(flat), key, t1), ttl, t2).1)
    {
      hide Holds, Placed, Total;
      UpdateFacts(flat, key);
      var e := Lookup(key);
      if e.None? || Expired(e.value, t1) {
        if e.Some? {
          Purge(key);
        }
        return false;
      }
      if ttl <= 0 {
        Purge(key);
        return true;
      }
      var dl := Wrap64(t2 + ttl);
      Put(key, Entry(e.value.val, dl));
      PushExpiry(key, dl);
      CoveredPush(old(flat), old(exp), exp, key, Entry(e.value.val, dl));
      return true;
    }

    /** The remaining time, -1 without a deadline, None for a missing key. */
    method TTL(key: Bytes, t1: int, t2: int) returns (r: Option<int>)
      requires Valid()
      modifies this`shards, this`count, this`flat
      ensures Valid() && |shards| == old(|shards|) && Drift() == old(Drift())
      ensures flat == Update(old(flat), key, Live(old(flat), key, t1))
      ensures r == match Live(old(flat), key, t1)
                   case None => None
                   case Some(e) => if e.expireAt == 0 then Some(-1) else Some(Wrap64(e.expireAt - t2))
    {
      hide Holds, Placed, Total;
      UpdateFacts(flat, key);
      var e := Lookup(key);
      if e.None? {
        return None;
      }
      if Expired(e.value, t1) {
        Purge(key);
        return None;
      }
      if e.value.expireAt == 0 {
        return Some(-1);
      }
      return Some(Wrap64(e.value.expireAt - t2));
    }

    method Flush()
      requires Valid()
      modifies this
      ensures Valid() && |shards| == old(|shards|) && Drift() == 0
      ensures flat == map[]
    {
      ghost var n := |shards|;
      for i := 0 to |shards|
        invariant |shards| == n && Placed(slot, shards)
        invariant forall j :: 0 <= j < i ==> shards[j] == map[]
      {
        shards := shards[i := map[]];
      }
      EmptyTotal(shards);
      count := 0;
      exp := [];
      flat := map[];
    }

    method GetSet(key: Bytes, val: Bytes, t: int) returns (r: Option<Bytes>)
      requires Valid()
      modifies this`shards, this`count, this`flat
      ensures Valid() && |shards| == old(|shards|) && Drift() == old(Drift())
      ensures flat == old(flat)[key := Entry(val, 0)]
      ensures r == match Live(old(flat), key, t) case None => None case Some(e) => Some(e.val)
    {
      hide Holds, Placed, Total;
      UpdateFacts(flat, key);
      var e := Lookup(key);
      if e.None? || Expired(e.value, t) {
        if e.Some? {
          Purge(key);
        }
        Put(key, Entry(val, 0));
        count := count + 1;
        return None;
      }
      Put(key, Entry(val, 0));
      return Some(e.value.val);
    }

    /** The first loop of SetNXMulti: stops at a live key, purging the expired
        ones on the way. */
    method NoneLive(pairs: seq<Pair>, ts: seq<int>) returns (ok: bool)
      requires Valid() && |ts| == |pairs| && Monotone(ts)
      modifies this`shards, this`count, this`flat
      ensures Valid() && |shards| == old(|shards|) && Drift() == old(Drift())
      ensures ok <==> !AnyLive(old(flat), pairs, ts)
      ensures ok ==> forall j :: 0 <= j < |pairs| ==> pairs[j].0 !in flat
      ensures forall k :: k in flat ==> k in old(flat) && flat[k] == old(flat)[k]
      ensures forall k :: k in old(flat) && k !in flat ==>
                k in KeySet(pairs) && Expired(old(flat)[k], ts[|ts| - 1])
    {
      hide Holds, Placed, Total;
      for i := 0 to |pairs|
        invariant Valid() && |shards| == old(|shards|) && Drift() == old(Drift())
        invariant forall k :: k in flat ==> k in old(flat) && flat[k] == old(flat)[k]
        invariant forall k :: k in old(flat) && k !in flat ==>
                    k in KeySet(pairs) && i > 0 && Expired(old(flat)[k], ts[i - 1])
        invariant forall j :: 0 <= j < i ==> pairs[j].0 !in flat && Live(old(flat), pairs[j].0, ts[j]).None?
      {
        var e := Lookup(pairs[i].0);
        if e.Some? {
          if Expired(e.value, ts[i]) {
            assert pairs[i] in pairs;
            Purge(pairs[i].0);
          } else {
            return false;
          }
        }
      }
      return true;
    }

    /** The second loop of SetNXMulti, which counts every pair as a new key. */
    method WriteAll(pairs: seq<Pair>)
      requires Valid() && flat.Keys !! KeySet(pairs)
      modifies this`shards, this`count, this`flat
      ensures Valid() && |shards| == old(|shards|)
      ensures flat == PutAll(old(flat), pairs)
      ensures Drift() == old(Drift()) + |pairs| - |KeySet(pairs)|
    {
      assert KeySet(pairs[..0]) == {} && PutAll(flat, pairs[..0]) == flat;
      hide Holds, Placed, Total, Ordered, KeySet, PutAll;
      for i := 0 to |pairs|
        invariant Valid() && |shards| == old(|shards|)
        invariant flat == PutAll(old(flat), pairs[..i])
        invariant Drift() == old(Drift()) + i - |KeySet(pairs[..i])|
      {
        NextPair(old(flat), pairs, i);
        Put(pairs[i].0, Entry(pairs[i].1, 0));
        count := count + 1;
      }
      assert pairs[..|pairs|] == pairs;
    }

    /** All pairs or none. A repeated key is counted once per pair, so success
        moves the count ahead of the maps by the number of repetitions. */
    method SetNXMulti(pairs: seq<Pair>, ts: seq<int>) returns (ok: bool)
      requires Valid() && |ts| == |pairs| && Monotone(ts)
      modifies this`shards, this`count, this`flat
      ensures Valid() && |shards| == old(|shards|)
      ensures ok <==> !AnyLive(old(flat), pairs, ts)
      ensures ok ==> flat == PutAll(old(flat), pairs)
      ensures ok ==> Drift() == old(Drift()) + |pairs| - |KeySet(pairs)|
      ensures !ok ==> Drift() == old(Drift()) && SameView(flat, old(flat), ts[|ts| - 1])
    {
      hide Sharded, Covered, Total, Ordered;
      if |pairs| == 0 {
        return true;
      }
      ok := NoneLive(pairs, ts);
      if !ok {
        return;
      }
      PutAllCovers(old(flat), flat, pairs);
      WriteAll(pairs);
    }

    method ExpireAt(key: Bytes, unixSeconds: int, t1: int, t2: int) returns (r: bool)
      requires Valid() && 0 <= t2
      modifies this
      ensures Valid() && |shards| == old(|shards|) && Drift() == old(Drift())
      ensures var res := ExpireAtKey(Live(old(flat), key, t1), Wrap64(unixSeconds * SECOND), t2);
              flat == Update(old(flat), key, res.0) && r == res.1
    {
      r := ExpireAtDeadline(key, Wrap64(unixSeconds * SECOND), t1, t2);
    }

    method ExpireAtMs(key: Bytes, unixMs: int, t1: int, t2: int) returns (r: bool)
      requires Valid() && 0 <= t2
      modifies this
      ensures Valid() && |shards| == old(|shards|) && Drift() == old(Drift())
      ensures var res := ExpireAtKey(Live(old(flat), key, t1), Wrap64(unixMs * MILLISECOND), t2);
              flat == Update(old(flat), key, res.0) && r == res.1
    {
      r := ExpireAtDeadline(key, Wrap64(unixMs * MILLISECOND), t1, t2);
    }

    /** The body that ExpireAt and ExpireAtMs share. */
    method ExpireAtDeadline(key: Bytes, dl: int, t1: int, t2: int) returns (r: bool)
      requires Valid() && 0 <= t2
      modifies this
      ensures Valid() && |shards| == old(|shards|) && Drift() == old(Drift())
      ensures (flat, r) == (Update(old(flat), key, ExpireAtKey(Live(old(flat), key, t1), dl, t2).0),
                              ExpireAtKey(Live(old(flat), key, t1), dl, t2).1)
    {
      hide Holds, Placed, Total;
      UpdateFacts(flat, key);
      var e := Lookup(key);
      if e.None? || Expired(e.value, t1) {
        if e.Some? {
          Purge(key);
        }
        return false;
      }
      if dl <= t2 {
        Purge(key);
        return true;
      }
      Put(key, Entry(e.value.val, dl));
      PushExpiry(key, dl);
      CoveredPush(old(flat), old(exp), exp, key, Entry(e.value.val, dl));
      return true;
    }

    method Persist(key: Bytes, t: int) returns (r: bool)
      requires Valid()
      modifies this`shards, this`count, this`flat
      ensures Valid() && |shards| == old(|shards|) && Drift() == old(Drift())
      ensures (flat, r) == (Update(old(flat), key, PersistKey(Live(old(flat), key, t)).0),
                              PersistKey(Live(old(flat), key, t)).1)
    {
      hide Holds, Placed, Total;
      UpdateFacts(flat, key);
      var e := Lookup(key);
      if e.None? || Expired(e.value, t) {
        if e.Some? {
          Purge(key);
        }
        return false;
      }
      if e.value.expireAt == 0 {
        return false;
      }
      Put(key, Entry(e.value.val, 0));
      return true;
    }

    /** The first half of the sweep: take every due entry off the heap. */
    method PopDue(now: int) returns (due: seq<ExpEntry>)
      requires Valid()
      modifies this`exp
      ensures Ordered(exp)
      ensures forall e :: e in old(exp) <==> e in due || e in exp
      ensures forall e :: e in due ==> e.deadline <= now
      ensures forall e :: e in exp ==> e.deadline > now
    {
      hide Sharded, Ordered, Covered;
      due := [];
      while |exp| > 0 && exp[0].deadline <= now
        invariant Ordered(exp) && multiset(exp) + multiset(due) == multiset(old(exp))
        invariant forall e :: e in due ==> e.deadline <= now
        decreases |exp|
      {
        var x, h := ExpHeap.Pop(exp);
        assert |multiset(exp)| == |exp| && |multiset(h)| == |h|;
        exp := h;
        due := due + [x];
      }
      forall e ensures e in old(exp) <==> e in due || e in exp {
        assert e in multiset(old(exp)) <==> e in multiset(exp) || e in multiset(due);
      }
      forall e | e in exp ensures e.deadline > now {
        var j :| 0 <= j < |exp| && exp[j] == e;
        RootIsLeast(exp, j);
      }
    }

    /** The active sweep: exactly the entries that have expired are gone. */
    method Sweep(now: int)
      requires Valid()
      modifies this
      ensures Valid() && |shards| == old(|shards|) && Drift() == old(Drift())
      ensures flat == View(old(flat), now)
    {
      hide Holds, Placed, Total, Ordered, OrderedBut;
      var due := PopDue(now);
      ghost var left := exp;
      for i := 0 to |due|
        invariant exp == left
        invariant Sharded() && |shards| == old(|shards|) && Drift() == old(Drift())
        invariant forall k :: k in flat ==> k in old(flat) && flat[k] == old(flat)[k]
        invariant forall k :: k in old(flat) && k !in flat ==> Expired(old(flat)[k], now)
        invariant forall j :: 0 <= j < i && due[j].key in flat ==> flat[due[j].key].expireAt != due[j].deadline
      {
        var cur := Lookup(due[i].key);
        assert due[i] in due;
        if cur.Some? && cur.value.expireAt == due[i].deadline {
          Purge(due[i].key);
        }
      }
      forall k | k in old(flat) && Expired(old(flat)[k], now) ensures k !in flat {
        var e := ExpEntry(old(flat)[k].expireAt, k);
        assert e in old(exp) && e !in exp;
        var j :| 0 <= j < |due| && due[j] == e;
      }
      assert flat == View(old(flat), now);
    }

    /** The loop over one shard's map that Keys and Scan share. `at` is the clock
        reading at which the loop comes by a key. */
    method ScanShard(i: nat, pattern: Bytes, at: Bytes -> int) returns (keys: seq<Bytes>)
      requires Valid() && i < |shards|
      ensures ScanBatch(slot, flat, at, i, pattern, keys)
    {
      keys := [];
      var todo := shards[i].Keys;
      while todo != {}
        invariant todo <= shards[i].Keys && NoDup(keys)
        invariant forall k :: k in keys <==> k in shards[i] && k !in todo && Shown(flat, at, pattern, k)
        decreases |todo|
      {
        var k :| k in todo;
        todo := todo - {k};
        if !Expired(shards[i][k], at(k)) {
          var hit := true;
          if pattern != "" {
            hit := Glob.GlobMatch(pattern, k);
          }
          if hit {
            keys := keys + [k];
          }
        }
      }
    }

    /** Every key that the pattern selects and that is live when the loop comes by,
        once. */
    method Keys(pattern: Bytes, at: Bytes -> int) returns (keys: seq<Bytes>)
      requires Valid()
      ensures NoDup(keys)
      ensures forall k :: k in keys <==> Shown(flat, at, pattern, k)
      ensures forall k :: k in keys ==> k in flat && (pattern == "" || Glob.Accepts(pattern, k))
      ensures forall k :: k in flat && flat[k].expireAt == 0 && (pattern == "" || Glob.Accepts(pattern, k)) ==>
                k in keys
    {
      keys := [];
      for i := 0 to |shards|
        invariant NoDup(keys)
        invariant forall k :: k in keys <==> slot(k) < i && Shown(flat, at, pattern, k)
      {
        var batch := ScanShard(i, pattern, at);
        NoDupConcat(keys, batch);
        keys := keys + batch;
      }
    }

    /** One call of the cursor iteration: one shard, and the cursor of the next.
        The count is a hint that changes nothing. */
    method Scan(cursor: int, count: int, pattern: Bytes, at: Bytes -> int) returns (next: int, keys: seq<Bytes>)
      requires Valid()
      ensures ScanBatch(slot, flat, at, ScanIndex(|shards|, cursor), pattern, keys)
      ensures next == NextCursor(|shards|, cursor)
    {
      var start := cursor;
      assert slot([]) < |shards|;
      if start <= 0 || start > |shards| {
        start := 1;
      }
      var idx := start - 1;
      keys := ScanShard(idx, pattern, at);
      if idx + 1 >= |shards| {
        next := 0;
      } else {
        next := idx + 2;
      }
    }
  }

  // ------------------------------------------------------- cursor iteration

  predicate Shown(m: Flat, at: Bytes -> int, pattern: Bytes, k: Bytes) {
    Live(m, k, at(k)).Some? && (pattern == "" || Glob.Accepts(pattern, k))
  }

  /** The batch is the selection from shard i, each key once, in any order. */
  ghost predicate ScanBatch(slot: Bytes -> nat, m: Flat, at: Bytes -> int, i: nat, pattern: Bytes, keys: seq<Bytes>) {
    NoDup(keys) && forall k :: k in keys <==> slot(k) == i && Shown(m, at, pattern, k)
  }

  function ScanIndex(n: nat, cursor: int): nat {
    if cursor <= 0 || cursor > n then 0 else cursor - 1
  }

  function NextCursor(n: nat, cursor: int): int {
    if ScanIndex(n, cursor) + 1 >= n then 0 else ScanIndex(n, cursor) + 2
  }

  /** The cursor that call j of an iteration passes in, feeding back each one. */
  function CursorAt(n: nat, j: nat): int {
    if j == 0 then 0 else NextCursor(n, CursorAt(n, j - 1))
  }

  /** An iteration walks the shards in order and ends after as many calls as
      there are shards. */
  lemma ScanVisits(n: nat, j: nat)
    requires j < n
    ensures ScanIndex(n, CursorAt(n, j)) == j
    ensures CursorAt(n, j) == 0 <==> j == 0
    ensures CursorAt(n, n) == 0
  {
    ScanVisitsAt(n, j);
    ScanVisitsAt(n, n - 1);
  }

  lemma {:induction false} ScanVisitsAt(n: nat, j: nat)
    requires j < n
    ensures ScanIndex(n, CursorAt(n, j)) == j && (CursorAt(n, j) == 0 <==> j == 0)
  {
    if j > 0 { ScanVisitsAt(n, j - 1); }
  }

  function Concat(batches: seq<seq<Bytes>>): seq<Bytes> {
    if batches == [] then [] else Concat(batches[..|batches| - 1]) + batches[|batches| - 1]
  }

  /** The store during one call, and when the call comes by each key. */
  datatype Moment = Moment(contents: Flat, at: Bytes -> int)

  /** A whole iteration over n shards with the store in an arbitrary state at
      each call: no key comes back twice, each key that comes back was live when
      its shard was read, and a selected key that is live at every call comes
      back. */
  lemma ScanGuarantee(slot: Bytes -> nat, n: nat, pattern: Bytes, ms: seq<Moment>, batches: seq<seq<Bytes>>)
    requires n > 0 && |ms| == n && |batches| == n && forall k :: slot(k) < n
    requires forall j :: 0 <= j < n ==>
               ScanBatch(slot, ms[j].contents, ms[j].at, ScanIndex(n, CursorAt(n, j)), pattern, batches[j])
    ensures NoDup(Concat(batches))
    ensures forall k :: k in Concat(batches) <==>
              Shown(ms[slot(k)].contents, ms[slot(k)].at, pattern, k)
    ensures forall k :: (forall j :: 0 <= j < n ==> Shown(ms[j].contents, ms[j].at, pattern, k)) ==>
              k in Concat(batches)
  {
    forall j | 0 <= j < n
      ensures ScanBatch(slot, ms[j].contents, ms[j].at, j, pattern, batches[j])
    {
      ScanVisits(n, j);
    }
    ConcatBatches(slot, pattern, ms, batches);
  }

  lemma {:induction false} ConcatBatches(slot: Bytes -> nat, pattern: Bytes, ms: seq<Moment>, batches: seq<seq<Bytes>>)
    requires |batches| <= |ms|
    requires forall j :: 0 <= j < |batches| ==>
               ScanBatch(slot, ms[j].contents, ms[j].at, j, pattern, batches[j])
    ensures NoDup(Concat(batches))
    ensures forall k :: k in Concat(batches) <==>
              slot(k) < |batches| && Shown(ms[slot(k)].contents, ms[slot(k)].at, pattern, k)
  {
    if batches != [] {
      var n := |batches| - 1;
      ConcatBatches(slot, pattern, ms, batches[..n]);
      var front, last := Concat(batches[..n]), batches[n];
      assert ScanBatch(slot, ms[n].contents, ms[n].at, n, pattern, last);
      NoDupConcat(front, last);
    }
  }
}
