/** The reference store: one flat map from key to (value, deadline), looked at
    through the clock. Every store operation on a single key is a function of
    the entry that is live under that key. */
module TimedMap {
  import opened Basics

  /** expireAt is a Unix time in nanoseconds; 0 means no expiry. */
  datatype Entry = Entry(val: Bytes, expireAt: int)

  type Flat = map<Bytes, Entry>

  const SECOND: int := 1_000_000_000
  const MILLISECOND: int := 1_000_000

  predicate Expired(e: Entry, t: int) {
    e.expireAt != 0 && t >= e.expireAt
  }

  /** The entry a client sees under k at time t. */
  function Live(m: Flat, k: Bytes, t: int): (o: Option<Entry>) {
    if k in m && !Expired(m[k], t) then Some(m[k]) else None
  }

  /** Everything a client sees at time t. */
  function View(m: Flat, t: int): (v: Flat) {
    map k | k in m && !Expired(m[k], t) :: m[k]
  }

  /** No client can tell the two maps apart at time t. */
  ghost predicate SameView(a: Flat, b: Flat, t: int) {
    forall k :: Live(a, k, t) == Live(b, k, t)
  }

  function Update(m: Flat, k: Bytes, o: Option<Entry>): (r: Flat) {
    match o
    case None => m - {k}
    case Some(e) => m[k := e]
  }

  lemma LiveUpdate(m: Flat, k: Bytes, o: Option<Entry>, t: int, j: Bytes)
    ensures Live(Update(m, k, o), j, t) ==
            if j != k then Live(m, j, t)
            else if o.Some? && !Expired(o.value, t) then o else None
  {
  }

  /** Rewriting an entry with itself, or removing first what is written next,
      changes nothing. */
  lemma UpdateFacts(m: Flat, k: Bytes)
    ensures k in m ==> m[k := m[k]] == m
    ensures k !in m ==> m - {k} == m
    ensures forall e {:trigger m[k := e]} :: (m - {k})[k := e] == m[k := e]
  {
  }

  lemma SameViewIffViews(a: Flat, b: Flat, t: int)
    ensures SameView(a, b, t) <==> View(a, t) == View(b, t)
  {
    if SameView(a, b, t) {
      forall k ensures (k in View(a, t) <==> k in View(b, t)) && (k in View(a, t) ==> View(a, t)[k] == View(b, t)[k]) {
        assert Live(a, k, t) == Live(b, k, t);
      }
    }
    if View(a, t) == View(b, t) {
      forall k ensures Live(a, k, t) == Live(b, k, t) {
        assert k in View(a, t) <==> k in View(b, t);
        if k in View(a, t) { assert View(a, t)[k] == View(b, t)[k]; }
      }
    }
  }

  /** Two stores that look alike go on looking alike as the clock advances. */
  lemma SameViewLater(a: Flat, b: Flat, t: int, u: int)
    requires SameView(a, b, t) && t <= u
    ensures SameView(a, b, u)
  {
    forall k ensures Live(a, k, u) == Live(b, k, u) {
      assert Live(a, k, t) == Live(b, k, t);
    }
  }

  lemma SameViewTrans(a: Flat, b: Flat, c: Flat, t: int)
    requires SameView(a, b, t) && SameView(b, c, t)
    ensures SameView(a, c, t)
  {
    forall k ensures Live(a, k, t) == Live(c, k, t) { assert Live(b, k, t) == Live(c, k, t); }
  }

  lemma SameViewUpdate(a: Flat, b: Flat, k: Bytes, o: Option<Entry>, t: int)
    requires SameView(a, b, t)
    ensures SameView(Update(a, k, o), Update(b, k, o), t)
  {
    forall j ensures Live(Update(a, k, o), j, t) == Live(Update(b, k, o), j, t) {
      LiveUpdate(a, k, o, t, j);
      LiveUpdate(b, k, o, t, j);
      assert Live(a, j, t) == Live(b, j, t);
    }
  }

  /** The first n readings of a clock. */
  function Sample(clock: nat -> int, n: nat): (ts: seq<int>)
    ensures |ts| == n
  {
    seq(n, i requires 0 <= i => clock(i))
  }

  // ------------------------------------------------- operations on one key
  // `cur` is the entry live under the key, the first component of a result the
  // entry to leave there.

  datatype SetMode = SetAlways | SetNX | SetXX

  /** The deadline that a relative ttl read off the clock at t turns into. */
  function Deadline(ttl: int, t: int): int {
    if ttl > 0 then Wrap64(t + ttl) else 0
  }

  function SetKey(cur: Option<Entry>, val: Bytes, ttl: int, mode: SetMode, t: int): (Option<Entry>, bool) {
    if (mode.SetNX? && cur.Some?) || (mode.SetXX? && cur.None?) then (cur, false)
    else (Some(Entry(val, Deadline(ttl, t))), true)
  }

  /** A value that is not an integer is left alone; a success drops the TTL. */
  function IncrKey(cur: Option<Entry>, delta: int): (Option<Entry>, Option<int>) {
    var start := if cur.None? then Some(0) else ParseInt(cur.value.val);
    if start.None? then (cur, None)
    else
      var n := Wrap64(start.value + delta);
      (Some(Entry(FormatInt(n), 0)), Some(n))
  }

  function AppendKey(cur: Option<Entry>, suffix: Bytes, maxLen: int): (Option<Entry>, Option<int>) {
    var was := if cur.None? then Entry([], 0) else cur.value;
    if |was.val| + |suffix| > maxLen then (cur, None)
    else (Some(Entry(was.val + suffix, was.expireAt)), Some(|was.val| + |suffix|))
  }

  function ExpireKey(cur: Option<Entry>, ttl: int, t: int): (Option<Entry>, bool) {
    if cur.None? then (None, false)
    else if ttl <= 0 then (None, true)
    else (Some(Entry(cur.value.val, Wrap64(t + ttl))), true)
  }

  /** The absolute form; a deadline that has passed at t deletes the key. */
  function ExpireAtKey(cur: Option<Entry>, deadline: int, t: int): (Option<Entry>, bool) {
    if cur.None? then (None, false)
    else if deadline <= t then (None, true)
    else (Some(Entry(cur.value.val, deadline)), true)
  }

  function PersistKey(cur: Option<Entry>): (Option<Entry>, bool) {
    if cur.None? || cur.value.expireAt == 0 then (cur, false)
    else (Some(Entry(cur.value.val, 0)), true)
  }

  // ----------------------------------------------- operations on many keys

  function DelAll(m: Flat, keys: seq<Bytes>): (r: Flat) {
    if keys == [] then m else DelAll(m, keys[..|keys| - 1]) - {keys[|keys| - 1]}
  }

  /** How many of the keys a DEL finds live, reading the clock once per key. A
      key that the same call removed earlier does not count again. */
  function DelCount(m: Flat, keys: seq<Bytes>, ts: seq<int>): (n: nat)
    requires |keys| <= |ts|
  {
    if keys == [] then 0
    else
      var last := |keys| - 1;
      DelCount(m, keys[..last], ts)
        + if Live(DelAll(m, keys[..last]), keys[last], ts[last]).Some? then 1 else 0
  }

  type Pair = (Bytes, Bytes)

  /** All pairs written without expiry; the last pair wins for a repeated key. */
  function PutAll(m: Flat, pairs: seq<Pair>): (r: Flat) {
    if pairs == [] then m
    else
      var last := pairs[|pairs| - 1];
      PutAll(m, pairs[..|pairs| - 1])[last.0 := Entry(last.1, 0)]
  }

  ghost predicate AnyLive(m: Flat, pairs: seq<Pair>, ts: seq<int>)
    requires |pairs| <= |ts|
  {
    exists i :: 0 <= i < |pairs| && Live(m, pairs[i].0, ts[i]).Some?
  }

  /** The index of the last pair that names k. */
  function LastPair(pairs: seq<Pair>, k: Bytes): (i: int)
    ensures -1 <= i < |pairs|
    ensures i >= 0 ==> pairs[i].0 == k
    ensures forall j :: i < j < |pairs| ==> pairs[j].0 != k
  {
    if pairs == [] then -1
    else if pairs[|pairs| - 1].0 == k then |pairs| - 1
    else LastPair(pairs[..|pairs| - 1], k)
  }

  lemma {:induction false} PutAllAt(m: Flat, pairs: seq<Pair>, k: Bytes)
    ensures var i := LastPair(pairs, k);
            if i < 0 then (k in PutAll(m, pairs) <==> k in m) && (k in m ==> PutAll(m, pairs)[k] == m[k])
            else k in PutAll(m, pairs) && PutAll(m, pairs)[k] == Entry(pairs[i].1, 0)
  {
    if pairs != [] { PutAllAt(m, pairs[..|pairs| - 1], k); }
  }

  lemma LivePutAll(m: Flat, pairs: seq<Pair>, k: Bytes, t: int)
    ensures Live(PutAll(m, pairs), k, t) ==
            var i := LastPair(pairs, k);
            if i < 0 then Live(m, k, t) else Some(Entry(pairs[i].1, 0))
  {
    PutAllAt(m, pairs, k);
  }

  lemma {:induction false} LiveDelAll(m: Flat, keys: seq<Bytes>, k: Bytes, t: int)
    ensures Live(DelAll(m, keys), k, t) == if k in keys then None else Live(m, k, t)
  {
    if keys != [] {
      var n := |keys| - 1;
      LiveDelAll(m, keys[..n], k, t);
      assert keys == keys[..n] + [keys[n]];
    }
  }

  /** A DEL that counts no key removes nothing that is still visible. */
  lemma {:induction false} DelCountZero(m: Flat, keys: seq<Bytes>, ts: seq<int>, t: int)
    requires |keys| <= |ts|
    requires forall i :: 0 <= i < |keys| ==> ts[i] <= t
    requires DelCount(m, keys, ts) == 0
    ensures SameView(DelAll(m, keys), m, t)
  {
    if keys != [] {
      var n := |keys| - 1;
      DelCountZero(m, keys[..n], ts, t);
      forall k ensures Live(DelAll(m, keys), k, t) == Live(m, k, t) {
        assert Live(DelAll(m, keys[..n]), k, t) == Live(m, k, t);
        assert Live(DelAll(m, keys[..n]), keys[n], ts[n]).None?;
      }
    }
  }
}
