/** The observable state machine of Camel's SimpleLRUCache, as its test suite pins it down.

    The cache is a map with a maximum size, a queue of change records (one record, the written
    key, per write) and the log of values handed to the eviction consumer. A record is *current*
    when its key is live and no later record names the same key. Eviction takes records from the
    head of the queue, dropping stale ones, until it meets the first current record: that key is
    the victim. When the queue grows past the threshold (MINIMUM_QUEUE_SIZE), it is compacted to
    one record per live key, keeping the order of their last records.

    `history` is a ghost-like record of every write ever made; it is not part of the cache, it
    only lets the contracts say "the key whose last write is oldest". */
module LruModel {
  import opened Wrappers

  datatype CacheState<K, V> = CacheState(
    entries: map<K, V>,   // the live mappings
    changes: seq<K>,      // the change queue; getQueueSize() is its length
    evicted: seq<V>,      // every value passed to the eviction consumer, in order
    history: seq<K>)      // every write ever made, in order

  /** A new cache: no entries, an empty queue, nothing evicted, nothing written. */
  function Empty<K, V>(): (s: CacheState<K, V>)
    ensures forall maxSize, threshold :: Inv(s, maxSize, threshold)
  {
    CacheState(map[], [], [], [])
  }

  function Max(a: nat, b: nat): nat { if a < b then b else a }

  function Lookup<K(==), V>(m: map<K, V>, k: K): Option<V> {
    if k in m then Some(m[k]) else None
  }

  // ---------------------------------------------------------------------------------------
  // Last records

  /** Position of the last record of `k` in `q`, or -1 when `q` has none. */
  function LastIndex<K(==)>(q: seq<K>, k: K): (i: int)
    ensures -1 <= i < |q|
    ensures i == -1 <==> k !in q
    ensures 0 <= i ==> q[i] == k && k !in q[i + 1..]
  {
    if q == [] then -1
    else
      var init := q[..|q| - 1];
      assert q == init + [q[|q| - 1]];
      if q[|q| - 1] == k then |q| - 1
      else
        var j := LastIndex(init, k);
        assert 0 <= j ==> q[j + 1..] == init[j + 1..] + [q[|q| - 1]];
        j
  }

  /** A record `k` at `i` with no later record of `k` is the last one. */
  lemma LastIndexUnique<K>(q: seq<K>, k: K, i: int)
    requires 0 <= i < |q| && q[i] == k && k !in q[i + 1..]
    ensures LastIndex(q, k) == i
  {
  }

  lemma LastIndexAppend<K>(q: seq<K>, x: K, k: K)
    ensures LastIndex(q + [x], k) == if k == x then |q| else LastIndex(q, k)
  {
    if k == x {
      LastIndexUnique(q + [x], k, |q|);
    } else {
      assert (q + [x])[..|q|] == q;
    }
  }

  lemma LastIndexTail<K>(q: seq<K>, k: K)
    requires q != []
    ensures LastIndex(q, k) == if k in q[1..] then 1 + LastIndex(q[1..], k)
                               else if q[0] == k then 0 else -1
  {
    if k in q[1..] {
      var j := LastIndex(q[1..], k);
      assert q[1 + j + 1..] == q[1..][j + 1..];
      LastIndexUnique(q, k, 1 + j);
    } else if q[0] == k {
      LastIndexUnique(q, k, 0);
    } else {
      assert q == [q[0]] + q[1..];
    }
  }

  lemma LastIndexDrop<K>(q: seq<K>, n: nat, k: K)
    requires n <= |q| && LastIndex(q, k) >= n
    ensures LastIndex(q[n..], k) == LastIndex(q, k) - n
  {
    var i := LastIndex(q, k);
    assert q[n..][i - n + 1..] == q[i + 1..];
    LastIndexUnique(q[n..], k, i - n);
  }

  /** Distinct keys never share a last record. */
  lemma LastIndexDistinct<K>(q: seq<K>, a: K, b: K)
    requires a in q && b in q && a != b
    ensures LastIndex(q, a) != LastIndex(q, b)
  {
  }

  // ---------------------------------------------------------------------------------------
  // The queue invariant

  /** Every live key has a record in the queue, and the last records of live keys lie in the
      queue in the same order as their last writes lie in the history. */
  ghost predicate Coherent<K, V>(s: CacheState<K, V>) {
    && (forall k :: k in s.entries ==> k in s.changes)
    && (forall a, b :: a in s.entries && b in s.entries ==>
          (LastIndex(s.changes, a) < LastIndex(s.changes, b) <==> LastIndex(s.history, a) < LastIndex(s.history, b)))
  }

  /** What every reachable state of a cache with the given maximum size and queue threshold keeps. */
  ghost predicate Inv<K, V>(s: CacheState<K, V>, maxSize: nat, threshold: nat) {
    && |s.entries| <= maxSize
    && |s.changes| <= Max(threshold, maxSize)
    && Coherent(s)
  }

  // ---------------------------------------------------------------------------------------
  // Eviction

  /** The record at `j` is current: its key is live and no later record names it. */
  predicate IsCurrent<K(==)>(q: seq<K>, j: nat, live: set<K>)
    requires j < |q|
  {
    q[j] in live && q[j] !in q[j + 1..]
  }

  /** The first current record of `q`; every record before it is stale. `|q|` when there is none. */
  function FirstCurrent<K(==)>(q: seq<K>, live: set<K>): (i: nat)
    ensures i <= |q|
    ensures i < |q| ==> IsCurrent(q, i, live)
    ensures forall j :: 0 <= j < i ==> !IsCurrent(q, j, live)
  {
    if q == [] then 0
    else if IsCurrent(q, 0, live) then 0
    else
      var i := 1 + FirstCurrent(q[1..], live);
      assert forall j :: 1 <= j <= i && j < |q| ==> (IsCurrent(q, j, live) <==> IsCurrent(q[1..], j - 1, live)) by {
        forall j | 1 <= j <= i && j < |q| ensures q[j + 1..] == q[1..][j..] { }
      }
      i
  }

  /** Take records from the head of the queue up to the first current one; remove its key and
      hand its value to the consumer. The stale records taken on the way are dropped. */
  function Evict<K(==), V>(s: CacheState<K, V>): CacheState<K, V> {
    var i := FirstCurrent(s.changes, s.entries.Keys);
    if i < |s.changes| then
      var victim := s.changes[i];
      s.(entries := s.entries - {victim}, changes := s.changes[i + 1..], evicted := s.evicted + [s.entries[victim]])
    else
      s.(changes := [])
  }

  lemma EvictAt<K, V>(s: CacheState<K, V>, i: nat)
    requires i == FirstCurrent(s.changes, s.entries.Keys) && i < |s.changes|
    ensures s.changes[i] in s.entries
    ensures Evict(s) == s.(entries := s.entries - {s.changes[i]}, changes := s.changes[i + 1..],
                           evicted := s.evicted + [s.entries[s.changes[i]]])
  {
  }

  /** The victim of `Evict` is the live key whose last record is oldest; exactly its value goes to
      the consumer, and the queue keeps only the records after the victim's. */
  lemma EvictRemovesEldest<K, V>(s: CacheState<K, V>) returns (victim: K)
    requires s.entries != map[]
    requires forall k :: k in s.entries ==> k in s.changes
    ensures victim in s.entries
    ensures forall w :: w in s.entries && w != victim ==>
              LastIndex(s.changes, victim) < LastIndex(s.changes, w)
    ensures Evict(s).entries == s.entries - {victim}
    ensures Evict(s).changes == s.changes[LastIndex(s.changes, victim) + 1..]
    ensures Evict(s).evicted == s.evicted + [s.entries[victim]]
    ensures Evict(s).history == s.history
  {
    var q := s.changes;
    var some :| some in s.entries;
    FirstCurrentIsEldest(q, s.entries.Keys, some);
    var i := FirstCurrent(q, s.entries.Keys);
    EvictAt(s, i);
    victim := q[i];
  }

  /** When some live key has a record, the first current record exists, it is the last record of
      its key, and every other live key has a later last record. */
  lemma FirstCurrentIsEldest<K>(q: seq<K>, live: set<K>, some: K)
    requires some in live && some in q
    ensures FirstCurrent(q, live) < |q|
    ensures LastIndex(q, q[FirstCurrent(q, live)]) == FirstCurrent(q, live)
    ensures forall w :: w in live && w in q && w != q[FirstCurrent(q, live)] ==>
              FirstCurrent(q, live) < LastIndex(q, w)
  {
    var i := FirstCurrent(q, live);
    assert IsCurrent(q, LastIndex(q, some), live);
    LastIndexUnique(q, q[i], i);
    forall w | w in live && w in q && w != q[i]
      ensures i < LastIndex(q, w)
    {
      assert IsCurrent(q, LastIndex(q, w), live);
    }
  }

  // ---------------------------------------------------------------------------------------
  // Compaction

  /** Keep, for every live key, only its last record. */
  function Compact<K(==)>(q: seq<K>, live: set<K>): seq<K> {
    if q == [] then []
    else (if q[0] in live && q[0] !in q[1..] then [q[0]] else []) + Compact(q[1..], live)
  }

  function Elems<K(==)>(q: seq<K>): set<K> { set x | x in q }

  /** Compaction keeps exactly the live keys that have a record, and never lengthens the queue. */
  lemma {:induction false} CompactKeeps<K>(q: seq<K>, live: set<K>)
    ensures forall x :: x in Compact(q, live) <==> x in live && x in q
    ensures |Compact(q, live)| <= |q|
  {
    if q != [] {
      CompactKeeps(q[1..], live);
      assert q == [q[0]] + q[1..];
    }
  }

  lemma ElemsCons<K>(q: seq<K>)
    requires q != []
    ensures Elems(q) == {q[0]} + Elems(q[1..])
  {
    assert q == [q[0]] + q[1..];
  }

  /** Compaction keeps one record per live key that has one. */
  lemma {:induction false} CompactSize<K>(q: seq<K>, live: set<K>)
    ensures |Compact(q, live)| == |live * Elems(q)|
  {
    if q == [] {
      assert live * Elems(q) == {};
    } else {
      var x, rest := q[0], q[1..];
      CompactSize(rest, live);
      ElemsCons(q);
      if x in live && x !in rest {
        assert live * Elems(q) == (live * Elems(rest)) + {x};
      } else {
        assert live * Elems(q) == live * Elems(rest);
      }
    }
  }

  /** Compaction keeps the order of the last records of live keys. */
  lemma {:induction false} CompactKeepsOrder<K>(q: seq<K>, live: set<K>, a: K, b: K)
    requires a in live && b in live && a in q && b in q
    requires LastIndex(q, a) < LastIndex(q, b)
    ensures LastIndex(Compact(q, live), a) < LastIndex(Compact(q, live), b)
  {
    var x, rest := q[0], q[1..];
    var c, c' := Compact(q, live), Compact(rest, live);
    assert q == [x] + rest;
    CompactKeeps(rest, live);
    LastIndexTail(q, a);
    LastIndexTail(q, b);
    if x in live && x !in rest {
      assert c == [x] + c';
      assert c[1..] == c';
      LastIndexTail(c, a);
      LastIndexTail(c, b);
      if a != x {
        CompactKeepsOrder(rest, live, a, b);
      }
    } else {
      assert c == c';
      CompactKeepsOrder(rest, live, a, b);
    }
  }

  lemma CompactCoherent<K, V>(s: CacheState<K, V>)
    requires Coherent(s)
    ensures Coherent(s.(changes := Compact(s.changes, s.entries.Keys)))
    ensures |Compact(s.changes, s.entries.Keys)| == |s.entries|
  {
    var entries, changes := s.entries, s.changes;
    var c := Compact(changes, entries.Keys);
    CompactKeeps(changes, entries.Keys);
    CompactSize(changes, entries.Keys);
    assert entries.Keys * Elems(changes) == entries.Keys;
    forall a, b | a in entries && b in entries
      ensures LastIndex(c, a) < LastIndex(c, b) <==> LastIndex(changes, a) < LastIndex(changes, b)
    {
      if a != b {
        LastIndexDistinct(changes, a, b);
        if LastIndex(changes, a) < LastIndex(changes, b) {
          CompactKeepsOrder(changes, entries.Keys, a, b);
        } else {
          CompactKeepsOrder(changes, entries.Keys, b, a);
        }
      }
    }
  }

  // ---------------------------------------------------------------------------------------
  // Operations on the state

  /** Store `v` under `k` and append a record of the write. */
  function Stored<K(==), V>(s: CacheState<K, V>, k: K, v: V): CacheState<K, V> {
    s.(entries := s.entries[k := v], changes := s.changes + [k], history := s.history + [k])
  }

  /** Compact the queue once it has grown past the threshold. */
  function Trim<K(==), V>(s: CacheState<K, V>, threshold: nat): CacheState<K, V> {
    if |s.changes| > threshold then s.(changes := Compact(s.changes, s.entries.Keys)) else s
  }

  /** A write of `v` under `k`: store it, append a record, evict if a new key overflows the
      maximum size, then compact the queue if it has grown past the threshold. */
  function Write<K(==), V>(s: CacheState<K, V>, k: K, v: V, maxSize: nat, threshold: nat): CacheState<K, V> {
    var stored := Stored(s, k, v);
    Trim(if k !in s.entries && |stored.entries| > maxSize then Evict(stored) else stored, threshold)
  }

  /** Removal (remove, or a compute function returning null): no record, no consumer call. */
  function Removed<K(==), V>(s: CacheState<K, V>, k: K): CacheState<K, V> {
    s.(entries := s.entries - {k})
  }

  function Cleared<K(==), V>(s: CacheState<K, V>): CacheState<K, V> {
    s.(entries := map[], changes := [])
  }

  /** putAll: the writes of `ps` in order. */
  function WriteAll<K(==), V>(s: CacheState<K, V>, ps: seq<(K, V)>, maxSize: nat, threshold: nat): CacheState<K, V> {
    if ps == [] then s
    else
      var last := ps[|ps| - 1];
      Write(WriteAll(s, ps[..|ps| - 1], maxSize, threshold), last.0, last.1, maxSize, threshold)
  }

  // ---------------------------------------------------------------------------------------
  // Properties of the operations

  lemma AppendCoherent<K, V>(s: CacheState<K, V>, k: K, v: V)
    requires Coherent(s)
    ensures Coherent(Stored(s, k, v))
  {
    var entries, changes, history := s.entries, s.changes, s.history;
    var e := entries[k := v];
    forall a, b | a in e && b in e
      ensures LastIndex(changes + [k], a) < LastIndex(changes + [k], b)
              <==> LastIndex(history + [k], a) < LastIndex(history + [k], b)
    {
      LastIndexAppend(changes, k, a);
      LastIndexAppend(changes, k, b);
      LastIndexAppend(history, k, a);
      LastIndexAppend(history, k, b);
    }
  }

  /** Dropping the records up to and including the last record of the live key `changes[i]`,
      together with that key, keeps the agreement when every other live key has a later record. */
  lemma DropCoherent<K, V>(s: CacheState<K, V>, i: nat)
    requires i < |s.changes| && s.changes[i] in s.entries
    requires forall a :: a in s.entries && a != s.changes[i] ==> LastIndex(s.changes, a) > i
    requires Coherent(s)
    ensures Coherent(s.(entries := s.entries - {s.changes[i]}, changes := s.changes[i + 1..],
                        evicted := s.evicted + [s.entries[s.changes[i]]]))
  {
    var e := s.entries - {s.changes[i]};
    forall a | a in e
      ensures a in s.changes[i + 1..] && LastIndex(s.changes[i + 1..], a) == LastIndex(s.changes, a) - (i + 1)
    {
      LastIndexDrop(s.changes, i + 1, a);
    }
  }

  lemma EvictCoherent<K, V>(s: CacheState<K, V>)
    requires s.entries != map[]
    requires Coherent(s)
    ensures Coherent(Evict(s))
    ensures |Evict(s).entries| == |s.entries| - 1
    ensures |Evict(s).changes| < |s.changes|
  {
    var q, live := s.changes, s.entries.Keys;
    var some :| some in s.entries;
    FirstCurrentIsEldest(q, live, some);
    var i := FirstCurrent(q, live);
    EvictAt(s, i);
    DropCoherent(s, i);
    RemoveOne(s.entries, q[i]);
  }

  lemma RemoveOne<K, V>(m: map<K, V>, k: K)
    requires k in m
    ensures |m - {k}| == |m| - 1
  {
    assert (m - {k}).Keys == m.Keys - {k};
  }

  /** Removing a key (or every key) keeps the invariant and never feeds the consumer. */
  lemma RemoveKeepsInv<K, V>(s: CacheState<K, V>, k: K, maxSize: nat, threshold: nat)
    requires Inv(s, maxSize, threshold)
    ensures Inv(Removed(s, k), maxSize, threshold)
    ensures Removed(s, k).evicted == s.evicted && Removed(s, k).changes == s.changes
    ensures k !in Removed(s, k).entries
    ensures |Removed(s, k).entries| == if k in s.entries then |s.entries| - 1 else |s.entries|
  {
    if k in s.entries {
      RemoveOne(s.entries, k);
    } else {
      assert s.entries - {k} == s.entries;
    }
  }

  /** Every write keeps the maximum size, the queue bound and the queue/history agreement. */
  lemma WriteKeepsInv<K, V>(s: CacheState<K, V>, k: K, v: V, maxSize: nat, threshold: nat)
    requires maxSize >= 1 && Inv(s, maxSize, threshold)
    ensures Inv(Write(s, k, v, maxSize, threshold), maxSize, threshold)
    ensures Write(s, k, v, maxSize, threshold).history == s.history + [k]
  {
    var stored := Stored(s, k, v);
    AppendCoherent(s, k, v);
    var bounded := if k !in s.entries && |stored.entries| > maxSize then Evict(stored) else stored;
    if k !in s.entries && |stored.entries| > maxSize {
      EvictCoherent(stored);
    }
    assert |bounded.entries| <= maxSize;
    if |bounded.changes| > threshold {
      CompactCoherent(bounded);
    }
  }

  lemma WriteAllKeepsInv<K, V>(s: CacheState<K, V>, ps: seq<(K, V)>, maxSize: nat, threshold: nat)
    requires maxSize >= 1 && Inv(s, maxSize, threshold)
    ensures Inv(WriteAll(s, ps, maxSize, threshold), maxSize, threshold)
    decreases |ps|
  {
    if ps != [] {
      var last := ps[|ps| - 1];
      WriteAllKeepsInv(s, ps[..|ps| - 1], maxSize, threshold);
      WriteKeepsInv(WriteAll(s, ps[..|ps| - 1], maxSize, threshold), last.0, last.1, maxSize, threshold);
    }
  }

  /** Inserting a new key into a full cache evicts exactly one entry: the one whose last write is
      the oldest. Its value goes to the consumer once, the new key is stored, the size stays. */
  lemma WriteEvictsEldest<K, V>(s: CacheState<K, V>, k: K, v: V, maxSize: nat, threshold: nat)
    returns (victim: K)
    requires maxSize >= 1 && Inv(s, maxSize, threshold)
    requires k !in s.entries && |s.entries| == maxSize
    ensures victim in s.entries
    ensures forall w :: w in s.entries && w != victim ==>
              LastIndex(s.history, victim) < LastIndex(s.history, w)
    ensures Write(s, k, v, maxSize, threshold).entries == s.entries[k := v] - {victim}
    ensures Write(s, k, v, maxSize, threshold).evicted == s.evicted + [s.entries[victim]]
    ensures |Write(s, k, v, maxSize, threshold).entries| == maxSize
    ensures Write(s, k, v, maxSize, threshold).history == s.history + [k]
  {
    var stored := Stored(s, k, v);
    AppendCoherent(s, k, v);
    assert k in stored.entries;
    victim := EvictRemovesEldest(stored);
    assert Write(s, k, v, maxSize, threshold).entries == Evict(stored).entries;
    assert Write(s, k, v, maxSize, threshold).evicted == Evict(stored).evicted;
    RemoveOne(stored.entries, victim);
    StoredVictimIsEldest(s, k, v, victim);
  }

  /** The key whose record is oldest in the queue after a write of a new key `k` is an older key,
      and its last write is older than that of every other key. */
  lemma StoredVictimIsEldest<K, V>(s: CacheState<K, V>, k: K, v: V, victim: K)
    requires Coherent(Stored(s, k, v)) && k !in s.entries && s.entries != map[]
    requires victim in Stored(s, k, v).entries
    requires forall w :: w in Stored(s, k, v).entries && w != victim ==>
               LastIndex(Stored(s, k, v).changes, victim) < LastIndex(Stored(s, k, v).changes, w)
    ensures victim != k && victim in s.entries
    ensures forall w :: w in s.entries && w != victim ==>
              LastIndex(s.history, victim) < LastIndex(s.history, w)
  {
    var other :| other in s.entries;
    LastIndexAppend(s.changes, k, k);
    LastIndexAppend(s.changes, k, other);
    assert victim != k;
    forall w | w in s.entries && w != victim
      ensures LastIndex(s.history, victim) < LastIndex(s.history, w)
    {
      LastIndexAppend(s.history, k, victim);
      LastIndexAppend(s.history, k, w);
    }
  }

  /** Overwriting a present key, or adding one while there is room, evicts nothing. The queue
      grows by one record, unless that passes the threshold: then it holds one record per live key. */
  lemma WriteWithoutEviction<K, V>(s: CacheState<K, V>, k: K, v: V, maxSize: nat, threshold: nat)
    requires maxSize >= 1 && Inv(s, maxSize, threshold)
    requires k in s.entries || |s.entries| < maxSize
    ensures Write(s, k, v, maxSize, threshold).entries == s.entries[k := v]
    ensures Write(s, k, v, maxSize, threshold).evicted == s.evicted
    ensures |Write(s, k, v, maxSize, threshold).changes| ==
              if |s.changes| < threshold then |s.changes| + 1 else |s.entries[k := v]|
    ensures |s.changes| < threshold ==> Write(s, k, v, maxSize, threshold).changes == s.changes + [k]
    ensures Write(s, k, v, maxSize, threshold).history == s.history + [k]
  {
    if |s.changes| >= threshold {
      AppendCoherent(s, k, v);
      CompactCoherent(Stored(s, k, v));
    }
  }

  /** A write into a full cache (the eviction case) never lengthens the queue. */
  lemma WriteEvictionShortensQueue<K, V>(s: CacheState<K, V>, k: K, v: V, maxSize: nat, threshold: nat)
    requires maxSize >= 1 && Inv(s, maxSize, threshold)
    requires k !in s.entries && |s.entries| == maxSize
    ensures |Write(s, k, v, maxSize, threshold).changes| <= |s.changes|
  {
    var stored := Stored(s, k, v);
    AppendCoherent(s, k, v);
    assert k in stored.entries;
    EvictCoherent(stored);
    var bounded := Evict(stored);
    assert Write(s, k, v, maxSize, threshold) == Trim(bounded, threshold);
    if |bounded.changes| > threshold {
      CompactKeeps(bounded.changes, bounded.entries.Keys);
    }
  }

  function Min(a: nat, b: nat): nat { if a < b then a else b }

  function KeysOf<K, V>(ps: seq<(K, V)>): set<K> { set i | 0 <= i < |ps| :: ps[i].0 }

  /** A write of a key that is not in the cache either fills a free place or evicts one value. */
  lemma WriteFreshKey<K, V>(s: CacheState<K, V>, k: K, v: V, maxSize: nat, threshold: nat)
    requires maxSize >= 1 && Inv(s, maxSize, threshold) && k !in s.entries
    ensures |Write(s, k, v, maxSize, threshold).entries| == Min(maxSize, |s.entries| + 1)
    ensures |Write(s, k, v, maxSize, threshold).evicted| ==
              |s.evicted| + |s.entries| + 1 - Min(maxSize, |s.entries| + 1)
    ensures Write(s, k, v, maxSize, threshold).entries.Keys <= s.entries.Keys + {k}
  {
    if |s.entries| < maxSize {
      WriteWithoutEviction(s, k, v, maxSize, threshold);
    } else {
      var victim := WriteEvictsEldest(s, k, v, maxSize, threshold);
    }
  }

  /** No key is written twice in `ps`. */
  predicate DistinctKeys<K(==), V>(ps: seq<(K, V)>) {
    forall i, j :: 0 <= i < j < |ps| ==> ps[i].0 != ps[j].0
  }

  /** Every write of `ps` puts under a key of `m` the value `f` gives for that key and its value
      in `m`. */
  predicate Replacing<K(==), V(==)>(m: map<K, V>, f: (K, V) -> Option<V>, ps: seq<(K, V)>) {
    forall i :: 0 <= i < |ps| ==> ps[i].0 in m && f(ps[i].0, m[ps[i].0]) == Some(ps[i].1)
  }

  /** One more replacement of a key not yet replaced. */
  lemma ReplacingOneMore<K, V>(m: map<K, V>, f: (K, V) -> Option<V>, ps: seq<(K, V)>, k: K, v: V)
    requires DistinctKeys(ps) && Replacing(m, f, ps)
    requires k !in KeysOf(ps) && k in m && f(k, m[k]) == Some(v)
    ensures DistinctKeys(ps + [(k, v)]) && Replacing(m, f, ps + [(k, v)])
  {
    var qs := ps + [(k, v)];
    forall i, j | 0 <= i < j < |qs|
      ensures qs[i].0 != qs[j].0
    {
      if j == |ps| {
        assert qs[i] == ps[i];
      }
    }
  }

  /** The writes of `ps` followed by one more write of `v` under `k`. */
  lemma WrittenOneMore<K, V>(s: CacheState<K, V>, ps: seq<(K, V)>, k: K, v: V, t: CacheState<K, V>,
                             maxSize: nat, threshold: nat)
    requires t == WriteAll(s, ps, maxSize, threshold)
    ensures WriteAll(s, ps + [(k, v)], maxSize, threshold) == Write(t, k, v, maxSize, threshold)
    ensures KeysOf(ps + [(k, v)]) == KeysOf(ps) + {k}
  {
    var qs := ps + [(k, v)];
    assert qs[..|qs| - 1] == ps;
    KeysOfSnoc(qs);
  }

  lemma KeysOfSnoc<K, V>(ps: seq<(K, V)>)
    requires ps != []
    ensures KeysOf(ps) == KeysOf(ps[..|ps| - 1]) + {ps[|ps| - 1].0}
  {
    var init := ps[..|ps| - 1];
    forall x | x in KeysOf(ps) ensures x in KeysOf(init) + {ps[|ps| - 1].0} {
      var i :| 0 <= i < |ps| && ps[i].0 == x;
      if i < |init| { assert init[i] == ps[i]; }
    }
    forall x | x in KeysOf(init) ensures x in KeysOf(ps) {
      var i :| 0 <= i < |init| && init[i].0 == x;
      assert ps[i] == init[i];
    }
  }

  lemma FreshKeysSnoc<K, V>(s: CacheState<K, V>, ps: seq<(K, V)>, init: seq<(K, V)>)
    requires ps != [] && init == ps[..|ps| - 1]
    requires forall i, j :: 0 <= i < j < |ps| ==> ps[i].0 != ps[j].0
    requires forall i :: 0 <= i < |ps| ==> ps[i].0 !in s.entries
    ensures forall i, j :: 0 <= i < j < |init| ==> init[i].0 != init[j].0
    ensures forall i :: 0 <= i < |init| ==> init[i].0 !in s.entries
    ensures ps[|ps| - 1].0 !in s.entries && ps[|ps| - 1].0 !in KeysOf(init)
    ensures KeysOf(ps) == KeysOf(init) + {ps[|ps| - 1].0}
  {
    var k := ps[|ps| - 1].0;
    KeysOfSnoc(ps);
    forall i | 0 <= i < |init|
      ensures init[i].0 != k
    {
      assert init[i] == ps[i];
    }
  }

  /** Writing distinct keys that are not in the cache fills it up to its maximum size, and from
      then on every write evicts exactly one value: with only fresh keys, the number of values
      handed to the consumer is the number of writes minus the room that was left. */
  lemma {:induction false} WriteAllFreshKeys<K, V>(s: CacheState<K, V>, ps: seq<(K, V)>, maxSize: nat, threshold: nat)
    requires maxSize >= 1 && Inv(s, maxSize, threshold)
    requires forall i, j :: 0 <= i < j < |ps| ==> ps[i].0 != ps[j].0
    requires forall i :: 0 <= i < |ps| ==> ps[i].0 !in s.entries
    ensures |WriteAll(s, ps, maxSize, threshold).entries| == Min(maxSize, |s.entries| + |ps|)
    ensures |WriteAll(s, ps, maxSize, threshold).evicted| ==
              |s.evicted| + |s.entries| + |ps| - Min(maxSize, |s.entries| + |ps|)
    ensures WriteAll(s, ps, maxSize, threshold).entries.Keys <= s.entries.Keys + KeysOf(ps)
    decreases |ps|
  {
    if ps != [] {
      var init, k, v := ps[..|ps| - 1], ps[|ps| - 1].0, ps[|ps| - 1].1;
      FreshKeysSnoc(s, ps, init);
      WriteAllFreshKeys(s, init, maxSize, threshold);
      var t := WriteAll(s, init, maxSize, threshold);
      WriteAllKeepsInv(s, init, maxSize, threshold);
      assert WriteAll(s, ps, maxSize, threshold) == Write(t, k, v, maxSize, threshold);
      WriteFreshKey(t, k, v, maxSize, threshold);
    }
  }


  /** The map that the plain writes of `ps`, in order, make of `m`. */
  function Updated<K(==), V>(m: map<K, V>, ps: seq<(K, V)>): map<K, V>
    decreases |ps|
  {
    if ps == [] then m else Updated(m, ps[..|ps| - 1])[ps[|ps| - 1].0 := ps[|ps| - 1].1]
  }

  function KeySeq<K, V>(ps: seq<(K, V)>): seq<K> {
    seq(|ps|, i requires 0 <= i < |ps| => ps[i].0)
  }

  lemma KeySeqSnoc<K, V>(ps: seq<(K, V)>)
    requires ps != []
    ensures KeySeq(ps) == KeySeq(ps[..|ps| - 1]) + [ps[|ps| - 1].0]
  {
  }

  lemma {:induction false} UpdatedKeys<K, V>(m: map<K, V>, ps: seq<(K, V)>)
    ensures Updated(m, ps).Keys == m.Keys + KeysOf(ps)
    decreases |ps|
  {
    if ps != [] {
      UpdatedKeys(m, ps[..|ps| - 1]);
      KeysOfSnoc(ps);
    }
  }

  lemma SubsetSize<K>(a: set<K>, b: set<K>)
    requires a <= b
    ensures |a| <= |b|
  {
    assert b == a + (b - a);
  }

  /** When all the keys fit, so do those of a prefix, and the last key finds its place. */
  lemma RoomFor<K, V>(m: map<K, V>, ps: seq<(K, V)>, maxSize: nat)
    requires ps != [] && |m.Keys + KeysOf(ps)| <= maxSize
    ensures |m.Keys + KeysOf(ps[..|ps| - 1])| <= maxSize
    ensures ps[|ps| - 1].0 in Updated(m, ps[..|ps| - 1]) || |Updated(m, ps[..|ps| - 1])| < maxSize
  {
    var init, k := ps[..|ps| - 1], ps[|ps| - 1].0;
    KeysOfSnoc(ps);
    UpdatedKeys(m, init);
    SubsetSize(m.Keys + KeysOf(init), m.Keys + KeysOf(ps));
    if k !in Updated(m, init) {
      SubsetSize(Updated(m, init).Keys + {k}, m.Keys + KeysOf(ps));
    }
  }

  /** As long as every key written fits in the cache, the cache behaves as a plain map: the
      entries are the writes applied in order, nothing is evicted, and every write is recorded. */
  lemma {:induction false} WriteAllWithinCapacity<K, V>(s: CacheState<K, V>, ps: seq<(K, V)>, maxSize: nat, threshold: nat)
    requires maxSize >= 1 && Inv(s, maxSize, threshold)
    requires |s.entries.Keys + KeysOf(ps)| <= maxSize
    ensures WriteAll(s, ps, maxSize, threshold).entries == Updated(s.entries, ps)
    ensures WriteAll(s, ps, maxSize, threshold).evicted == s.evicted
    ensures WriteAll(s, ps, maxSize, threshold).history == s.history + KeySeq(ps)
    decreases |ps|
  {
    if ps != [] {
      var init, k, v := ps[..|ps| - 1], ps[|ps| - 1].0, ps[|ps| - 1].1;
      RoomFor(s.entries, ps, maxSize);
      WriteAllWithinCapacity(s, init, maxSize, threshold);
      WriteAllKeepsInv(s, init, maxSize, threshold);
      var t := WriteAll(s, init, maxSize, threshold);
      assert WriteAll(s, ps, maxSize, threshold) == Write(t, k, v, maxSize, threshold);
      WriteWithoutEviction(t, k, v, maxSize, threshold);
      KeySeqSnoc(ps);
    }
  }

  /** The writes of the values `vs`, in order, all under the key `k`. */
  function SameKey<K, V>(k: K, vs: seq<V>): (ps: seq<(K, V)>)
    ensures |ps| == |vs|
  {
    seq(|vs|, i requires 0 <= i < |vs| => (k, vs[i]))
  }

  /** Writing one key over and over never grows the cache nor evicts: the key ends up holding
      the last value written. */
  lemma {:induction false} RepeatedWrites<K, V>(s: CacheState<K, V>, k: K, vs: seq<V>, maxSize: nat, threshold: nat)
    requires maxSize >= 1 && Inv(s, maxSize, threshold)
    requires k in s.entries || |s.entries| < maxSize
    requires vs != []
    ensures Inv(WriteAll(s, SameKey(k, vs), maxSize, threshold), maxSize, threshold)
    ensures WriteAll(s, SameKey(k, vs), maxSize, threshold).entries == s.entries[k := vs[|vs| - 1]]
    ensures WriteAll(s, SameKey(k, vs), maxSize, threshold).evicted == s.evicted
    decreases |vs|
  {
    var ps := SameKey(k, vs);
    var init := vs[..|vs| - 1];
    assert ps[..|ps| - 1] == SameKey(k, init);
    var t := WriteAll(s, SameKey(k, init), maxSize, threshold);
    if init == [] {
      assert t == s;
    } else {
      RepeatedWrites(s, k, init, maxSize, threshold);
    }
    WriteWithoutEviction(t, k, vs[|vs| - 1], maxSize, threshold);
    WriteKeepsInv(t, k, vs[|vs| - 1], maxSize, threshold);
  }
}
