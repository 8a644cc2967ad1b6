/** Camel's SimpleLRUCache as a class: the live map, the change queue and the consumer log are
    fields that its operations update in place. Every operation is atomic; each one is proved
    against the state machine of `LruModel`, whose lemmas carry the cache's promises. */
module LruCache {
  import opened Wrappers
  import opened LruModel

  /** The exceptions the cache raises: NullPointerException and IllegalArgumentException. */
  datatype Error = NullPointer | IllegalArgument

  class SimpleLRUCache<K(==), V(==)> {
    const maximumCacheSize: nat
    /** MINIMUM_QUEUE_SIZE: once the queue holds more records than this, it is compacted. */
    const queueThreshold: nat

    var entries: map<K, V>
    var changes: seq<K>
    /** What the eviction consumer has received so far, in order. */
    var consumed: seq<V>
    ghost var history: seq<K>

    ghost function State(): CacheState<K, V>
      reads this
    {
      CacheState(entries, changes, consumed, history)
    }

    ghost predicate Valid()
      reads this
    {
      maximumCacheSize >= 1 && Inv(State(), maximumCacheSize, queueThreshold)
    }

    constructor (maximumCacheSize: nat, queueThreshold: nat)
      requires maximumCacheSize >= 1
      ensures Valid()
      ensures this.maximumCacheSize == maximumCacheSize && this.queueThreshold == queueThreshold
      ensures State() == CacheState(map[], [], [], [])
    {
      this.maximumCacheSize := maximumCacheSize;
      this.queueThreshold := queueThreshold;
      entries, changes, consumed, history := map[], [], [], [];
    }

    // -------------------------------------------------------------------------------------
    // The write path

    /** Take records from the head of the queue until the first current one; evict its key
        and hand the value to the consumer. */
    method EvictEldest()
      modifies this`entries, this`changes, this`consumed
      ensures State() == Evict(old(State()))
    {
      ghost var s := State();
      ghost var taken: nat := 0;
      while changes != [] && !IsCurrent(changes, 0, entries.Keys)
        invariant taken <= |s.changes| && changes == s.changes[taken..]
        invariant FirstCurrent(s.changes, s.entries.Keys) == taken + FirstCurrent(changes, entries.Keys)
        invariant entries == s.entries && consumed == s.evicted && history == s.history
        decreases |changes|
      {
        changes := changes[1..];
        taken := taken + 1;
      }
      if changes != [] {
        var victim := changes[0];
        consumed := consumed + [entries[victim]];
        entries := entries - {victim};
        changes := changes[1..];
      }
    }

    /** Rebuild the queue with only the last record of every live key, scanning from the tail. */
    method CompactChanges()
      modifies this`changes
      ensures changes == Compact(old(changes), entries.Keys)
    {
      var kept: seq<K> := [];
      var seen: set<K> := {};
      var i := |changes|;
      while i > 0
        invariant 0 <= i <= |changes|
        invariant kept == Compact(changes[i..], entries.Keys)
        invariant seen == Elems(changes[i..])
      {
        i := i - 1;
        assert changes[i..] == [changes[i]] + changes[i + 1..];
        assert changes[i] in seen <==> changes[i] in changes[i + 1..];
        if changes[i] in entries && changes[i] !in seen {
          kept := [changes[i]] + kept;
        }
        seen := seen + {changes[i]};
      }
      changes := kept;
    }

    /** Store `v` under `k`, record the write, evict if the new key overflows the cache, and
        compact the queue when it has grown past the threshold. */
    method Store(k: K, v: V)
      requires Valid()
      modifies this`entries, this`changes, this`consumed, this`history
      ensures Valid()
      ensures State() == Write(old(State()), k, v, maximumCacheSize, queueThreshold)
    {
      var isNew := k !in entries;
      entries := entries[k := v];
      changes := changes + [k];
      history := history + [k];
      if isNew && |entries| > maximumCacheSize {
        EvictEldest();
      }
      if |changes| > queueThreshold {
        CompactChanges();
      }
      WriteKeepsInv(old(State()), k, v, maximumCacheSize, queueThreshold);
    }

    // -------------------------------------------------------------------------------------
    // The map operations; an absent argument stands for Java's null

    /** put: the previous value, or none. */
    method Put(key: Option<K>, value: Option<V>) returns (r: Result<Option<V>, Error>)
      requires Valid()
      modifies this`entries, this`changes, this`consumed, this`history
      ensures Valid()
      ensures key.None? || value.None? ==> r == Failure(NullPointer) && State() == old(State())
      ensures key.Some? && value.Some? ==>
                r == Success(Lookup(old(entries), key.value)) &&
                State() == Write(old(State()), key.value, value.value, maximumCacheSize, queueThreshold)
    {
      if key.None? || value.None? {
        return Failure(NullPointer);
      }
      r := Success(Lookup(entries, key.value));
      Store(key.value, value.value);
    }

    /** putAll: the writes of the given entries, in the map's iteration order. A null map, or a
        map holding a null key or value, is rejected before anything is written. */
    method PutAll(m: Option<seq<(Option<K>, Option<V>)>>) returns (r: Result<(), Error>)
      requires Valid()
      modifies this`entries, this`changes, this`consumed, this`history
      ensures Valid()
      ensures m.None? || NonNullEntries(m.value).None? ==> r == Failure(NullPointer) && State() == old(State())
      ensures m.Some? && NonNullEntries(m.value).Some? ==>
                r == Success(()) &&
                State() == WriteAll(old(State()), NonNullEntries(m.value).value, maximumCacheSize, queueThreshold)
    {
      if m.None? {
        return Failure(NullPointer);
      }
      var checked := NonNullEntries(m.value);
      if checked.None? {
        return Failure(NullPointer);
      }
      StoreAll(checked.value);
      r := Success(());
    }

    /** The writes of `ps`, in order. */
    method StoreAll(ps: seq<(K, V)>)
      requires Valid()
      modifies this`entries, this`changes, this`consumed, this`history
      ensures Valid()
      ensures State() == WriteAll(old(State()), ps, maximumCacheSize, queueThreshold)
    {
      var i := 0;
      while i < |ps|
        invariant 0 <= i <= |ps| && Valid()
        invariant State() == WriteAll(old(State()), ps[..i], maximumCacheSize, queueThreshold)
      {
        assert ps[..i + 1][..i] == ps[..i];
        Store(ps[i].0, ps[i].1);
        i := i + 1;
      }
      assert ps[..i] == ps;
    }

    /** putIfAbsent: a present key keeps its value and records no write. */
    method PutIfAbsent(key: Option<K>, value: Option<V>) returns (r: Result<Option<V>, Error>)
      requires Valid()
      modifies this`entries, this`changes, this`consumed, this`history
      ensures Valid()
      ensures key.None? || value.None? ==> r == Failure(NullPointer) && State() == old(State())
      ensures key.Some? && value.Some? ==> r == Success(Lookup(old(entries), key.value))
      ensures key.Some? && value.Some? && key.value in old(entries) ==> State() == old(State())
      ensures key.Some? && value.Some? && key.value !in old(entries) ==>
                State() == Write(old(State()), key.value, value.value, maximumCacheSize, queueThreshold)
    {
      if key.None? || value.None? {
        return Failure(NullPointer);
      }
      r := Success(Lookup(entries, key.value));
      if key.value !in entries {
        Store(key.value, value.value);
      }
    }

    /** computeIfAbsent: a present key keeps its value; otherwise the function's value, when it
        gives one, is written. The result is the value now mapped, or none. */
    method ComputeIfAbsent(key: Option<K>, f: Option<K -> Option<V>>) returns (r: Result<Option<V>, Error>)
      requires Valid()
      modifies this`entries, this`changes, this`consumed, this`history
      ensures Valid()
      ensures key.None? || f.None? ==> r == Failure(NullPointer) && State() == old(State())
      ensures key.Some? && f.Some? && key.value in old(entries) ==>
                r == Success(Some(old(entries)[key.value])) && State() == old(State())
      ensures key.Some? && f.Some? && key.value !in old(entries) && f.value(key.value).None? ==>
                r == Success(None) && State() == old(State())
      ensures key.Some? && f.Some? && key.value !in old(entries) && f.value(key.value).Some? ==>
                r == Success(f.value(key.value)) &&
                State() == Write(old(State()), key.value, f.value(key.value).value, maximumCacheSize, queueThreshold)
    {
      if key.None? || f.None? {
        return Failure(NullPointer);
      }
      var k := key.value;
      if k in entries {
        return Success(Some(entries[k]));
      }
      var computed := f.value(k);
      if computed.Some? {
        Store(k, computed.value);
      }
      r := Success(computed);
    }

    /** computeIfPresent: an absent key stays absent; a present key gets the function's value,
        or is removed when the function gives none. */
    method ComputeIfPresent(key: Option<K>, f: Option<(K, V) -> Option<V>>) returns (r: Result<Option<V>, Error>)
      requires Valid()
      modifies this`entries, this`changes, this`consumed, this`history
      ensures Valid()
      ensures key.None? || f.None? ==> r == Failure(NullPointer) && State() == old(State())
      ensures key.Some? && f.Some? && key.value !in old(entries) ==>
                r == Success(None) && State() == old(State())
      ensures key.Some? && f.Some? && key.value in old(entries) ==>
                var computed := f.value(key.value, old(entries)[key.value]);
                r == Success(computed) &&
                State() == if computed.None? then Removed(old(State()), key.value)
                           else Write(old(State()), key.value, computed.value, maximumCacheSize, queueThreshold)
    {
      if key.None? || f.None? {
        return Failure(NullPointer);
      }
      var k := key.value;
      if k !in entries {
        return Success(None);
      }
      var computed := f.value(k, entries[k]);
      r := Success(computed);
      if computed.None? {
        RemoveKeepsInv(State(), k, maximumCacheSize, queueThreshold);
        entries := entries - {k};
      } else {
        Store(k, computed.value);
      }
    }

    /** compute: the function sees the current value or none; its value is written, and none
        removes the mapping. */
    method Compute(key: Option<K>, f: Option<(K, Option<V>) -> Option<V>>) returns (r: Result<Option<V>, Error>)
      requires Valid()
      modifies this`entries, this`changes, this`consumed, this`history
      ensures Valid()
      ensures key.None? || f.None? ==> r == Failure(NullPointer) && State() == old(State())
      ensures key.Some? && f.Some? ==>
                var computed := f.value(key.value, Lookup(old(entries), key.value));
                r == Success(computed) &&
                State() == if computed.None? then Removed(old(State()), key.value)
                           else Write(old(State()), key.value, computed.value, maximumCacheSize, queueThreshold)
    {
      if key.None? || f.None? {
        return Failure(NullPointer);
      }
      var k := key.value;
      var computed := f.value(k, Lookup(entries, k));
      r := Success(computed);
      if computed.None? {
        RemoveKeepsInv(State(), k, maximumCacheSize, queueThreshold);
        entries := entries - {k};
      } else {
        Store(k, computed.value);
      }
    }

    /** merge: an absent key gets `value`; a present one gets the function of the old value and
        `value`, and is removed when the function gives none. */
    method Merge(key: Option<K>, value: Option<V>, f: Option<(V, V) -> Option<V>>) returns (r: Result<Option<V>, Error>)
      requires Valid()
      modifies this`entries, this`changes, this`consumed, this`history
      ensures Valid()
      ensures key.None? || value.None? || f.None? ==> r == Failure(NullPointer) && State() == old(State())
      ensures key.Some? && value.Some? && f.Some? ==>
                var merged := if key.value in old(entries) then f.value(old(entries)[key.value], value.value)
                              else value;
                r == Success(merged) &&
                State() == if merged.None? then Removed(old(State()), key.value)
                           else Write(old(State()), key.value, merged.value, maximumCacheSize, queueThreshold)
    {
      if key.None? || value.None? || f.None? {
        return Failure(NullPointer);
      }
      var k := key.value;
      var merged := if k in entries then f.value(entries[k], value.value) else value;
      r := Success(merged);
      if merged.None? {
        RemoveKeepsInv(State(), k, maximumCacheSize, queueThreshold);
        entries := entries - {k};
      } else {
        Store(k, merged.value);
      }
    }

    /** replace(key, value): writes only a present key; the result is the previous value. */
    method Replace(key: Option<K>, value: Option<V>) returns (r: Result<Option<V>, Error>)
      requires Valid()
      modifies this`entries, this`changes, this`consumed, this`history
      ensures Valid()
      ensures key.None? || value.None? ==> r == Failure(NullPointer) && State() == old(State())
      ensures key.Some? && value.Some? ==> r == Success(Lookup(old(entries), key.value))
      ensures key.Some? && value.Some? && key.value !in old(entries) ==> State() == old(State())
      ensures key.Some? && value.Some? && key.value in old(entries) ==>
                State() == Write(old(State()), key.value, value.value, maximumCacheSize, queueThreshold)
    {
      if key.None? || value.None? {
        return Failure(NullPointer);
      }
      r := Success(Lookup(entries, key.value));
      if key.value in entries {
        Store(key.value, value.value);
      }
    }

    /** replace(key, oldValue, newValue): succeeds, and writes, iff `key` maps to `oldValue`. */
    method ReplaceIfEquals(key: Option<K>, oldValue: Option<V>, newValue: Option<V>) returns (r: Result<bool, Error>)
      requires Valid()
      modifies this`entries, this`changes, this`consumed, this`history
      ensures Valid()
      ensures key.None? || oldValue.None? || newValue.None? ==>
                r == Failure(NullPointer) && State() == old(State())
      ensures key.Some? && oldValue.Some? && newValue.Some? ==>
                var hit := Lookup(old(entries), key.value) == oldValue;
                r == Success(hit) &&
                State() == if hit then Write(old(State()), key.value, newValue.value, maximumCacheSize, queueThreshold)
                           else old(State())
    {
      if key.None? || oldValue.None? || newValue.None? {
        return Failure(NullPointer);
      }
      var hit := Lookup(entries, key.value) == oldValue;
      if hit {
        Store(key.value, newValue.value);
      }
      r := Success(hit);
    }

    /** replaceAll: every live key gets the function of its key and value, through its entry's
        setValue, in the entry set's iteration order; `written` is that order with the values
        written. A function value of null reaches setValue, which throws once the entries before
        it have been written. Nothing is evicted and the size stays. */
    method ReplaceAll(f: Option<(K, V) -> Option<V>>) returns (r: Result<(), Error>, ghost written: seq<(K, V)>)
      requires Valid()
      modifies this`entries, this`changes, this`consumed, this`history
      ensures Valid()
      ensures f.None? ==> r == Failure(NullPointer) && State() == old(State())
      ensures r.Success? <==> f.Some? && forall k :: k in old(entries) ==> f.value(k, old(entries)[k]).Some?
      ensures r.Failure? ==> r.error == NullPointer
      ensures State() == WriteAll(old(State()), written, maximumCacheSize, queueThreshold)
      ensures DistinctKeys(written)
      ensures f.Some? ==> Replacing(old(entries), f.value, written)
      ensures r.Success? ==> KeysOf(written) == old(entries).Keys
      ensures f.Some? && r.Failure? ==>
                exists k :: k in old(entries) && k !in KeysOf(written) && f.value(k, old(entries)[k]).None?
      ensures consumed == old(consumed) && entries.Keys == old(entries).Keys
      ensures r.Success? ==> forall k :: k in old(entries) ==> f.value(k, old(entries)[k]) == Some(entries[k])
    {
      written := [];
      if f.None? {
        return Failure(NullPointer), written;
      }
      var todo := entries.Keys;
      while todo != {}
        invariant Valid() && todo <= entries.Keys && consumed == old(consumed)
        invariant entries.Keys == old(entries).Keys
        invariant forall k :: k in entries && k in todo ==> entries[k] == old(entries)[k]
        invariant forall k :: k in entries && k !in todo ==> f.value(k, old(entries)[k]) == Some(entries[k])
        invariant KeysOf(written) == old(entries).Keys - todo
        invariant DistinctKeys(written) && Replacing(old(entries), f.value, written)
        invariant State() == WriteAll(old(State()), written, maximumCacheSize, queueThreshold)
        decreases todo
      {
        var k :| k in todo;
        var computed := f.value(k, entries[k]);
        if computed.None? {
          return Failure(NullPointer), written;
        }
        ghost var before := State();
        WriteWithoutEviction(State(), k, computed.value, maximumCacheSize, queueThreshold);
        Store(k, computed.value);
        WrittenOneMore(old(State()), written, k, computed.value, before, maximumCacheSize, queueThreshold);
        ReplacingOneMore(old(entries), f.value, written, k, computed.value);
        written := written + [(k, computed.value)];
        todo := todo - {k};
      }
      r := Success(());
    }

    /** remove(key): the removed value, if any; the consumer is not called. */
    method Remove(key: Option<K>) returns (r: Result<Option<V>, Error>)
      requires Valid()
      modifies this`entries
      ensures Valid()
      ensures key.None? ==> r == Failure(NullPointer) && State() == old(State())
      ensures key.Some? ==>
                r == Success(Lookup(old(entries), key.value)) &&
                State() == Removed(old(State()), key.value)
    {
      if key.None? {
        return Failure(NullPointer);
      }
      r := Success(Lookup(entries, key.value));
      RemoveKeepsInv(State(), key.value, maximumCacheSize, queueThreshold);
      entries := entries - {key.value};
    }

    /** remove(key, value): removes, without calling the consumer, iff `key` maps to `value`. */
    method RemoveIfEquals(key: Option<K>, value: Option<V>) returns (r: Result<bool, Error>)
      requires Valid()
      modifies this`entries
      ensures Valid()
      ensures key.None? || value.None? ==> r == Failure(NullPointer) && State() == old(State())
      ensures key.Some? && value.Some? ==>
                var hit := Lookup(old(entries), key.value) == value;
                r == Success(hit) &&
                State() == if hit then Removed(old(State()), key.value) else old(State())
    {
      if key.None? || value.None? {
        return Failure(NullPointer);
      }
      var hit := Lookup(entries, key.value) == value;
      if hit {
        RemoveKeepsInv(State(), key.value, maximumCacheSize, queueThreshold);
        entries := entries - {key.value};
      }
      r := Success(hit);
    }

    /** clear: no entries and an empty queue; the consumer is not called. */
    method Clear()
      requires Valid()
      modifies this`entries, this`changes
      ensures Valid()
      ensures State() == Cleared(old(State()))
    {
      entries, changes := map[], [];
    }

    /** An entry's setValue, for an entry of the live entry set: a write of a present key. */
    method SetValue(key: K, value: Option<V>) returns (r: Result<V, Error>)
      requires Valid() && key in entries
      modifies this`entries, this`changes, this`consumed, this`history
      ensures Valid()
      ensures value.None? ==> r == Failure(NullPointer) && State() == old(State())
      ensures value.Some? ==>
                r == Success(old(entries)[key]) &&
                State() == Write(old(State()), key, value.value, maximumCacheSize, queueThreshold)
    {
      if value.None? {
        return Failure(NullPointer);
      }
      r := Success(entries[key]);
      Store(key, value.value);
    }

    // -------------------------------------------------------------------------------------
    // Reads: none of them records anything

    method Get(key: Option<K>) returns (r: Result<Option<V>, Error>)
      ensures key.None? ==> r == Failure(NullPointer)
      ensures key.Some? ==> r == Success(Lookup(entries, key.value))
    {
      if key.None? {
        return Failure(NullPointer);
      }
      r := Success(Lookup(entries, key.value));
    }

    method ContainsKey(key: Option<K>) returns (r: Result<bool, Error>)
      ensures key.None? ==> r == Failure(NullPointer)
      ensures key.Some? ==> r == Success(key.value in entries)
    {
      if key.None? {
        return Failure(NullPointer);
      }
      r := Success(key.value in entries);
    }

    method ContainsValue(value: Option<V>) returns (r: Result<bool, Error>)
      ensures value.None? ==> r == Failure(NullPointer)
      ensures value.Some? ==> r == Success(exists k :: k in entries && entries[k] == value.value)
    {
      if value.None? {
        return Failure(NullPointer);
      }
      r := Success(value.value in entries.Values);
    }

    method Size() returns (n: nat)
      ensures n == |entries|
    {
      n := |entries|;
    }

    method IsEmpty() returns (b: bool)
      ensures b <==> entries == map[]
    {
      b := |entries| == 0;
    }

    /** getQueueSize: the number of records in the change queue. */
    method QueueSize() returns (n: nat)
      ensures n == |changes|
    {
      n := |changes|;
    }
  }

  /** The entries of a map argument with no null key or value, or none when it holds one. */
  function NonNullEntries<K, V>(es: seq<(Option<K>, Option<V>)>): (r: Option<seq<(K, V)>>)
    ensures r.Some? <==> forall i :: 0 <= i < |es| ==> es[i].0.Some? && es[i].1.Some?
    ensures r.Some? ==> |r.value| == |es|
    ensures r.Some? ==> forall i :: 0 <= i < |es| ==> r.value[i] == (es[i].0.value, es[i].1.value)
  {
    if es == [] then Some([])
    else if es[0].0.None? || es[0].1.None? then None
    else
      var rest := NonNullEntries(es[1..]);
      if rest.None? then None else Some([(es[0].0.value, es[0].1.value)] + rest.value)
  }

  /** The constructor's check: a maximum size below one is an IllegalArgumentException. The
      initial capacity is a sizing hint without observable effect. */
  method Create<K(==), V(==)>(initialCapacity: int, maximumCacheSize: int, queueThreshold: nat)
    returns (r: Result<SimpleLRUCache<K, V>, Error>)
    ensures r.Failure? <==> maximumCacheSize <= 0
    ensures r.Failure? ==> r.error == IllegalArgument
    ensures r.Success? ==>
              fresh(r.value) && r.value.Valid() &&
              r.value.maximumCacheSize == maximumCacheSize && r.value.queueThreshold == queueThreshold &&
              r.value.State() == CacheState(map[], [], [], [])
  {
    if maximumCacheSize <= 0 {
      return Failure(IllegalArgument);
    }
    var cache := new SimpleLRUCache(maximumCacheSize, queueThreshold);
    r := Success(cache);
  }
}
