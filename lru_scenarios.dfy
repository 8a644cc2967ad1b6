/** The sequential scenarios of SimpleLRUCacheTest, replayed on the cache's state machine with
    the test's maximum size of 3 and any MINIMUM_QUEUE_SIZE. A scenario that needs many writes
    starts from the state the test has built by then, described by its entries and the keys it
    has written; the general lemmas of `LruModel` say how the earlier writes build it. */
module LruScenarios {
  import opened LruModel

  /** The state of a cache of maximum size 3 that holds `entries` after the writes of `history`,
      with nothing evicted yet. */
  ghost predicate Reached(s: CacheState<string, string>, threshold: nat,
                          entries: map<string, string>, history: seq<string>, evicted: seq<string>)
  {
    Inv(s, 3, threshold) && s.entries == entries && s.history == history && s.evicted == evicted
  }

  /** In a full cache of three keys, writing a new key evicts the key whose last write is the
      oldest of the three. */
  lemma OldestOfThreeEvicted(s: CacheState<string, string>, k: string, v: string, threshold: nat,
                             eldest: string, b: string, c: string)
    requires Inv(s, 3, threshold) && k !in s.entries
    requires s.entries.Keys == {eldest, b, c} && eldest != b && eldest != c && b != c
    requires LastIndex(s.history, eldest) < LastIndex(s.history, b)
    requires LastIndex(s.history, eldest) < LastIndex(s.history, c)
    ensures Write(s, k, v, 3, threshold).entries == s.entries[k := v] - {eldest}
    ensures Write(s, k, v, 3, threshold).evicted == s.evicted + [s.entries[eldest]]
  {
    assert |s.entries.Keys| == 3 by {
      assert s.entries.Keys == {eldest} + {b} + {c};
    }
    var victim := WriteEvictsEldest(s, k, v, 3, threshold);
    assert victim == eldest;
  }

  /** put: three keys fit; the fourth evicts "1", the oldest, and the consumer receives "One". */
  lemma PutFourthKeyEvictsFirst(s: CacheState<string, string>, threshold: nat)
    requires Reached(s, threshold, map["1" := "One", "2" := "Two", "3" := "Three"], ["1", "2", "3"], [])
    ensures Reached(Write(s, "4", "Four", 3, threshold), threshold,
                    map["2" := "Two", "3" := "Three", "4" := "Four"], ["1", "2", "3", "4"], ["One"])
  {
    LastIndexUnique(s.history, "1", 0);
    LastIndexUnique(s.history, "2", 1);
    LastIndexUnique(s.history, "3", 2);
    OldestOfThreeEvicted(s, "4", "Four", threshold, "1", "2", "3");
    WriteKeepsInv(s, "4", "Four", 3, threshold);
    OneMakesRoom(Write(s, "4", "Four", 3, threshold).entries);
  }

  // A fact about concrete map literals, split out to keep the scenario proof small; it has no
  // counterpart in the tests.
  lemma OneMakesRoom(after: map<string, string>)
    requires after == map["1" := "One", "2" := "Two", "3" := "Three"]["4" := "Four"] - {"1"}
    ensures after == map["2" := "Two", "3" := "Three", "4" := "Four"]
  {
  }

  /** put, continued: overwriting "2" in the full cache keeps the size and calls the consumer no
      more. */
  lemma PutPresentKeyEvictsNothing(s: CacheState<string, string>, threshold: nat)
    requires Reached(s, threshold, map["2" := "Two", "3" := "Three", "4" := "Four"], ["1", "2", "3", "4"], ["One"])
    ensures Reached(Write(s, "2", "Two v2", 3, threshold), threshold,
                    map["2" := "Two v2", "3" := "Three", "4" := "Four"], ["1", "2", "3", "4", "2"], ["One"])
  {
    WriteWithoutEviction(s, "2", "Two v2", 3, threshold);
    WriteKeepsInv(s, "2", "Two v2", 3, threshold);
    TwoOverwritten(Write(s, "2", "Two v2", 3, threshold).entries);
  }

  // A fact about concrete map literals, split out to keep the scenario proof small; it has no
  // counterpart in the tests.
  lemma TwoOverwritten(after: map<string, string>)
    requires after == map["2" := "Two", "3" := "Three", "4" := "Four"]["2" := "Two v2"]
    ensures after == map["2" := "Two v2", "3" := "Three", "4" := "Four"]
  {
  }

  /** The first three puts of the put test, from an empty cache, reach the state the put test
      continues from. */
  lemma PutThreeKeys(threshold: nat)
    ensures Reached(WriteAll(Empty(), [("1", "One"), ("2", "Two"), ("3", "Three")], 3, threshold), threshold,
                    map["1" := "One", "2" := "Two", "3" := "Three"], ["1", "2", "3"], [])
  {
    var ps := [("1", "One"), ("2", "Two"), ("3", "Three")];
    ThreePairs(ps);
    WriteAllWithinCapacity(Empty(), ps, 3, threshold);
    WriteAllKeepsInv(Empty(), ps, 3, threshold);
  }

  // A fact about concrete map literals, split out to keep the scenario proof small; it has no
  // counterpart in the tests.
  lemma ThreePairs(ps: seq<(string, string)>)
    requires ps == [("1", "One"), ("2", "Two"), ("3", "Three")]
    ensures KeysOf(ps) == {"1", "2", "3"} && KeySeq(ps) == ["1", "2", "3"]
    ensures Updated(map[], ps) == map["1" := "One", "2" := "Two", "3" := "Three"]
  {
    assert "1" == ps[0].0 && "2" == ps[1].0 && "3" == ps[2].0;
    assert KeySeq(ps)[0] == "1" && KeySeq(ps)[1] == "2" && KeySeq(ps)[2] == "3";
    var one, two := ps[..1], ps[..2];
    assert two[..1] == one && ps[..2] == two;
    assert Updated(map[], one) == map["1" := "One"];
    assert Updated(map[], two) == map["1" := "One", "2" := "Two"];
  }

  /** ensureEvictionOrdering: after "1" six times, "2", "1" and "3", the last write of "2" is
      the oldest, so inserting "4" evicts "2" and the consumer receives "Two". */
  lemma EnsureEvictionOrdering(s: CacheState<string, string>, threshold: nat)
    requires Reached(s, threshold, map["1" := "One", "2" := "Two", "3" := "Three"],
                     ["1", "1", "1", "1", "1", "1", "2", "1", "3"], [])
    ensures Write(s, "4", "Four", 3, threshold).entries == map["1" := "One", "3" := "Three", "4" := "Four"]
    ensures Write(s, "4", "Four", 3, threshold).evicted == ["Two"]
  {
    LastIndexUnique(s.history, "2", 6);
    LastIndexUnique(s.history, "1", 7);
    LastIndexUnique(s.history, "3", 8);
    OldestOfThreeEvicted(s, "4", "Four", threshold, "2", "1", "3");
    TwoMakesRoom(Write(s, "4", "Four", 3, threshold).entries);
  }

  // A fact about concrete map literals, split out to keep the scenario proof small; it has no
  // counterpart in the tests.
  lemma TwoMakesRoom(after: map<string, string>)
    requires after == map["1" := "One", "2" := "Two", "3" := "Three"]["4" := "Four"] - {"2"}
    ensures after == map["1" := "One", "3" := "Three", "4" := "Four"]
  {
  }

  /** ignoreDuplicates: a hundred puts to "1" leave one entry holding the last value. */
  lemma IgnoreDuplicates(values: seq<string>, threshold: nat)
    requires |values| == 100 && values[99] == "99"
    ensures WriteAll(Empty(), SameKey("1", values), 3, threshold).entries == map["1" := "99"]
    ensures WriteAll(Empty(), SameKey("1", values), 3, threshold).evicted == []
  {
    RepeatedWrites(Empty(), "1", values, 3, threshold);
  }

  /** ignoreDuplicates, continued: after "2" and "3", inserting "4" evicts "1" although it was
      written a hundred times, and the consumer receives its last value "99". */
  lemma IgnoreDuplicatesEvictsOldest(s: CacheState<string, string>, threshold: nat)
    requires Inv(s, 3, threshold) && s.evicted == []
    requires s.entries == map["1" := "99", "2" := "Two", "3" := "Three"]
    requires |s.history| == 102 && s.history[100..] == ["2", "3"]
    requires forall i :: 0 <= i < 100 ==> s.history[i] == "1"
    ensures Write(s, "4", "Four", 3, threshold).entries == map["2" := "Two", "3" := "Three", "4" := "Four"]
    ensures Write(s, "4", "Four", 3, threshold).evicted == ["99"]
  {
    LastIndexUnique(s.history, "1", 99);
    LastIndexUnique(s.history, "2", 100);
    LastIndexUnique(s.history, "3", 101);
    OldestOfThreeEvicted(s, "4", "Four", threshold, "1", "2", "3");
    NinetyNineMakesRoom(Write(s, "4", "Four", 3, threshold).entries);
  }

  // A fact about concrete map literals, split out to keep the scenario proof small; it has no
  // counterpart in the tests.
  lemma NinetyNineMakesRoom(after: map<string, string>)
    requires after == map["1" := "99", "2" := "Two", "3" := "Three"]["4" := "Four"] - {"1"}
    ensures after == map["2" := "Two", "3" := "Three", "4" := "Four"]
  {
  }

  /** queueSize: with MINIMUM_QUEUE_SIZE at least 4, the queue holds the records 1, 1, 2, 3
      before "4" is inserted; the eviction drops the stale first record together with the
      victim's, so the queue is back at 3, the size of the cache. */
  lemma QueueSizeAfterEviction(s: CacheState<string, string>, threshold: nat)
    requires threshold >= 4
    requires Inv(s, 3, threshold) && s.changes == ["1", "1", "2", "3"]
    requires s.entries == map["1" := "B", "2" := "A", "3" := "A"]
    ensures |Write(s, "4", "A", 3, threshold).entries| == 3
    ensures |Write(s, "4", "A", 3, threshold).changes| == 3
  {
    var stored := Stored(s, "4", "A");
    FourthRecordEvictsFirst(stored);
    assert Write(s, "4", "A", 3, threshold) == Trim(Evict(stored), threshold);
  }

  /** The queue "1","1","2","3","4" over live keys "1".."4": both records of "1" go, and with
      them the key "1". A step of `QueueSizeAfterEviction`, split out to keep its proof small. */
  lemma FourthRecordEvictsFirst(stored: CacheState<string, string>)
    requires stored.changes == ["1", "1", "2", "3", "4"]
    requires stored.entries.Keys == {"1", "2", "3", "4"}
    ensures |Evict(stored).entries| == 3
    ensures Evict(stored).changes == ["2", "3", "4"]
  {
    assert !IsCurrent(stored.changes, 0, stored.entries.Keys);
    assert IsCurrent(stored.changes, 1, stored.entries.Keys);
    EvictAt(stored, 1);
    assert Evict(stored).entries.Keys == {"2", "3", "4"};
  }

  /** putIfAbsent: a present "2" is not rewritten, so after "1".."4" (which evicted "1") the key
      "2" is the oldest, and inserting "5" evicts it; the consumer receives "Two". */
  lemma PutIfAbsentKeepsAge(s: CacheState<string, string>, threshold: nat)
    requires Reached(s, threshold, map["2" := "Two", "3" := "Three", "4" := "Four"], ["1", "2", "3", "4"], ["One"])
    ensures Write(s, "5", "Five", 3, threshold).entries == map["3" := "Three", "4" := "Four", "5" := "Five"]
    ensures Write(s, "5", "Five", 3, threshold).evicted == ["One", "Two"]
  {
    LastIndexUnique(s.history, "2", 1);
    LastIndexUnique(s.history, "3", 2);
    LastIndexUnique(s.history, "4", 3);
    OldestOfThreeEvicted(s, "5", "Five", threshold, "2", "3", "4");
    TwoMakesRoomForFive(Write(s, "5", "Five", 3, threshold).entries);
  }

  // A fact about concrete map literals, split out to keep the scenario proof small; it has no
  // counterpart in the tests.
  lemma TwoMakesRoomForFive(after: map<string, string>)
    requires after == map["2" := "Two", "3" := "Three", "4" := "Four"]["5" := "Five"] - {"2"}
    ensures after == map["3" := "Three", "4" := "Four", "5" := "Five"]
  {
  }
}
