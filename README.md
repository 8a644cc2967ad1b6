# Apache Camel: the SimpleLRUCache and the RoutesConfigurer decisions, in Dafny

This project models two parts of Apache Camel and proves what they promise.

**SimpleLRUCache** is a map with a maximum size. Keys and values must be non-null. When a new key
overflows the cache, the entry whose last write is oldest is evicted and its value is handed to an
eviction consumer. Every write appends a record to a change queue. Once the queue has grown past
`MINIMUM_QUEUE_SIZE`, it is compacted to one record per live key. The cache's implementation is
not part of this model; the behaviour modelled is the one its test class
`SimpleLRUCacheTest` pins down.

- `LruModel` is the cache as a state machine over values (entries, change queue, consumer log and
  a ghost history of writes). Its lemmas carry the cache's promises: the size bound, the choice of
  victim, the queue bookkeeping, and that removals never feed the consumer.
- `LruCache.SimpleLRUCache` is the cache as a class whose fields its methods update in place. Each
  public operation is proved to perform exactly the matching step of `LruModel`.
- `LruScenarios` replays, on the state machine with the tests' maximum size of 3, the eviction
  steps of the tests `put` (lines 162-181), `ignoreDuplicates` (432-452), `ensureEvictionOrdering`
  (454-472) and `putIfAbsent` (242-256), and the last write of `queueSize` (88-94), which it starts
  from the queue that test has built by then. The other tests are covered by the contracts of
  `LruCache` and the general lemmas of `LruModel`, not replayed step by step.

**RoutesConfigurer** (camel-main) discovers route builders and route resources and hands them to
the CamelContext. The model covers its decisions:

- `JavaStrings`: the `java.lang.String` operations the decisions use. These are `split` on a
  comma, with Java's rules (trailing empty pieces dropped, the whole string when there is no
  comma), `endsWith`, `contains`, `replace`, and the joining done by `StringJoiner`.
- `RoutesPatterns`:
  - `configureModeline`'s split of the include pattern into mandatory and `?optional=true` patterns;
  - the scans it then runs;
  - the include/exclude filter of the package scan.
- `RoutesModeline`:
  - the loader rule of `resolveRoutesBuilderLoader`;
  - the "java first" sort of `doConfigureModeline`;
  - its grouping of resources by loader.
- `RouteDiscovery`:
  - `DuplicateRouteDetector`;
  - the stable sort of route builders by order;
  - the three passes of `addDiscoveredRoutes`;
  - its duplicate-id check.

Java `null` is `Wrappers.None` and a thrown exception is a `Wrappers.Failure`.
`FileUtil.onlyExt`, the `RoutesLoader` lookup and `AntPathMatcher.anyMatch` are function
parameters, of which nothing is assumed.

## Model

| member | source | states |
|---|---|---|
| LruModel.Stored | core/camel-core/src/test/java/org/apache/camel/support/cache/SimpleLRUCacheTest.java:73-79 | a write stores the value under its key and appends one record to the change queue and to the history; the size and queue lemmas below rest on it |
| LruModel.Evict | core/camel-core/src/test/java/org/apache/camel/support/cache/SimpleLRUCacheTest.java:171-176 | eviction skips stale records at the head of the queue, removes the key of the first current one and hands its value to the consumer; `EvictRemovesEldest` proves this is the key with the oldest last write |
| LruModel.Compact | core/camel-core/src/test/java/org/apache/camel/support/cache/SimpleLRUCacheTest.java:80-82 | compaction keeps, in order, the last record of every live key; `CompactKeeps`, `CompactSize` and `CompactKeepsOrder` prove it |
| LruModel.Trim | core/camel-core/src/test/java/org/apache/camel/support/cache/SimpleLRUCacheTest.java:75-82 | the queue is compacted only once it holds more records than the threshold, so it grows by one per write up to the threshold |
| LruModel.Write | core/camel-core/src/test/java/org/apache/camel/support/cache/SimpleLRUCacheTest.java:162-184 | one write: store, evict the eldest when a new key overflows the maximum, then trim; `WriteKeepsInv`, `WriteEvictsEldest` and `WriteWithoutEviction` state its effect |
| LruModel.WriteAll | core/camel-core/src/test/java/org/apache/camel/support/cache/SimpleLRUCacheTest.java:186-207 | the writes of a sequence of entries in order, what putAll does; `WriteAllKeepsInv`, `WriteAllFreshKeys` and `WriteAllWithinCapacity` state its effect |
| LruModel.Removed | core/camel-core/src/test/java/org/apache/camel/support/cache/SimpleLRUCacheTest.java:133-143 | removal drops the key and touches neither the queue nor the consumer; `RemoveKeepsInv` states its effect |
| LruModel.Cleared | core/camel-core/src/test/java/org/apache/camel/support/cache/SimpleLRUCacheTest.java:209-216 | clear leaves no entries and an empty queue and does not feed the consumer |
| LruModel.FirstCurrent | core/camel-core/src/test/java/org/apache/camel/support/cache/SimpleLRUCacheTest.java:91-94 | the queue record eviction stops at is current (its key is live and no later record names it) and every record before it is stale |
| LruModel.EvictRemovesEldest | core/camel-core/src/test/java/org/apache/camel/support/cache/SimpleLRUCacheTest.java:454-472 | eviction removes exactly one live key, the one whose last record is oldest. Exactly its value goes to the consumer, and the queue keeps only the records after that key's last one |
| LruModel.CompactKeeps | core/camel-core/src/test/java/org/apache/camel/support/cache/SimpleLRUCacheTest.java:80-82 | compaction keeps a key iff it is live and has a record, and never lengthens the queue |
| LruModel.CompactSize | core/camel-core/src/test/java/org/apache/camel/support/cache/SimpleLRUCacheTest.java:80-82 | compaction leaves exactly one record per live key that has one |
| LruModel.CompactKeepsOrder | core/camel-core/src/test/java/org/apache/camel/support/cache/SimpleLRUCacheTest.java:80-82 | compaction keeps the order of the last records of live keys, so the eviction order survives it |
| LruModel.CompactCoherent | core/camel-core/src/test/java/org/apache/camel/support/cache/SimpleLRUCacheTest.java:80-82 | a compacted queue is as long as the cache is large and still agrees with the write history |
| LruModel.RemoveKeepsInv | core/camel-core/src/test/java/org/apache/camel/support/cache/SimpleLRUCacheTest.java:133-143 | removal keeps the invariant and leaves the consumer log and the queue alone. The key is gone, and the size drops by one iff the key was present |
| LruModel.WriteKeepsInv | core/camel-core/src/test/java/org/apache/camel/support/cache/SimpleLRUCacheTest.java:162-176 | every write keeps the size at most the maximum and the queue within its bound, and the queue stays in agreement with the history of writes |
| LruModel.WriteAllKeepsInv | core/camel-core/src/test/java/org/apache/camel/support/cache/SimpleLRUCacheTest.java:186-205 | any sequence of writes keeps the invariant |
| LruModel.WriteEvictsEldest | core/camel-core/src/test/java/org/apache/camel/support/cache/SimpleLRUCacheTest.java:162-176 | a new key written into a full cache evicts exactly the key whose last write is oldest. The consumer receives that key's value, and the size stays at the maximum |
| LruModel.WriteWithoutEviction | core/camel-core/src/test/java/org/apache/camel/support/cache/SimpleLRUCacheTest.java:177-181 | overwriting a present key (or adding one while there is room) stores the value, evicts nothing and adds one queue record, or compacts once past the threshold |
| LruModel.WriteEvictionShortensQueue | core/camel-core/src/test/java/org/apache/camel/support/cache/SimpleLRUCacheTest.java:91-94 | a write that evicts never lengthens the queue |
| LruModel.WriteFreshKey | core/camel-core/src/test/java/org/apache/camel/support/cache/SimpleLRUCacheTest.java:164-176 | a new key either fills a free place or evicts exactly one value |
| LruModel.WriteAllFreshKeys | core/camel-core/src/test/java/org/apache/camel/support/cache/SimpleLRUCacheTest.java:186-205 | writing n distinct new keys leaves min(maximum, size + n) entries and feeds the consumer the overflow count |
| LruModel.WriteAllWithinCapacity | core/camel-core/src/test/java/org/apache/camel/support/cache/SimpleLRUCacheTest.java:164-171 | while every key written fits, the cache behaves as a plain map and feeds the consumer nothing |
| LruModel.RepeatedWrites | core/camel-core/src/test/java/org/apache/camel/support/cache/SimpleLRUCacheTest.java:432-439 | writing one key over and over leaves it holding the last value, with no growth and no eviction |
| LruCache.SimpleLRUCache.constructor | core/camel-core/src/test/java/org/apache/camel/support/cache/SimpleLRUCacheTest.java:49-50 | a new cache is empty, with an empty queue and consumer log |
| LruCache.SimpleLRUCache.EvictEldest | core/camel-core/src/test/java/org/apache/camel/support/cache/SimpleLRUCacheTest.java:172-176 | popping queue records up to the first current one performs the model's eviction |
| LruCache.SimpleLRUCache.CompactChanges | core/camel-core/src/test/java/org/apache/camel/support/cache/SimpleLRUCacheTest.java:80-82 | the in-place compaction loop leaves the model's compacted queue |
| LruCache.SimpleLRUCache.Store | core/camel-core/src/test/java/org/apache/camel/support/cache/SimpleLRUCacheTest.java:162-181 | a store performs the model's write and keeps the invariant |
| LruCache.SimpleLRUCache.Put | core/camel-core/src/test/java/org/apache/camel/support/cache/SimpleLRUCacheTest.java:162-184 | put returns the previous value and performs one write. A null key or value is a NullPointerException with no effect |
| LruCache.SimpleLRUCache.PutAll | core/camel-core/src/test/java/org/apache/camel/support/cache/SimpleLRUCacheTest.java:186-207 | putAll performs the writes of the given entries in order. A null map, or one holding a null key or value, is a NullPointerException with no effect |
| LruCache.SimpleLRUCache.StoreAll | core/camel-core/src/test/java/org/apache/camel/support/cache/SimpleLRUCacheTest.java:186-205 | the write loop of putAll leaves exactly `WriteAll` of the entries, in order |
| LruCache.NonNullEntries | core/camel-core/src/test/java/org/apache/camel/support/cache/SimpleLRUCacheTest.java:186-207 | the entries of a map argument are usable iff no key or value is null, and then they are exactly its pairs, in order |
| LruCache.SimpleLRUCache.PutIfAbsent | core/camel-core/src/test/java/org/apache/camel/support/cache/SimpleLRUCacheTest.java:232-259 | a present key keeps its value and records no write, so it keeps its age. An absent key is written. Nulls are rejected with no effect |
| LruCache.SimpleLRUCache.ComputeIfAbsent | core/camel-core/src/test/java/org/apache/camel/support/cache/SimpleLRUCacheTest.java:261-297 | a present key keeps its value. A null from the function inserts nothing; otherwise the value is written and returned. Nulls are rejected |
| LruCache.SimpleLRUCache.ComputeIfPresent | core/camel-core/src/test/java/org/apache/camel/support/cache/SimpleLRUCacheTest.java:299-324 | an absent key stays absent. A present key gets the function's value, and a null from the function removes it without calling the consumer |
| LruCache.SimpleLRUCache.Compute | core/camel-core/src/test/java/org/apache/camel/support/cache/SimpleLRUCacheTest.java:326-352 | the function's value is written. A null removes the key without calling the consumer. Nulls are rejected |
| LruCache.SimpleLRUCache.Merge | core/camel-core/src/test/java/org/apache/camel/support/cache/SimpleLRUCacheTest.java:354-378 | an absent key gets the value; a present one gets the function of both values. A null result removes the key. Nulls are rejected |
| LruCache.SimpleLRUCache.Replace | core/camel-core/src/test/java/org/apache/camel/support/cache/SimpleLRUCacheTest.java:380-401 | only a present key is written, and the previous value is returned. Nulls are rejected |
| LruCache.SimpleLRUCache.ReplaceIfEquals | core/camel-core/src/test/java/org/apache/camel/support/cache/SimpleLRUCacheTest.java:403-430 | succeeds, and writes, iff the key maps to the expected value. Nulls are rejected |
| LruCache.SimpleLRUCache.ReplaceAll | core/camel-core/src/test/java/org/apache/camel/support/cache/SimpleLRUCacheTest.java:218-230 | performs `WriteAll` of one write per live key, each the function of its key and old value, in the entry set's order, so each key gets one record and nothing is evicted. It succeeds iff the function is non-null and gives a value for every key; a null result throws after the writes before it, and a null function changes nothing |
| LruCache.SimpleLRUCache.Remove | core/camel-core/src/test/java/org/apache/camel/support/cache/SimpleLRUCacheTest.java:133-143 | returns the removed value, if any, and never calls the consumer. A null key is rejected |
| LruCache.SimpleLRUCache.RemoveIfEquals | core/camel-core/src/test/java/org/apache/camel/support/cache/SimpleLRUCacheTest.java:145-160 | removes iff the key maps to the value, without calling the consumer. Nulls are rejected |
| LruCache.SimpleLRUCache.Clear | core/camel-core/src/test/java/org/apache/camel/support/cache/SimpleLRUCacheTest.java:209-216 | no entries and an empty queue remain, and the consumer is not called |
| LruCache.SimpleLRUCache.SetValue | core/camel-core/src/test/java/org/apache/camel/support/cache/SimpleLRUCacheTest.java:59-70 | an entry's setValue is a write of a present key: same size, one more queue record. A null value is rejected with no effect |
| LruCache.SimpleLRUCache.Get | core/camel-core/src/test/java/org/apache/camel/support/cache/SimpleLRUCacheTest.java:59-70 | get returns the stored value and changes nothing, the queue included; a null key is rejected |
| LruCache.SimpleLRUCache.ContainsKey | core/camel-core/src/test/java/org/apache/camel/support/cache/SimpleLRUCacheTest.java:113-121 | true iff the key is live. A null key is rejected |
| LruCache.SimpleLRUCache.ContainsValue | core/camel-core/src/test/java/org/apache/camel/support/cache/SimpleLRUCacheTest.java:123-131 | true iff some live key maps to the value. A null value is rejected |
| LruCache.SimpleLRUCache.Size | core/camel-core/src/test/java/org/apache/camel/support/cache/SimpleLRUCacheTest.java:97-102 | the number of entries |
| LruCache.SimpleLRUCache.IsEmpty | core/camel-core/src/test/java/org/apache/camel/support/cache/SimpleLRUCacheTest.java:104-111 | true iff there are no entries |
| LruCache.SimpleLRUCache.QueueSize | core/camel-core/src/test/java/org/apache/camel/support/cache/SimpleLRUCacheTest.java:72-95 | the number of records in the change queue |
| LruCache.Create | core/camel-core/src/test/java/org/apache/camel/support/cache/SimpleLRUCacheTest.java:474-479 | construction fails with IllegalArgumentException iff the maximum size is at most 0; otherwise the cache is empty |
| LruScenarios.OldestOfThreeEvicted | core/camel-core/src/test/java/org/apache/camel/support/cache/SimpleLRUCacheTest.java:454-472 | in a full cache of three keys, a new key evicts the one whose last write is the oldest of the three, and the consumer gets its value |
| LruScenarios.PutThreeKeys | core/camel-core/src/test/java/org/apache/camel/support/cache/SimpleLRUCacheTest.java:164-171 | the first three puts from an empty cache leave the three entries and no evictions |
| LruScenarios.PutFourthKeyEvictsFirst | core/camel-core/src/test/java/org/apache/camel/support/cache/SimpleLRUCacheTest.java:172-176 | the fourth key evicts "1", and the consumer receives "One" |
| LruScenarios.PutPresentKeyEvictsNothing | core/camel-core/src/test/java/org/apache/camel/support/cache/SimpleLRUCacheTest.java:177-181 | overwriting "2" keeps three entries, stores "Two v2" and calls the consumer no more |
| LruScenarios.EnsureEvictionOrdering | core/camel-core/src/test/java/org/apache/camel/support/cache/SimpleLRUCacheTest.java:454-472 | after "1" six times, then "2", "1", "3", inserting "4" evicts "2" and the consumer receives "Two" |
| LruScenarios.IgnoreDuplicates | core/camel-core/src/test/java/org/apache/camel/support/cache/SimpleLRUCacheTest.java:432-439 | a hundred puts to "1" leave one entry, holding "99", and no eviction |
| LruScenarios.IgnoreDuplicatesEvictsOldest | core/camel-core/src/test/java/org/apache/camel/support/cache/SimpleLRUCacheTest.java:440-452 | after "2" and "3", inserting "4" evicts "1" and the consumer receives "99" |
| LruScenarios.QueueSizeAfterEviction | core/camel-core/src/test/java/org/apache/camel/support/cache/SimpleLRUCacheTest.java:88-94 | with the queue holding 1, 1, 2, 3, inserting "4" leaves three entries and a queue of three records |
| LruScenarios.PutIfAbsentKeepsAge | core/camel-core/src/test/java/org/apache/camel/support/cache/SimpleLRUCacheTest.java:242-256 | since putIfAbsent left "2" unwritten, inserting "5" evicts "2", and the consumer has received "One" then "Two" |
| JavaStrings.Pieces | core/camel-main/src/main/java/org/apache/camel/main/RoutesConfigurer.java:411 | all the pieces between the commas, empty ones included; `JoinPieces` and `PiecesJoin` prove it inverse to `Join` |
| JavaStrings.Split | core/camel-main/src/main/java/org/apache/camel/main/RoutesConfigurer.java:411 | String.split on a comma: the whole string without a comma, else the pieces with trailing empty ones dropped; `SplitIsPrefixOfPieces` and `SplitJoin` characterise it |
| JavaStrings.Join | core/camel-main/src/main/java/org/apache/camel/main/RoutesConfigurer.java:409-419 | StringJoiner's text: the parts separated by commas; `JoinEmpty` gives when it is empty |
| JavaStrings.ReplaceChar | core/camel-main/src/main/java/org/apache/camel/main/RoutesConfigurer.java:235 | every '.' of a class name becomes '/', and nothing else changes |
| JavaStrings.DropTrailingEmpty | core/camel-main/src/main/java/org/apache/camel/main/RoutesConfigurer.java:411 | split keeps a prefix of the pieces that does not end in an empty piece, and drops only empty ones |
| JavaStrings.JoinPieces | core/camel-main/src/main/java/org/apache/camel/main/RoutesConfigurer.java:411 | joining the pieces of a string with the separator gives the string back |
| JavaStrings.PiecesJoin | core/camel-main/src/main/java/org/apache/camel/main/RoutesConfigurer.java:411 | the pieces of a join of separator-free parts are those parts |
| JavaStrings.SplitIsPrefixOfPieces | core/camel-main/src/main/java/org/apache/camel/main/RoutesConfigurer.java:224-225 | split gives the pieces up to the last non-empty one; no part holds the separator |
| JavaStrings.SplitJoin | core/camel-main/src/main/java/org/apache/camel/main/RoutesConfigurer.java:224-225 | splitting a comma join gives the parts back, unless the join ends in empty parts |
| JavaStrings.JoinEmpty | core/camel-main/src/main/java/org/apache/camel/main/RoutesConfigurer.java:418-419 | a joiner's text is empty iff it holds no part or a single empty one |
| JavaStrings.SplitPartEndsWith | core/camel-main/src/main/java/org/apache/camel/main/RoutesConfigurer.java:408-412 | a split part that ends in the marker shows that the whole pattern contains it |
| RoutesPatterns.Mandatory | core/camel-main/src/main/java/org/apache/camel/main/RoutesConfigurer.java:411-416 | the split parts without the marker, in order; `MandatoryMembers` characterises them |
| RoutesPatterns.Optional | core/camel-main/src/main/java/org/apache/camel/main/RoutesConfigurer.java:411-416 | the split parts with the marker, cut off, in order; `OptionalMembers` characterises them |
| RoutesPatterns.SplitIncludePattern | core/camel-main/src/main/java/org/apache/camel/main/RoutesConfigurer.java:404-420 | the mandatory and optional patterns configureModeline derives, null when a joiner is empty; `SplitOptionalPatterns` is proved to compute it |
| RoutesPatterns.ModelineScans | core/camel-main/src/main/java/org/apache/camel/main/RoutesConfigurer.java:396-439 | the scans configureModeline runs, in order; the scan lemmas below state their shape |
| RoutesPatterns.ScanEnabled | core/camel-main/src/main/java/org/apache/camel/main/RoutesConfigurer.java:223-228 | the package scan runs unless the include pattern is literally "false" |
| RoutesPatterns.Accepted | core/camel-main/src/main/java/org/apache/camel/main/RoutesConfigurer.java:233-243 | the include/exclude filter on a class path; `ExcludeTakesPrecedence` and `IncludeDecides` state its two rules |
| RoutesPatterns.ScannedClasses | core/camel-main/src/main/java/org/apache/camel/main/RoutesConfigurer.java:229-243 | the found classes the filter keeps, in order; `ScannedMembers` characterises them |
| RoutesPatterns.Unmarked | core/camel-main/src/main/java/org/apache/camel/main/RoutesConfigurer.java:412-413 | cutting 14 characters off an optional pattern removes exactly the "?optional=true" marker |
| RoutesPatterns.Joined | core/camel-main/src/main/java/org/apache/camel/main/RoutesConfigurer.java:418-419 | a joiner yields null iff its text is empty, that is, iff it holds no pattern or one empty pattern |
| RoutesPatterns.SplitOptionalPatterns | core/camel-main/src/main/java/org/apache/camel/main/RoutesConfigurer.java:406-420 | the split loop yields the joined mandatory patterns and the joined unmarked optional patterns |
| RoutesPatterns.SplitDistributes | core/camel-main/src/main/java/org/apache/camel/main/RoutesConfigurer.java:411-417 | the split goes pattern by pattern, so both lists keep the patterns' order |
| RoutesPatterns.SplitCount | core/camel-main/src/main/java/org/apache/camel/main/RoutesConfigurer.java:411-417 | every pattern lands in exactly one of the two lists |
| RoutesPatterns.MandatoryMembers | core/camel-main/src/main/java/org/apache/camel/main/RoutesConfigurer.java:414-415 | a pattern is mandatory iff it is one of the patterns and has no marker |
| RoutesPatterns.OptionalMembers | core/camel-main/src/main/java/org/apache/camel/main/RoutesConfigurer.java:412-413 | a pattern is optional iff it, followed by the marker, is one of the patterns |
| RoutesPatterns.NoOptional | core/camel-main/src/main/java/org/apache/camel/main/RoutesConfigurer.java:411-417 | without marked patterns, the optional list is empty and the mandatory list is all of them |
| RoutesPatterns.GuardOnlySavesWork | core/camel-main/src/main/java/org/apache/camel/main/RoutesConfigurer.java:408 | the `contains` guard only saves work: a pattern without the marker would give no optional pattern and keep all its parts |
| RoutesPatterns.ConfigureModelineScans | core/camel-main/src/main/java/org/apache/camel/main/RoutesConfigurer.java:396-439 | the scans configureModeline runs are the model's scan plan |
| RoutesPatterns.UnmarkedPatternScannedWhole | core/camel-main/src/main/java/org/apache/camel/main/RoutesConfigurer.java:424-427 | without the marker, one mandatory scan uses the include pattern exactly as configured |
| RoutesPatterns.OptionalScanFirst | core/camel-main/src/main/java/org/apache/camel/main/RoutesConfigurer.java:428-439 | at most two scans, and only the first can be optional. An optional scan always carries a pattern, so a mandatory scan is the only one that can run without a pattern |
| RoutesPatterns.OptionalScanWhenMarked | core/camel-main/src/main/java/org/apache/camel/main/RoutesConfigurer.java:408-439 | a marked pattern gives an optional scan iff its optional list, with the markers cut, is neither empty nor a single empty pattern |
| RoutesPatterns.MarkerAloneScansWithoutPattern | core/camel-main/src/main/java/org/apache/camel/main/RoutesConfigurer.java:408-427 | the marker alone gives neither part: the one scan is mandatory and has no include pattern |
| RoutesPatterns.PackageScan | core/camel-main/src/main/java/org/apache/camel/main/RoutesConfigurer.java:223-243 | the package-scan loop keeps exactly the accepted classes, in the order found |
| RoutesPatterns.ScannedMembers | core/camel-main/src/main/java/org/apache/camel/main/RoutesConfigurer.java:223-243 | a class is kept iff scanning is on (the include pattern is not literally "false"), the class was found and it passes the filter |
| RoutesPatterns.ExcludeTakesPrecedence | core/camel-main/src/main/java/org/apache/camel/main/RoutesConfigurer.java:234-239 | a class matching a non-"false" exclude pattern is dropped whatever the includes say |
| RoutesPatterns.IncludeDecides | core/camel-main/src/main/java/org/apache/camel/main/RoutesConfigurer.java:240-243 | a class that is not excluded is kept iff there is no (or a "false") include pattern or it matches one |
| RoutesModeline.LoaderOf | core/camel-main/src/main/java/org/apache/camel/main/RoutesConfigurer.java:538-545 | the loader registered for a resource's extension, none without an extension |
| RoutesModeline.CompareAsWritten | core/camel-main/src/main/java/org/apache/camel/main/RoutesConfigurer.java:453-462 | the comparator as written; `AsWrittenBreaksComparatorContract` shows it is not antisymmetric |
| RoutesModeline.CompareJavaFirst | core/camel-main/src/main/java/org/apache/camel/main/RoutesConfigurer.java:453-462 | the corrected comparator; `JavaFirstIsComparator` proves it a comparator |
| RoutesModeline.JavaFirst | core/camel-main/src/main/java/org/apache/camel/main/RoutesConfigurer.java:451-462 | the java resources first, then the others, each in input order; `JavaFirstSorted` and `JavaFirstIsStable` prove it |
| RoutesModeline.Grouped | core/camel-main/src/main/java/org/apache/camel/main/RoutesConfigurer.java:464-479 | the LinkedHashMap of loader groups the loop builds; `GroupMembers`, `GroupsWellFormed` and `GroupsInFirstSeenOrder` characterise it |
| RoutesModeline.ResolveLoader | core/camel-main/src/main/java/org/apache/camel/main/RoutesConfigurer.java:532-551 | a missing loader is an IllegalArgumentException naming the extension iff the resource is not optional. Otherwise the result is the loader registered for the extension, or null |
| RoutesModeline.AsWrittenBreaksComparatorContract | core/camel-main/src/main/java/org/apache/camel/main/RoutesConfigurer.java:453-462 | the comparator as written returns -1 both ways round for two java resources, so it is not antisymmetric |
| RoutesModeline.JavaFirstIsComparator | core/camel-main/src/main/java/org/apache/camel/main/RoutesConfigurer.java:451-462 | the intended comparator is antisymmetric and transitive, and ranks a resource strictly first iff it is java and the other is not |
| RoutesModeline.JavaFirstSorted | core/camel-main/src/main/java/org/apache/camel/main/RoutesConfigurer.java:451-462 | java first is sorted under the intended comparator |
| RoutesModeline.JavaFirstIsStable | core/camel-main/src/main/java/org/apache/camel/main/RoutesConfigurer.java:451-462 | java first is a permutation of the resources in which each kind keeps its order, as a stable sort gives |
| RoutesModeline.JavaFirstMembers | core/camel-main/src/main/java/org/apache/camel/main/RoutesConfigurer.java:452 | sorting neither loses nor adds resources |
| RoutesModeline.GroupedStep | core/camel-main/src/main/java/org/apache/camel/main/RoutesConfigurer.java:470-475 | a resource with a loader joins its loader's group, and the group is opened at the end when the loader is new |
| RoutesModeline.GroupsWellFormed | core/camel-main/src/main/java/org/apache/camel/main/RoutesConfigurer.java:465-479 | each loader has one group, and a loader has a group iff some resource needs it |
| RoutesModeline.GroupMembers | core/camel-main/src/main/java/org/apache/camel/main/RoutesConfigurer.java:465-479 | each group holds exactly the resources of its loader, in input order. A resource without a loader is in no group |
| RoutesModeline.ForLoaderMembers | core/camel-main/src/main/java/org/apache/camel/main/RoutesConfigurer.java:470-475 | a resource belongs to a loader's group iff it is one of the resources and resolves to that loader |
| RoutesModeline.GroupsInFirstSeenOrder | core/camel-main/src/main/java/org/apache/camel/main/RoutesConfigurer.java:465-479 | the groups come in the order their loaders were first needed |
| RoutesModeline.JavaGroupFirst | core/camel-main/src/main/java/org/apache/camel/main/RoutesConfigurer.java:451-479 | when there is a java resource and a loader for "java", the java group comes first |
| RoutesModeline.GroupInOrder | core/camel-main/src/main/java/org/apache/camel/main/RoutesConfigurer.java:465-479 | the grouping loop fails iff the resources are not optional and one has no loader, with the error of the first resource without a loader (lines 546-549); otherwise it yields the groups in the order their loaders first occur |
| RoutesModeline.GroupResources | core/camel-main/src/main/java/org/apache/camel/main/RoutesConfigurer.java:451-479 | fails iff the resources are not optional and one has no loader, with the error of the first such resource in java-first order. Otherwise it returns the groups of the java-first order |
| RouteDiscovery.Keys | core/camel-main/src/main/java/org/apache/camel/main/RoutesConfigurer.java:565-583 | the keys the detector records for a list of definitions, in order |
| RouteDiscovery.Frequency | core/camel-main/src/main/java/org/apache/camel/main/RoutesConfigurer.java:381 | Collections.frequency; `FrequencyIsMultiplicity` proves it the multiplicity |
| RouteDiscovery.Duplicates | core/camel-main/src/main/java/org/apache/camel/main/RoutesConfigurer.java:379-383 | the ids occurring more than once; `DuplicateMeansTwice` and `NoDuplicatesMeansDistinct` characterise them |
| RouteDiscovery.SortByOrder | core/camel-main/src/main/java/org/apache/camel/main/RoutesConfigurer.java:331 | the sort by order; `SortByOrderIsStableSort` proves it a stable sort |
| RouteDiscovery.DiscoveryCalls | core/camel-main/src/main/java/org/apache/camel/main/RoutesConfigurer.java:336-376 | the context calls of the three passes; `PassesInOrder`, `BuilderAddedAt` and `ConfigurationsAdded` characterise them |
| RouteDiscovery.RouteKey | core/camel-main/src/main/java/org/apache/camel/main/RoutesConfigurer.java:566-582 | no key for a null or empty id or an inlined route. Otherwise the key is the id followed by the node prefix id, with null read as "" |
| RouteDiscovery.DuplicateRouteDetector.constructor | core/camel-main/src/main/java/org/apache/camel/main/RoutesConfigurer.java:553-555 | a new detector holds no ids |
| RouteDiscovery.DuplicateRouteDetector.Clear | core/camel-main/src/main/java/org/apache/camel/main/RoutesConfigurer.java:557-559 | clear empties the id list |
| RouteDiscovery.DuplicateRouteDetector.OnAddRouteDefinition | core/camel-main/src/main/java/org/apache/camel/main/RoutesConfigurer.java:565-583 | appends the definition's key if it has one, and changes nothing else |
| RouteDiscovery.FrequencyIsMultiplicity | core/camel-main/src/main/java/org/apache/camel/main/RoutesConfigurer.java:381 | Collections.frequency counts an id's occurrences: its multiplicity in the list |
| RouteDiscovery.DuplicateMeansTwice | core/camel-main/src/main/java/org/apache/camel/main/RoutesConfigurer.java:379-383 | an id is reported as a duplicate iff it occurs at two positions |
| RouteDiscovery.NoDuplicatesMeansDistinct | core/camel-main/src/main/java/org/apache/camel/main/RoutesConfigurer.java:379-387 | no duplicate is reported iff all collected ids are distinct |
| RouteDiscovery.SortByOrderIsStableSort | core/camel-main/src/main/java/org/apache/camel/main/RoutesConfigurer.java:331 | sorting the builders by order gives a sorted permutation in which builders of equal order keep their order |
| RouteDiscovery.ConfigurationCallsMembers | core/camel-main/src/main/java/org/apache/camel/main/RoutesConfigurer.java:336-349 | the first pass adds exactly the route configurations builders |
| RouteDiscovery.PassesInOrder | core/camel-main/src/main/java/org/apache/camel/main/RoutesConfigurer.java:336-376 | every route configurations call precedes every addRoutes call, which precedes every addTemplatedRoutes call |
| RouteDiscovery.BuilderAddedAt | core/camel-main/src/main/java/org/apache/camel/main/RoutesConfigurer.java:350-375 | the i-th builder in sorted order makes the i-th addRoutes call of the second pass and the i-th addTemplatedRoutes call of the third, after all route configurations calls |
| RouteDiscovery.ConfigurationsAdded | core/camel-main/src/main/java/org/apache/camel/main/RoutesConfigurer.java:336-349 | every route configurations builder is handed to addRoutesConfigurations |
| RouteDiscovery.RoutesConfigurer.ReportDefinitions | core/camel-main/src/main/java/org/apache/camel/main/RoutesConfigurer.java:565-583 | reporting definitions to the detector appends exactly their keys, in order |
| RouteDiscovery.RoutesConfigurer.AddConfigurations | core/camel-main/src/main/java/org/apache/camel/main/RoutesConfigurer.java:336-349 | the first loop makes exactly the first pass's calls |
| RouteDiscovery.RoutesConfigurer.AddRoutesOfAll | core/camel-main/src/main/java/org/apache/camel/main/RoutesConfigurer.java:350-362 | the second loop makes the addRoutes calls, and the detector records the keys of the builders' routes |
| RouteDiscovery.RoutesConfigurer.AddTemplatedRoutesOfAll | core/camel-main/src/main/java/org/apache/camel/main/RoutesConfigurer.java:363-375 | the third loop makes the addTemplatedRoutes calls, and the detector records the keys of the templated routes |
| RouteDiscovery.RoutesConfigurer.AddInPasses | core/camel-main/src/main/java/org/apache/camel/main/RoutesConfigurer.java:333-376 | clears the detector, then makes exactly the three passes' calls in order, and leaves the detector holding the keys of the routes, then of the templated routes |
| RouteDiscovery.RoutesConfigurer.AddDiscoveredRoutes | core/camel-main/src/main/java/org/apache/camel/main/RoutesConfigurer.java:329-388 | sorts, clears the detector, then makes the three passes over the sorted builders, so the detector holds only this call's keys. It fails iff an id occurs twice, naming exactly the duplicated ids |

## Left out

- The concurrent tests of SimpleLRUCacheTest (lines 481-538). The model is sequential, and each
  operation is atomic.
- The cache's locks, its deque type and the value of `MINIMUM_QUEUE_SIZE`, none of which the tests
  show. The threshold is a constructor parameter.
- The views of the cache (`values()`, `keySet()`, `entrySet()`) and their refusal of `add`
  (lines 52-57). Only an entry's `setValue` is modelled.
- LruCache.SimpleLRUCache.PutAll takes its entries as a sequence of possibly-null pairs: the
  iteration order of the caller's map, and so the order of the records these writes append, is a
  parameter. Every entry is checked for a null key or value before anything is written, following
  the cache's rule that a rejected argument has no effect; the implementation itself is not part of
  this model.
- LruCache.SimpleLRUCache.ReplaceAll visits the live keys in an order it chooses, as the entry set's
  iteration order is not specified; it returns that order, with the values written, as a ghost
  result.
- LruCache.SimpleLRUCache.SetValue requires the key to be live, since an entry can only be had from
  the live entry set. A stale entry is not modelled.
- Exceptions thrown by the functions passed to the compute family and to replaceAll are not
  modelled; those functions are total. Their null results are modelled.
- The LruScenarios lemmas that continue a test start from the state the test has built by then,
  stated as entries and write history; `PutThreeKeys` and the general lemmas of `LruModel` show how
  such states are reached.
- RoutesConfigurer's loading of route builders is not modelled: class resolution, the injector, the
  package-scan class lookup itself, the registry and directory collectors (lines 160-321). Of the
  package scan only the include/exclude filter is modelled.
- The bean post-processor, the startup step recorder and logging are not modelled.
- The parsing of modelines and `preParseRoutes` are not modelled (lines 481-528). Grouping stops at
  the groups.
- The CamelContext is a log of calls. The route definitions it adds from a builder are the
  builder's own fields, and it reports each of them to the detector. What the context does beyond
  that is not part of this model.
- RouteDiscovery.RoutesConfigurer.AddDiscoveredRoutes does not model the exceptions a context call
  can throw, nor `ignoreLoadingError`. Every call succeeds.
- RouteDiscovery.RoutesConfigurer.AddDiscoveredRoutes returns the set of duplicate ids. The order
  in which the exception message joins them is the set's iteration order and is not modelled.
- RouteDiscovery.SortByOrder takes each builder's `Ordered` value as a field. OrderedComparator's
  reading of builders that are not `Ordered` is not modelled.
- The error paths around `configureModeline` (the wrapping of exceptions into a runtime exception)
  are not modelled beyond the `Failure` of `GroupResources`.

## Findings

| source | as written | input that shows it | evidently intended | confidence | as-written member | corrected member |
|---|---|---|---|---|---|---|
| core/camel-main/src/main/java/org/apache/camel/main/RoutesConfigurer.java:453-462 | the "java first" comparator returns -1 whenever its first resource is a java file, whatever the second one is | two java resources a and b (or one compared with itself): compare(a, b) and compare(b, a) are both -1, so the comparator breaks the Comparator contract (sgn(compare(x, y)) == -sgn(compare(y, x))) that List.sort relies on. By a reading of TimSort (not executed): with fewer than 32 resources the binary insertion sort puts every java resource it inserts at index 0, and a leading run of java resources is reversed, so the java group comes out in reverse input order while the others keep theirs; with 32 or more, List.sort may throw "Comparison method violates its general contract!" | return 0 when both or neither are java, -1 when only the first is, 1 when only the second is: a stable "java first" partition | not executed | RoutesModeline.AsWrittenBreaksComparatorContract | RoutesModeline.JavaFirstIsComparator |

In the model the grouping uses the corrected ordering, `RoutesModeline.JavaFirst`. This is the java
resources, then the others, each kind in input order (`RoutesModeline.JavaFirstIsStable`).
