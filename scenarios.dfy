/** Callers of the cache of lru.go: each method builds a cache of capacity
    two and runs a short sequence of calls on it, showing that the contracts
    of `Get` and `Put` compose from one call to the next. */
module Scenarios {
  import opened Lru
  import opened LruSpec

  const X := CacheEntry(200, map[], [1])
  const Y := CacheEntry(200, map[], [2])
  const Z := CacheEntry(404, map[], [3])

  /** `Put(A); Put(B); Put(C)`: the third key evicts the first. */
  method EvictsLeastRecent() returns (keys: set<string>)
    ensures keys == {"B", "C"}
  {
    var c := new LRUCache(2);
    c.Put("A", X);
    c.Put("B", Y);
    c.Put("C", Z);
    keys := c.cache.Keys;
    assert keys == c.Contents().Keys;
    EvictsLeastRecentStates();
  }

  /** `Put(A); Put(B); Get(A); Put(C)`: the read promotes A, so B is the
      one evicted. */
  method ReadPromotes() returns (keys: set<string>)
    ensures keys == {"A", "C"}
  {
    var c := new LRUCache(2);
    c.Put("A", X);
    c.Put("B", Y);
    var _, _ := c.Get("A");
    c.Put("C", Z);
    keys := c.cache.Keys;
    assert keys == c.Contents().Keys;
    ReadPromotesStates();
  }

  /** `Put(A); Get(A); Get(Z)`: a hit returns the stored entry, a miss
      reports that nothing is stored. */
  method HitAndMiss() returns (hit: CacheEntry, foundA: bool, foundZ: bool)
    ensures hit == X && foundA && !foundZ
  {
    var c := new LRUCache(2);
    c.Put("A", X);
    hit, foundA := c.Get("A");
    var _, f := c.Get("Z");
    foundZ := f;
  }

  /** `Put(A, X); Put(A, Y); Get(A)`: the second value replaces the first
      and the cache still holds one key. */
  method Overwrite() returns (hit: CacheEntry, found: bool, size: nat)
    ensures hit == Y && found && size == 1
  {
    var c := new LRUCache(2);
    c.Put("A", X);
    c.Put("A", Y);
    hit, found := c.Get("A");
    size := |c.cache|;
    assert c.cache.Keys == c.Contents().Keys;
  }

  // ---------------------------------------------------------------------
  // The abstract states the scenarios pass through

  lemma EvictsLeastRecentStates()
    ensures AfterPut(AfterPut(AfterPut(Empty(), 2, "A", X), 2, "B", Y), 2, "C", Z).values.Keys == {"B", "C"}
  {
    var s1 := AfterPut(Empty(), 2, "A", X);
    assert s1 == State(["A"], map["A" := X]);
    var s2 := AfterPut(s1, 2, "B", Y);
    assert s2 == State(["A", "B"], map["A" := X, "B" := Y]);
    var s3 := AfterPut(s2, 2, "C", Z);
    assert s3.values == map["A" := X, "B" := Y, "C" := Z] - {"A"};
  }

  lemma ReadPromotesStates()
    ensures AfterPut(AfterGet(AfterPut(AfterPut(Empty(), 2, "A", X), 2, "B", Y), "A"), 2, "C", Z).values.Keys == {"A", "C"}
  {
    var s1 := AfterPut(Empty(), 2, "A", X);
    assert s1 == State(["A"], map["A" := X]);
    var s2 := AfterPut(s1, 2, "B", Y);
    assert s2 == State(["A", "B"], map["A" := X, "B" := Y]);
    var s3 := AfterGet(s2, "A");
    assert Without(["A", "B"], "A") == ["B"];
    assert s3 == State(["B", "A"], s2.values);
    var s4 := AfterPut(s3, 2, "C", Z);
    assert s4.values == map["A" := X, "B" := Y, "C" := Z] - {"B"};
  }
}
