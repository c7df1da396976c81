/** The abstract behaviour of the bounded LRU cache of lru.go.

    A cache state is its recency order (keys from least to most recently used)
    together with the stored value of each key. `AfterGet` and `AfterPut` say
    what one call of `Get` and `Put` does to that state; the class in lru.dfy
    is proved to follow them, and the lemmas here state what they guarantee. */
module LruSpec {

  datatype State<V> = State(order: seq<string>, values: map<string, V>)

  function Empty<V>(): State<V> { State([], map[]) }

  /** The largest number of keys a cache of this capacity retains. */
  function Bound(capacity: int): nat { if capacity < 0 then 0 else capacity }

  ghost predicate Distinct(s: seq<string>)
  {
    forall i, j :: 0 <= i < j < |s| ==> s[i] != s[j]
  }

  /** The invariant of a cache: the order lists every stored key exactly once
      and the number of keys is within the capacity. */
  ghost predicate Wf<V>(st: State<V>, capacity: int)
  {
    && Distinct(st.order)
    && (forall k :: k in st.values <==> k in st.order)
    && |st.values| <= Bound(capacity)
  }

  /** `s` with every occurrence of `k` taken out, the rest in their order. */
  function Without(s: seq<string>, k: string): (r: seq<string>)
    ensures forall x :: x in r <==> x in s && x != k
    ensures |r| <= |s|
  {
    if s == [] then []
    else if s[0] == k then Without(s[1..], k)
    else [s[0]] + Without(s[1..], k)
  }

  /** The order after `k` is moved to the most recently used end. */
  function Promote(order: seq<string>, k: string): seq<string>
  {
    Without(order, k) + [k]
  }

  /** The state after `Get(k)`: a hit promotes `k`, a miss changes nothing. */
  function AfterGet<V>(st: State<V>, k: string): State<V>
  {
    if k in st.values then State(Promote(st.order, k), st.values) else st
  }

  /** The state after `Put(k, v)`: an existing key gets the new value and is
      promoted; a new key is appended at the most recently used end, and when
      the map then holds more than `capacity` keys the least recently used
      one (the head of the order) is dropped from both. */
  function AfterPut<V>(st: State<V>, capacity: int, k: string, v: V): State<V>
  {
    if k in st.values then State(Promote(st.order, k), st.values[k := v])
    else
      var order := st.order + [k];
      var values := st.values[k := v];
      if |values| > capacity then State(order[1..], values - {order[0]})
      else State(order, values)
  }

  // ---------------------------------------------------------------------
  // Facts about sequences used below

  lemma DistinctCardinality(s: seq<string>)
    requires Distinct(s)
    ensures |set x | x in s| == |s|
  {
    if s != [] {
      assert (set x | x in s) == (set x | x in s[1..]) + {s[0]};
      assert Distinct(s[1..]) by {
        forall i, j | 0 <= i < j < |s[1..]| ensures s[1..][i] != s[1..][j] {
          assert s[1..][i] == s[i + 1] && s[1..][j] == s[j + 1];
        }
      }
      DistinctCardinality(s[1..]);
    }
  }

  /** Removing a key that occurs once, at index `p`, cuts out that index. */
  lemma {:induction false} WithoutAt(s: seq<string>, p: nat)
    requires Distinct(s) && p < |s|
    ensures Without(s, s[p]) == s[..p] + s[p + 1..]
  {
    if p == 0 {
      assert s[0] !in s[1..];
      WithoutAbsent(s[1..], s[0]);
    } else {
      assert Distinct(s[1..]) by {
        forall i, j | 0 <= i < j < |s[1..]| ensures s[1..][i] != s[1..][j] {
          assert s[1..][i] == s[i + 1] && s[1..][j] == s[j + 1];
        }
      }
      WithoutAt(s[1..], p - 1);
      assert s[1..][p - 1] == s[p];
      assert s[..p] == [s[0]] + s[1..][..p - 1];
      assert s[p + 1..] == s[1..][p..];
    }
  }

  lemma {:induction false} WithoutAbsent(s: seq<string>, k: string)
    requires k !in s
    ensures Without(s, k) == s
  {
    if s != [] {
      assert k !in s[1..];
      WithoutAbsent(s[1..], k);
    }
  }

  lemma {:induction false} WithoutAppend(a: seq<string>, b: seq<string>, k: string)
    ensures Without(a + b, k) == Without(a, k) + Without(b, k)
  {
    if a == [] {
      assert a + b == b;
    } else {
      assert (a + b)[1..] == a[1..] + b;
      WithoutAppend(a[1..], b, k);
    }
  }

  lemma {:induction false} WithoutDistinct(s: seq<string>, k: string)
    requires Distinct(s)
    ensures Distinct(Without(s, k))
  {
    if s != [] {
      assert Distinct(s[1..]) by {
        forall i, j | 0 <= i < j < |s[1..]| ensures s[1..][i] != s[1..][j] {
          assert s[1..][i] == s[i + 1] && s[1..][j] == s[j + 1];
        }
      }
      WithoutDistinct(s[1..], k);
      assert s[0] !in s[1..];
    }
  }

  lemma {:induction false} WithoutLength(s: seq<string>, k: string)
    requires Distinct(s) && k in s
    ensures |Without(s, k)| == |s| - 1
  {
    var p :| 0 <= p < |s| && s[p] == k;
    WithoutAt(s, p);
  }

  lemma {:induction false} WithoutTwice(s: seq<string>, k: string)
    ensures Without(Without(s, k), k) == Without(s, k)
  {
    WithoutAbsent(Without(s, k), k);
  }

  lemma DistinctAppend(s: seq<string>, k: string)
    requires Distinct(s) && k !in s
    ensures Distinct(s + [k])
  {
  }

  lemma DistinctTail(s: seq<string>)
    requires Distinct(s) && s != []
    ensures Distinct(s[1..]) && s[0] !in s[1..]
  {
    forall i, j | 0 <= i < j < |s[1..]| ensures s[1..][i] != s[1..][j] {
      assert s[1..][i] == s[i + 1] && s[1..][j] == s[j + 1];
    }
  }

  // ---------------------------------------------------------------------
  // The invariant is kept by every operation

  /** `Get` keeps the invariant. */
  lemma GetPreservesWf<V>(st: State<V>, capacity: int, k: string)
    requires Wf(st, capacity)
    ensures Wf(AfterGet(st, k), capacity)
  {
    if k in st.values {
      WithoutDistinct(st.order, k);
      DistinctAppend(Without(st.order, k), k);
    }
  }

  /** `Put` keeps the invariant: no duplicate key, the same key set in the
      map and the order, and at most `Bound(capacity)` keys. */
  lemma PutPreservesWf<V>(st: State<V>, capacity: int, k: string, v: V)
    requires Wf(st, capacity)
    ensures Wf(AfterPut(st, capacity, k, v), capacity)
  {
    if k in st.values {
      WithoutDistinct(st.order, k);
      DistinctAppend(Without(st.order, k), k);
    } else {
      var order := st.order + [k];
      var values := st.values[k := v];
      DistinctAppend(st.order, k);
      if |values| > capacity {
        DistinctTail(order);
        var r := values - {order[0]};
        assert order[0] in values;
        assert r.Keys == values.Keys - {order[0]};
        assert |r.Keys| == |values.Keys| - 1;
        assert |values| == |st.values| + 1;
        forall x ensures x in r <==> x in order[1..] {
          assert x in order <==> x == order[0] || x in order[1..];
        }
      }
    }
  }

  /** The map holds exactly as many keys as the order. */
  lemma {:induction false} SizeIsOrderLength<V>(st: State<V>, capacity: int)
    requires Wf(st, capacity)
    ensures |st.values| == |st.order|
  {
    assert st.values.Keys == set x | x in st.order;
    DistinctCardinality(st.order);
  }

  // ---------------------------------------------------------------------
  // What one call guarantees

  /** `Get` of a present key returns its value (the caller reads it off the
      unchanged map), keeps the key set, puts the key last and keeps the
      relative order of every other key; `Get` of an absent key changes
      nothing. */
  lemma GetEffect<V>(st: State<V>, capacity: int, k: string)
    requires Wf(st, capacity)
    ensures AfterGet(st, k).values == st.values
    ensures k in st.values ==>
      && AfterGet(st, k).order[|AfterGet(st, k).order| - 1] == k
      && Without(AfterGet(st, k).order, k) == Without(st.order, k)
      && |AfterGet(st, k).order| == |st.order|
    ensures k !in st.values ==> AfterGet(st, k) == st
  {
    if k in st.values {
      var o := Without(st.order, k);
      WithoutAppend(o, [k], k);
      WithoutTwice(st.order, k);
      assert Without([k], k) == [];
      assert o + [] == o;
      WithoutLength(st.order, k);
    }
  }

  /** `Put` of a key already present replaces its value, promotes it like
      `Get`, keeps the number of keys and evicts nothing. */
  lemma PutExisting<V>(st: State<V>, capacity: int, k: string, v: V)
    requires Wf(st, capacity) && k in st.values
    ensures AfterPut(st, capacity, k, v).values == st.values[k := v]
    ensures |AfterPut(st, capacity, k, v).values| == |st.values|
    ensures AfterPut(st, capacity, k, v).values.Keys == st.values.Keys
    ensures AfterPut(st, capacity, k, v).order == AfterGet(st, k).order
  {
    assert st.values[k := v].Keys == st.values.Keys;
  }

  /** `Put` of a new key stores it as the most recently used. Nothing is
      evicted while the map stays within the capacity; otherwise exactly one
      key is evicted, and it is the least recently used one, the head of the
      old order (the new key itself when the cache was empty). */
  lemma PutNew<V>(st: State<V>, capacity: int, k: string, v: V)
    requires Wf(st, capacity) && k !in st.values
    ensures var r := AfterPut(st, capacity, k, v);
      && (k in r.values <==> capacity >= 1)
      && (k in r.values ==> r.order != [] && r.order[|r.order| - 1] == k)
      && (|st.values| + 1 <= capacity ==>
            r.order == st.order + [k] && r.values == st.values[k := v])
      && (|st.values| + 1 > capacity ==>
            var lru := (st.order + [k])[0];
            && (st.order != [] ==> lru == st.order[0])
            && r.order == (st.order + [k])[1..]
            && r.values == st.values[k := v] - {lru}
            && lru !in r.values
            && |r.values| == |st.values|)
  {
    var r := AfterPut(st, capacity, k, v);
    if |st.values| + 1 > capacity {
      PutPreservesWf(st, capacity, k, v);
      SizeIsOrderLength(st, capacity);
      SizeIsOrderLength(r, capacity);
    }
  }

  /** With a capacity of zero or less nothing is ever retained: a new key is
      evicted by the very `Put` that inserts it. */
  lemma {:induction false} NonPositiveCapacity<V>(st: State<V>, capacity: int, k: string, v: V)
    requires Wf(st, capacity) && capacity <= 0
    ensures AfterPut(st, capacity, k, v) == Empty()
  {
    SizeIsOrderLength(st, capacity);
    assert st.order == [];
    assert st.values == map[] by {
      assert forall x :: x !in st.values;
    }
    assert st.values[k := v] - {k} == map[];
  }

  /** Promotion law: a key just read is not the one evicted by the next
      `Put` of another key, as long as the cache keeps two keys or more. */
  lemma {:induction false} PromotionLaw<V>(st: State<V>, capacity: int, k: string, k': string, v: V)
    requires Wf(st, capacity) && capacity >= 2 && k in st.values && k' != k
    ensures k in AfterPut(AfterGet(st, k), capacity, k', v).values
  {
    GetPreservesWf(st, capacity, k);
    var g := AfterGet(st, k);
    if k' !in g.values && |g.values[k' := v]| > capacity {
      var order := g.order + [k'];
      SizeIsOrderLength(g, capacity);
      assert |g.order| >= 2;
      GetEffect(st, capacity, k);
      assert order[0] == g.order[0];
      assert g.order[|g.order| - 1] == k;
      assert Distinct(g.order);
      assert order[0] != k;
    }
  }

  /** Update law: a second `Put` of the same key replaces the value that a
      later `Get` finds and keeps the number of keys. */
  lemma {:induction false} UpdateLaw<V>(st: State<V>, capacity: int, k: string, v1: V, v2: V)
    requires Wf(st, capacity) && capacity >= 1
    ensures var s1 := AfterPut(st, capacity, k, v1);
      var s2 := AfterPut(s1, capacity, k, v2);
      && k in s2.values && s2.values[k] == v2
      && |s2.values| == |s1.values|
  {
    var s1 := AfterPut(st, capacity, k, v1);
    PutPreservesWf(st, capacity, k, v1);
    if k !in st.values {
      if |st.values[k := v1]| > capacity {
        // the evicted key is the old head, not k, since st was not empty
        SizeIsOrderLength(st, capacity);
        assert st.order != [];
        assert st.order[0] != k;
      }
    }
    assert k in s1.values;
    PutExisting(s1, capacity, k, v2);
  }
}
