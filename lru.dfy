/** The LRU cache of lru.go: a map from URL to node plus a doubly linked
    recency list bounded by two sentinel nodes, `oldest` and `latest`. */
module Lru {
  import opened HttpHeader
  import opened LruSpec

  /** A captured response; the cache treats it as an opaque value. */
  datatype CacheEntry = CacheEntry(statusCode: int, headers: Header, data: seq<bv8>)

  /** Go's zero value `CacheEntry{}`. */
  const ZeroEntry := CacheEntry(0, map[], [])

  class Node {
    const url: string
    var value: CacheEntry
    var next: Node?
    var prev: Node?

    /** NewNode: a node holding `url` and `value`, not yet linked. */
    constructor (url: string, value: CacheEntry)
      ensures this.url == url && this.value == value
      ensures next == null && prev == null
    {
      this.url := url;
      this.value := value;
      next := null;
      prev := null;
    }
  }

  /** `ns` are distinct nodes, each one's `next` the following node and each
      one's `prev` the node before it. */
  ghost predicate Linked(ns: seq<Node>)
    reads ns`next, ns`prev
  {
    && NoDup(ns)
    && (forall i: nat {:trigger Link(ns, i)} :: i < |ns| - 1 ==> Link(ns, i))
  }

  /** The `i`-th and the following node of `ns` point at each other. */
  ghost predicate Link(ns: seq<Node>, i: nat)
    reads ns`next, ns`prev
    requires i + 1 < |ns|
  {
    ns[i].next == ns[i + 1] && ns[i + 1].prev == ns[i]
  }

  /** The `i`-th node of `ns`; `NoDup` is stated over it so that its
      quantifier fires only where a proof names `At` explicitly. */
  ghost function At(ns: seq<Node>, i: nat): Node
    requires i < |ns|
  {
    ns[i]
  }

  /** No node occurs twice in `ns`; `NoDupAt` and `AtNoDup` convert to and
      from the plain reading by indices. */
  ghost predicate NoDup(ns: seq<Node>)
  {
    forall i, j {:trigger At(ns, i), At(ns, j)} :: 0 <= i < j < |ns| ==> At(ns, i) != At(ns, j)
  }

  lemma NoDupAt(ns: seq<Node>)
    requires NoDup(ns)
    ensures forall i, j :: 0 <= i < j < |ns| ==> ns[i] != ns[j]
  {
    forall i, j | 0 <= i < j < |ns| ensures ns[i] != ns[j] {
      assert At(ns, i) != At(ns, j);
    }
  }

  lemma AtNoDup(ns: seq<Node>)
    requires forall i, j :: 0 <= i < j < |ns| ==> ns[i] != ns[j]
    ensures NoDup(ns)
  {
    forall i, j | 0 <= i < j < |ns| ensures At(ns, i) != At(ns, j) {
      assert ns[i] != ns[j];
    }
  }

  /** The nodes strictly between two ends of a duplicate-free list are
      themselves duplicate-free and exclude both ends. */
  lemma NoDupMiddle(a: Node, ns: seq<Node>, b: Node)
    requires NoDup([a] + ns + [b])
    ensures NoDup(ns) && a !in ns && b !in ns && a != b
  {
    var l := [a] + ns + [b];
    NoDupAt(l);
    forall i, j | 0 <= i < j < |ns| ensures ns[i] != ns[j] {
      assert ns[i] == l[i + 1] && ns[j] == l[j + 1];
    }
    AtNoDup(ns);
    forall i | 0 <= i < |ns| ensures ns[i] != a && ns[i] != b {
      assert ns[i] == l[i + 1] && l[0] == a && l[|l| - 1] == b;
    }
    assert l[0] == a && l[|l| - 1] == b;
  }

  /** The node stored under `k`. */
  ghost function Slot(cache: map<string, Node>, k: string): Node
    requires k in cache
  {
    cache[k]
  }

  /** `n` is one of `ns`. */
  ghost predicate Holds(ns: seq<Node>, n: Node)
  {
    n in ns
  }

  /** The map holds exactly the nodes of `ns`, each under its own URL. The
      quantifiers fire on `Slot` and `Holds`, which only the lemmas below
      name; `IndexedLookup` and `IndexedMember` read them off. */
  ghost predicate Indexed(cache: map<string, Node>, ns: seq<Node>)
  {
    && (forall k {:trigger Slot(cache, k)} :: k in cache ==> Slot(cache, k) in ns && Slot(cache, k).url == k)
    && (forall n {:trigger Holds(ns, n)} :: n in ns ==> n.url in cache && cache[n.url] == n)
  }

  lemma IndexedLookup(cache: map<string, Node>, ns: seq<Node>, k: string)
    requires Indexed(cache, ns) && k in cache
    ensures cache[k] in ns && cache[k].url == k
  {
    assert Slot(cache, k) == cache[k];
  }

  lemma IndexedMember(cache: map<string, Node>, ns: seq<Node>, n: Node)
    requires Indexed(cache, ns) && n in ns
    ensures n.url in cache && cache[n.url] == n
  {
    assert Holds(ns, n);
  }

  lemma IndexedSameMembers(cache: map<string, Node>, ns: seq<Node>, ms: seq<Node>)
    requires Indexed(cache, ns) && forall n :: n in ms <==> n in ns
    ensures Indexed(cache, ms)
  {
    forall k | k in cache ensures Slot(cache, k) in ms && Slot(cache, k).url == k {
      IndexedLookup(cache, ns, k);
    }
    forall n | Holds(ms, n) ensures n.url in cache && cache[n.url] == n {
      IndexedMember(cache, ns, n);
    }
  }

  /** Inserting a new node at the end of the list and into the map. */
  lemma IndexedInsert(cache: map<string, Node>, ns: seq<Node>, n: Node)
    requires Indexed(cache, ns) && n.url !in cache
    ensures Indexed(cache[n.url := n], ns + [n])
  {
    var c := cache[n.url := n];
    forall k | k in c ensures Slot(c, k) in ns + [n] && Slot(c, k).url == k {
      if k != n.url { IndexedLookup(cache, ns, k); }
    }
    forall m | Holds(ns + [n], m) ensures m.url in c && c[m.url] == m {
      if m != n {
        IndexedMember(cache, ns, m);
      }
    }
  }

  /** Evicting the first node from both the list and the map. */
  lemma IndexedEvict(cache: map<string, Node>, ns: seq<Node>)
    requires Indexed(cache, ns) && ns != [] && NoDup(ns)
    ensures Indexed(cache - {ns[0].url}, ns[1..])
    ensures ns[0].url in cache && |cache - {ns[0].url}| == |cache| - 1
  {
    NoDupAt(ns);
    IndexedMember(cache, ns, ns[0]);
    var c := cache - {ns[0].url};
    forall k | k in c ensures Slot(c, k) in ns[1..] && Slot(c, k).url == k {
      IndexedLookup(cache, ns, k);
      assert cache[k] != ns[0];
      var i :| 0 <= i < |ns| && ns[i] == cache[k];
      assert i != 0;
      assert ns[1..][i - 1] == ns[i];
    }
    forall n | Holds(ns[1..], n) ensures n.url in c && c[n.url] == n {
      var i :| 0 <= i < |ns[1..]| && ns[1..][i] == n;
      assert ns[i + 1] == n && n != ns[0];
      IndexedMember(cache, ns, n);
    }
    assert c.Keys == cache.Keys - {ns[0].url};
  }

  ghost function Urls(ns: seq<Node>): (r: seq<string>)
    ensures |r| == |ns|
    ensures forall i :: 0 <= i < |ns| ==> r[i] == ns[i].url
  {
    seq(|ns|, i requires 0 <= i < |ns| => ns[i].url)
  }

  lemma UrlsAppend(ns: seq<Node>, n: Node)
    ensures Urls(ns + [n]) == Urls(ns) + [n.url]
  {
  }

  /** Cutting the node after `p` interior nodes out of `l` (as `remove`
      does) and linking it back before the last node (as `add` does) moves
      it to the end of the interior. */
  lemma MovedToEnd(l: seq<Node>, a: Node, ns: seq<Node>, b: Node, p: nat, l1: seq<Node>, l2: seq<Node>)
    requires p < |ns| && l == [a] + ns + [b]
    requires l1 == l[..p + 1] + l[p + 2..]
    requires l2 == l1[..|l1| - 1] + [ns[p], b]
    ensures |l1| >= 2 && l1[|l1| - 1] == b && l1[0] == a
    ensures l1[|l1| - 2] in l
    ensures l2 == [a] + MoveToEnd(ns, p) + [b]
  {
    assert l1 == [a] + ns[..p] + ns[p + 1..] + [b];
    if p < |ns| - 1 {
      assert l1[|l1| - 2] == ns[|ns| - 1];
    } else if p > 0 {
      assert l1[|l1| - 2] == ns[p - 1];
    }
  }

  /** Cutting the first interior node out of a list. */
  lemma CutFirst(a: Node, ns: seq<Node>, b: Node)
    requires ns != []
    ensures ([a] + ns + [b])[..1] + ([a] + ns + [b])[2..] == [a] + ns[1..] + [b]
  {
    assert ([a] + ns + [b])[2..] == ns[1..] + [b];
  }

  /** `ns` with its `p`-th node moved to the end. */
  ghost function MoveToEnd(ns: seq<Node>, p: nat): seq<Node>
    requires p < |ns|
  {
    ns[..p] + ns[p + 1..] + [ns[p]]
  }

  /** Moving one node to the end keeps the same nodes. */
  lemma SameMembers(ns: seq<Node>, p: nat)
    requires p < |ns|
    ensures forall n :: n in MoveToEnd(ns, p) <==> n in ns
  {
    assert ns == ns[..p] + [ns[p]] + ns[p + 1..];
  }

  /** A node of a list of distinct nodes is not left in it once cut out. */
  lemma CutOut(l: seq<Node>, p: nat)
    requires p < |l| && NoDup(l)
    ensures l[p] !in l[..p] + l[p + 1..]
  {
    NoDupAt(l);
    var l1 := l[..p] + l[p + 1..];
    forall k | 0 <= k < |l1| ensures l1[k] != l[p] {
      if k < p { assert l1[k] == l[k]; } else { assert l1[k] == l[k + 1]; }
    }
  }

  /** Moving the `p`-th node to the end promotes its key in the order. */
  lemma UrlsMovedToEnd(ns: seq<Node>, p: nat)
    requires p < |ns| && Distinct(Urls(ns))
    ensures Urls(MoveToEnd(ns, p)) == LruSpec.Promote(Urls(ns), ns[p].url)
  {
    var o := Urls(ns);
    WithoutAt(o, p);
    assert Urls(ns[..p] + ns[p + 1..] + [ns[p]]) == o[..p] + o[p + 1..] + [ns[p].url];
  }

  /** Every node of `ns` belongs to the footprint `repr`. */
  ghost predicate Within(ns: seq<Node>, repr: set<object>)
  {
    forall n :: n in ns ==> n in repr
  }

  /** Cutting a node out of a list keeps the rest within the footprint. */
  lemma WithinCut(l: seq<Node>, i: nat, repr: set<object>)
    requires i < |l| && Within(l, repr)
    ensures Within(l[..i] + l[i + 1..], repr)
  {
    forall n | n in l[..i] + l[i + 1..] ensures n in repr {
      assert n in l[..i] || n in l[i + 1..];
    }
  }

  /** Linking a node in before the last one, and adding it to the
      footprint, keeps the list within the footprint. */
  lemma WithinLinked(l: seq<Node>, n: Node, repr: set<object>)
    requires |l| >= 1 && Within(l, repr)
    ensures Within(l[..|l| - 1] + [n, l[|l| - 1]], repr + {n})
  {
    forall m | m in l[..|l| - 1] + [n, l[|l| - 1]] ensures m in repr + {n} {
      assert m in l[..|l| - 1] || m == n || m == l[|l| - 1];
    }
  }

  /** Replacing the interior by one with the same nodes keeps the list
      within the footprint. */
  lemma WithinSameMembers(a: Node, ns: seq<Node>, ms: seq<Node>, b: Node, repr: set<object>)
    requires Within([a] + ns + [b], repr)
    requires forall n :: n in ms <==> n in ns
    ensures Within([a] + ms + [b], repr)
  {
    forall m | m in [a] + ms + [b] ensures m in repr {
      assert m == a || m in ms || m == b;
      assert m in [a] + ns + [b] by {
        if m in ns { assert m in ([a] + ns) ; }
      }
    }
  }

  class LRUCache {
    const capacity: int
    const latest: Node
    const oldest: Node
    var cache: map<string, Node>
    /** The whole recency list, `oldest` first and `latest` last. */
    ghost var list: seq<Node>
    /** The data nodes of `list`, from least to most recently used. */
    ghost var nodes: seq<Node>
    /** The objects the cache is made of: itself and every node of `list`
        (nodes evicted from the list may stay in it). */
    ghost var Repr: set<object>

    ghost predicate Valid()
      reads this, list`next, list`prev
    {
      Shaped() && |cache| <= Bound(capacity) && Owned()
    }

    /** The footprint holds the cache and every node of its list. */
    ghost predicate Owned()
      reads this
    {
      this in Repr && Within(list, Repr)
    }

    /** The list runs from `oldest` through `nodes` to `latest`, and the map
        indexes exactly `nodes`; only the size bound is left out. */
    ghost predicate Shaped()
      reads this, list`next, list`prev
    {
      && list == [oldest] + nodes + [latest]
      && Linked(list)
      && Indexed(cache, nodes)
    }

    /** The keys from least to most recently used. */
    ghost function Order(): seq<string>
      reads this
    {
      Urls(nodes)
    }

    ghost function Contents(): map<string, CacheEntry>
      reads this`cache, cache.Values`value
    {
      map k | k in cache :: cache[k].value
    }

    ghost function Abstract(): State<CacheEntry>
      reads this, cache.Values`value
    {
      State(Order(), Contents())
    }

    /** No key occurs twice in the order of a valid cache. */
    lemma OrderDistinct()
      requires Valid()
      ensures Distinct(Order())
    {
      var o := Order();
      NoDupMiddle(oldest, nodes, latest);
      NoDupAt(nodes);
      forall a, b | 0 <= a < b < |o| ensures o[a] != o[b] {
        assert o[a] == nodes[a].url && o[b] == nodes[b].url;
        IndexedMember(cache, nodes, nodes[a]);
        IndexedMember(cache, nodes, nodes[b]);
      }
    }

    /** The node stored under `url` sits at some index `j` of `nodes`, and
        moving it to the end promotes `url` in the order. */
    lemma Promotable(url: string) returns (j: nat)
      requires Valid() && url in cache
      ensures j < |nodes| && nodes[j] == cache[url]
      ensures Urls(MoveToEnd(nodes, j)) == LruSpec.Promote(Order(), url)
      ensures forall n :: n in MoveToEnd(nodes, j) <==> n in nodes
    {
      IndexedLookup(cache, nodes, url);
      j :| 0 <= j < |nodes| && nodes[j] == cache[url];
      OrderDistinct();
      UrlsMovedToEnd(nodes, j);
      SameMembers(nodes, j);
    }

    /** A valid cache satisfies the abstract invariant. */
    lemma ValidWf()
      requires Valid()
      ensures Wf(Abstract(), capacity)
    {
      var o := Order();
      OrderDistinct();
      forall k ensures k in Contents() <==> k in o {
        if k in cache {
          IndexedLookup(cache, nodes, k);
          var j :| 0 <= j < |nodes| && nodes[j] == cache[k];
          assert o[j] == k;
        }
        if k in o {
          var j :| 0 <= j < |o| && o[j] == k;
          IndexedMember(cache, nodes, nodes[j]);
        }
      }
      assert Contents().Keys == cache.Keys;
    }

    /** NewLRUCache: an empty cache whose sentinels point at each other. */
    constructor (capacity: int)
      ensures Valid() && this.capacity == capacity
      ensures Abstract() == Empty()
      ensures oldest.next == latest && latest.prev == oldest
      ensures fresh(Repr)
    {
      var o := new Node("", ZeroEntry);
      var l := new Node("", ZeroEntry);
      o.next := l;
      l.prev := o;
      this.capacity := capacity;
      latest := l;
      oldest := o;
      cache := map[];
      list := [o, l];
      nodes := [];
      Repr := {this, o, l};
    }

    /** remove: unlinks `node`, the `i`-th node of the list, and clears its links. */
    method Remove(node: Node, ghost i: nat)
      requires Linked(list) && 0 < i < |list| - 1 && list[i] == node
      requires node.prev == list[i - 1] && node.next == list[i + 1]
      modifies this`list, node`next, node`prev, node.prev`next, node.next`prev
      ensures list == old(list[..i] + list[i + 1..])
      ensures Linked(list)
      ensures node.next == null && node.prev == null
    {
      ghost var l := list;
      NoDupAt(l);
      node.prev.next := node.next;
      node.next.prev := node.prev;
      node.next := null;
      node.prev := null;
      list := list[..i] + list[i + 1..];
      forall a, b | 0 <= a < b < |list| ensures list[a] != list[b] {
        var a' := if a < i then a else a + 1;
        var b' := if b < i then b else b + 1;
        assert list[a] == l[a'] && list[b] == l[b'];
      }
      AtNoDup(list);
      forall a: nat | a < |list| - 1
        ensures Link(list, a)
      {
        if a < i - 1 {
          assert old(Link(l, a));
          assert list[a] == l[a] && list[a + 1] == l[a + 1];
        } else if a == i - 1 {
          assert list[a] == l[i - 1] && list[a + 1] == l[i + 1];
        } else {
          assert old(Link(l, a + 1));
          assert list[a] == l[a + 1] && list[a + 1] == l[a + 2];
        }
      }
    }

    /** add: links `node` in directly before `latest`. */
    method Add(node: Node)
      requires Linked(list) && |list| >= 2 && list[|list| - 1] == latest && node !in list
      requires latest.prev == list[|list| - 2]
      modifies this`list, node`next, node`prev, latest`prev, latest.prev`next
      ensures list == old(list[..|list| - 1]) + [node, latest]
      ensures Linked(list)
    {
      ghost var l := list;
      NoDupAt(l);
      node.next := latest;
      node.prev := latest.prev;
      latest.prev.next := node;
      latest.prev := node;
      list := list[..|list| - 1] + [node, latest];
      forall a, b | 0 <= a < b < |list| ensures list[a] != list[b] {
        if b < |l| - 1 {
          assert list[a] == l[a] && list[b] == l[b];
        } else if b == |l| - 1 {
          assert list[b] == node;
          assert list[a] == l[a];
        } else {
          assert list[a] == l[a] || list[a] == node;
        }
      }
      AtNoDup(list);
      forall a: nat | a < |list| - 1
        ensures Link(list, a)
      {
        if a < |l| - 2 {
          assert old(Link(l, a));
          assert list[a] == l[a] && list[a + 1] == l[a + 1];
        }
      }
    }

    /** Get: a hit returns the stored value and moves the key to the most
        recently used end; a miss returns the zero entry and changes nothing. */
    method Get(url: string) returns (value: CacheEntry, found: bool)
      requires Valid()
      modifies Repr
      ensures Valid()
      ensures found == (url in old(Contents()))
      ensures value == if found then old(Contents())[url] else ZeroEntry
      ensures Abstract() == AfterGet(old(Abstract()), url)
      ensures cache == old(cache) && Repr == old(Repr)
    {
      if url in cache {
        var node := cache[url];
        IndexedLookup(cache, nodes, url);
        Touch(node);
        value, found := node.value, true;
      } else {
        value, found := ZeroEntry, false;
      }
    }

    /** Put: an existing key gets the new value and is promoted; a new key is
        linked in as the most recently used, and if the map then holds more
        than `capacity` keys the node after `oldest` is removed from both the
        map and the list. */
    method Put(url: string, value: CacheEntry)
      requires Valid()
      modifies Repr
      ensures Valid()
      ensures Abstract() == AfterPut(old(Abstract()), capacity, url, value)
      ensures fresh(Repr - old(Repr))
    {
      if url in cache {
        Replace(url, value);
        return;
      }
      Insert(url, value);
    }

    /** The new-key path of Put: link a new node in, then evict the least
        recently used one if the map has grown beyond `capacity`. */
    method Insert(url: string, value: CacheEntry)
      requires Valid() && url !in cache
      modifies Repr
      ensures Valid()
      ensures Abstract() == AfterPut(old(Abstract()), capacity, url, value)
      ensures fresh(Repr - old(Repr))
    {
      ghost var l0 := list;
      var newNode := LinkNew(url, value);
      WithinLinked(l0, newNode, old(Repr));
      assert Contents().Keys == cache.Keys;
      if |cache| > capacity {
        ghost var l1 := list;
        EvictOldest();
        WithinCut(l1, 1, Repr);
      }
    }

    /** The existing-key half of Put: the stored node gets `value` and is
        moved to the most recently used end. */
    method Replace(url: string, value: CacheEntry)
      requires Valid() && url in cache
      modifies this`list, this`nodes, list`next, list`prev, list`value
      ensures Valid()
      ensures Order() == LruSpec.Promote(old(Order()), url)
      ensures Contents() == old(Contents())[url := value]
    {
      ghost var c0 := Contents();
      var node := cache[url];
      IndexedLookup(cache, nodes, url);
      forall k | k in cache && k != url ensures cache[k] != node {
        IndexedLookup(cache, nodes, k);
      }
      assert node in list;
      node.value := value;
      Touch(node);
      assert Contents() == c0[url := value];
    }

    /** The new-key half of Put: a node for `url` is created, entered in the
        map and linked in as the most recently used. */
    method LinkNew(url: string, value: CacheEntry) returns (newNode: Node)
      requires Shaped() && url !in cache
      modifies this`cache, this`list, this`nodes, this`Repr, list`next, list`prev
      ensures Shaped()
      ensures fresh(newNode) && list == old(list[..|list| - 1]) + [newNode, latest]
      ensures Repr == old(Repr) + {newNode}
      ensures Order() == old(Order()) + [url]
      ensures Contents() == old(Contents())[url := value]
      ensures |cache| == old(|cache|) + 1
    {
      ghost var c0 := Contents();
      ghost var ns := nodes;
      newNode := new Node(url, value);
      cache := cache[url := newNode];
      Append(newNode);
      IndexedInsert(old(cache), ns, newNode);
      UrlsAppend(ns, newNode);
      Repr := Repr + {newNode};
      assert Contents() == c0[url := value];
    }

    /** Links a node that is not yet in the list in as the most recently
        used data node. */
    method Append(node: Node)
      requires list == [oldest] + nodes + [latest] && Linked(list) && node !in list
      modifies this`list, this`nodes, list`next, list`prev, node`next, node`prev
      ensures list == [oldest] + nodes + [latest] && Linked(list)
      ensures nodes == old(nodes) + [node]
      ensures list == old(list[..|list| - 1]) + [node, latest]
    {
      assert list[|list| - 1] == latest;
      assert Link(list, |list| - 2);
      Add(node);
      nodes := nodes + [node];
    }

    /** The eviction in Put: the node after `oldest` leaves the map and the
        list. */
    method EvictOldest()
      requires Shaped() && nodes != []
      modifies this`cache, this`list, this`nodes, list`next, list`prev
      ensures Shaped() && list == old(list[..1] + list[2..])
      ensures Order() == old(Order())[1..]
      ensures Contents() == old(Contents()) - {old(Order())[0]}
      ensures |cache| == old(|cache|) - 1
    {
      ghost var c0 := Contents();
      assert Link(list, 0) && Link(list, 1);
      assert list[0] == oldest && list[1] == nodes[0];
      var lruNode: Node := oldest.next;
      NoDupMiddle(oldest, nodes, latest);
      IndexedEvict(cache, nodes);
      cache := cache - {lruNode.url};
      CutFirst(oldest, nodes, latest);
      Remove(lruNode, 1);
      nodes := nodes[1..];
      assert Contents() == c0 - {lruNode.url};
    }

    /** Moves the stored `node` to the most recently used end. */
    method Touch(node: Node)
      requires Valid() && node.url in cache && cache[node.url] == node
      modifies this`list, this`nodes, list`next, list`prev
      ensures Valid()
      ensures Order() == LruSpec.Promote(old(Order()), node.url)
    {
      ghost var j := Promotable(node.url);
      ghost var ns := nodes;
      IndexedSameMembers(cache, nodes, MoveToEnd(nodes, j));
      PromoteNode(node, j);
      WithinSameMembers(oldest, ns, nodes, latest, Repr);
    }

    /** The `remove` then `add` pair that Get and Put apply to the stored
        node `nodes[j]`: it ends up directly before `latest`. */
    method PromoteNode(node: Node, ghost j: nat)
      requires list == [oldest] + nodes + [latest] && Linked(list)
      requires j < |nodes| && nodes[j] == node
      modifies this`list, this`nodes, list`next, list`prev
      ensures list == [oldest] + nodes + [latest] && Linked(list)
      ensures nodes == MoveToEnd(old(nodes), j)
    {
      ghost var l := list;
      CutOut(l, j + 1);
      assert Link(l, j) && Link(l, j + 1);
      Remove(node, j + 1);
      ghost var l1 := list;
      ghost var l2 := l1[..|l1| - 1] + [node, latest];
      MovedToEnd(l, oldest, nodes, latest, j, l1, l2);
      assert Link(l1, |l1| - 2);
      Add(node);
      nodes := MoveToEnd(nodes, j);
    }
  }
}
