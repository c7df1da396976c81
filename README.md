# Forwarding proxy with an LRU response cache — Dafny model

The repository is a small HTTP forwarding proxy written in Go. Its core is
two files:

* `lru.go` — a bounded least-recently-used cache of responses keyed by URL:
  a Go map from URL to node plus a doubly linked recency list between two
  sentinel nodes (`oldest` and `latest`). `Get` moves a hit to the most
  recently used end; `Put` updates and promotes an existing key, or links a
  new node in and, when the map then holds more than `capacity` keys, unlinks
  and forgets the node right after `oldest`.
* `main.go` — the request handler. It rebuilds the inbound request for the
  target (same method, URL and body), copies the inbound header except seven
  hop-by-hop names, sends it, and relays the answer's status, every header
  value and the body. It answers 500 when the outbound request cannot be
  built and 502 when sending it fails.

The model has five modules:

* `LruSpec` (`lru_spec.dfy`) — the cache as a value: a recency order and a
  key-to-value map, the functions `AfterGet` and `AfterPut` saying what one
  call does to them, the invariant `Wf`, and lemmas about those functions.
* `Lru` (`lru.dfy`) — the cache as the Go code builds it: `class Node`
  with mutable `value`, `next` and `prev`, and `class LRUCache` with the
  sentinels, the `cache` map and ghost fields `list` (the whole linked list),
  `nodes` (its data nodes) and `Repr` (the objects the cache is made of).
  `Valid()` says the list is doubly linked and without repetition, that the
  map indexes exactly the data nodes, that the size is within the capacity,
  and that `Repr` holds the cache and every node of the list. `Get` and
  `Put` modify only `Repr` and add only fresh objects to it, so calls
  compose. Each method is proved to move the abstraction `Abstract()` the
  way `AfterGet`/`AfterPut` say, so the `LruSpec` lemmas carry over to the
  heap structure over any sequence of calls.
* `Scenarios` (`scenarios.dfy`) — callers that build a cache of capacity
  two and run short sequences of `Put` and `Get` on it.
* `HttpHeader` (`http_header.dfy`) — `http.Header` as a map from name to a
  sequence of values, `Header.Add`, the hop-by-hop test, and the two
  header-copying loops of the handler as methods proved against the
  functions `Forwarded` and `Appended`.
* `Proxy` (`proxy.dfy`) — the handler: `Handle` is its effect as a
  function, `ProxyHandler` the method that calls the two loops, and lemmas
  state the statuses and what reaches the target and the client.

Go's map iteration order is unspecified; both header loops pick the next
name with `:|`, so they are proved for every order.

## Model

| member | source | states |
|---|---|---|
| Lru.Node.constructor | lru.go:21-26 | NewNode: the node holds the given URL and entry and is not linked to anything |
| Lru.LRUCache.constructor | lru.go:36-48 | NewLRUCache: the cache is valid and empty, keeps the given capacity, its two sentinels point at each other, and its footprint is freshly allocated |
| Lru.LRUCache.Get | lru.go:50-60 | a hit (exactly when the key is stored) returns the stored entry and promotes the key; a miss returns the zero entry and changes nothing; the map and the footprint are untouched; only objects of the footprint change; the cache stays valid (map and list index the same nodes, size within the bound) |
| Lru.LRUCache.Put | lru.go:62-82 | the cache stays valid and its new order and contents are `AfterPut` of the old ones: an existing key is updated and promoted, a new key is appended as most recently used, and on overflow the least recently used key leaves both map and list; only objects of the footprint change, and it grows only by fresh nodes |
| Lru.LRUCache.Insert | lru.go:73-81 | the new-key path of Put: the cache stays valid, its state is `AfterPut` of the old one, and the footprint grows only by the fresh node |
| Lru.LRUCache.Replace | lru.go:66-70 | the existing-key branch of Put: the stored value of the key becomes the new one, all others stay, and the key is promoted |
| Lru.LRUCache.LinkNew | lru.go:73-75 | the new-key branch of Put: a fresh node is linked directly before `latest` and joins the footprint, the order gains the key at its end, the contents gain the key with its value, the map grows by one |
| Lru.LRUCache.EvictOldest | lru.go:77-81 | the eviction: the first key of the order leaves the order, the contents and the map, which shrinks by one; the list stays linked between the sentinels |
| Lru.LRUCache.Touch | lru.go:55-56 | the remove-then-add pair on a stored node keeps the cache valid and moves its key to the most recently used end with the others in their order |
| Lru.LRUCache.PromoteNode | lru.go:55-56 | remove followed by add leaves the list well formed, with the node moved from its place to just before `latest` |
| Lru.LRUCache.Remove | lru.go:91-96 | remove: the node leaves the list, the rest stays doubly linked in order, and the node's links are cleared |
| Lru.LRUCache.Append | lru.go:75 | `add` of a node not yet in the list: it becomes the last data node, just before `latest`, and the list stays doubly linked |
| Lru.LRUCache.Add | lru.go:84-89 | add: the node is linked in directly before `latest` and the list stays doubly linked |
| Lru.LRUCache.OrderDistinct | lru.go:32 | no URL occurs twice in the recency order of a valid cache, since each map key owns exactly one node |
| Lru.LRUCache.ValidWf | lru.go:28-34 | a valid cache satisfies the abstract invariant: the order and the map hold the same keys, without repetition, within the capacity bound |
| LruSpec.GetPreservesWf | lru.go:50-60 | Get keeps the invariant |
| LruSpec.PutPreservesWf | lru.go:62-82 | Put keeps the invariant: distinct keys, the same key set in map and order, at most `max(capacity, 0)` keys |
| LruSpec.SizeIsOrderLength | lru.go:77 | the map's size, which Put compares with the capacity, equals the length of the recency list |
| LruSpec.GetEffect | lru.go:54-59 | a hit keeps the stored values, puts the key last, keeps the length and the relative order of the others; a miss changes nothing |
| LruSpec.PutExisting | lru.go:66-70 | Put of a stored key replaces its value, keeps the key set and size, and orders keys exactly as Get of that key would |
| LruSpec.PutNew | lru.go:73-81 | Put of a new key keeps it (as the most recently used) exactly when the capacity is at least one; within the capacity nothing is evicted; on overflow exactly one key is evicted and it is the head of the old order |
| LruSpec.NonPositiveCapacity | lru.go:77-81 | with a capacity of zero or less the cache stays empty: a new key is evicted by the Put that inserts it |
| LruSpec.PromotionLaw | lru.go:54-56 | with capacity two or more, a key just read is not evicted by the next Put of another key |
| LruSpec.UpdateLaw | lru.go:66-70 | a second Put of a key stores the second value and does not change the number of keys |
| HttpHeader.Add | main.go:30 | Header.Add: the value joins the end of the name's values; every other name keeps its values |
| HttpHeader.AddValues | main.go:29-31 | the inner loop adds all values of one name in order; with no values the header is unchanged |
| HttpHeader.ForwardRequestHeaders | main.go:22-32 | the request loop: no hop-by-hop name is copied; every other name with values is copied with all of them in order; nothing else appears |
| HttpHeader.CopyResponseHeaders | main.go:42-46 | the response loop: the result is the target header's values appended to the existing ones, with no name filtered |
| HttpHeader.AppendedKeepsAll | main.go:42-46 | every response value follows the values already present, those are kept as a prefix, and no name is invented |
| HttpHeader.IsHopByHop | main.go:23-26 | the request loop's test holds exactly for the seven names Connection, Proxy-Authenticate, Proxy-Authorization, Te, Trailers, Transfer-Encoding and Upgrade |
| HttpHeader.ExactNames | main.go:23-26 | only the seven names are filtered: other hop-by-hop names ("Trailer", "Keep-Alive", "Proxy-Connection") pass |
| HttpHeader.ForwardedIdempotent | main.go:22-32 | filtering an already filtered header changes nothing |
| HttpHeader.ForwardedIsFilteredCopy | main.go:22-46 | the request copy is the response copy into an empty header minus exactly the seven names |
| HttpHeader.ForwardedKeepsClean | main.go:22-32 | a header without hop-by-hop names or empty value lists reaches the target unchanged |
| Scenarios.EvictsLeastRecent | lru.go:62-82 | on a cache of capacity two, `Put(A); Put(B); Put(C)` leaves exactly the keys B and C |
| Scenarios.ReadPromotes | lru.go:50-82 | on a cache of capacity two, `Put(A); Put(B); Get(A); Put(C)` leaves exactly A and C: the read saved A and B was evicted |
| Scenarios.HitAndMiss | lru.go:50-75 | after `Put(A, X)`, `Get(A)` finds X and `Get(Z)` finds nothing |
| Scenarios.Overwrite | lru.go:62-70 | after `Put(A, X); Put(A, Y)`, `Get(A)` finds Y and the cache holds one key |
| Scenarios.EvictsLeastRecentStates | lru.go:62-82 | the abstract states of the first scenario: A is the one evicted |
| Scenarios.ReadPromotesStates | lru.go:50-82 | the abstract states of the second scenario: B is the one evicted |
| Proxy.ProxyHandler | main.go:10-56 | one call of the handler has exactly the effect `Handle` describes: 500 and nothing sent on a failed build, 502 on a failed round trip, otherwise the answer relayed |
| Proxy.ErrorStatuses | main.go:15-39 | the handler writes 500 exactly when the request cannot be built (and then sends nothing), 502 exactly when sending fails, and relays exactly when an answer arrives |
| Proxy.OutboundRequest | main.go:15-32 | the request sent keeps the inbound method, URL and body, and carries the inbound header without the seven names |
| Proxy.RelayedResponse | main.go:42-50 | a relayed answer carries the target's status and body and every response header value, hop-by-hop names included |

## Left out

- The mutex of `LRUCache` (`mu`, lru.go:33, 51-52, 63-64): the model is sequential; it does not capture concurrent callers.
- `http.NewRequest` and `http.DefaultClient.Do` are not modelled: the handler takes whether the build fails as a boolean, and the transport as a function from the outbound request to an answer or an error text.
- Logging (`log.Printf`) has no effect on the model.
- `http.Error`'s own headers and the trailing newline it writes are not modelled; an error reply is just the status and the message. Nor are the headers net/http adds when the handler writes a relayed answer (Date, a sniffed Content-Type, framing headers): a relayed reply is what the handler itself writes.
- The error of `io.Copy` (main.go:50-53) is only logged by the handler; the model relays the whole body.
- `targetURL.String()` is taken as the URL string itself; URL parsing and re-serialisation are not modelled.
- Header-name canonicalisation inside `Header.Add` is not modelled: names are taken as already canonical, as Go's server delivers them. A non-canonical name such as "connection" would pass the exact comparison at main.go:23-26 and still reach the target as `Connection`; the model does not capture that case.
- `resp.Body.Close` and the `main` function (route registration, `ListenAndServe`) are server plumbing with no state the core depends on.
- `CacheEntry` contents are opaque to the cache; the datatype is kept only as the stored value.
- The handler in main.go never consults or fills the LRU cache and validates no URL; the model follows the code and does not add either.
