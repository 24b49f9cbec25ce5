# ppcache in Dafny

A model of the read path of ppcache, a distributed in-memory cache written in
Go in the style of groupcache. The model covers the following parts.

- A **group** (`Groups`) is a named cache namespace. It answers a key in this order:
  - from its own cache;
  - else from the peer that owns the key on a consistent-hash ring;
  - else from the user's getter, whose value it then caches.
- **The local cache** has two layers:
  - a lazily allocated wrapper (`MainCache`);
  - a byte-budgeted least-recently-used store (`Lru`).
- **ByteViews** are the immutable byte views the cache hands out.
- **The consistent-hash ring** (`ConsistentHash`) has a configurable number of virtual positions per node. Its default hash is CRC-32 of the UTF-8 bytes of a string.
- **UTF-8 and percent-encoding** (`Utf8`, `Urls`) are what Go applies when a string becomes bytes, when a peer's URL is escaped, and when `net/http` decodes a request path.
- **The HTTP layer** has two halves:
  - the peer side (`Peers`): the pool that builds the ring and picks a peer, and the client that fetches from a peer;
  - the serving side (`Server`): the handler that routes `<basePath><group>/<key>` to a group.

The source layout maps onto the modules as follows.

| source file | module | form |
|---|---|---|
| ppcache/lru/lru.go | `Lru` (lru.dfy) | class `Cache` over a `seq` of entries and a `map`; eviction `while` loop |
| ppcache/cache.go | `MainCache` (cache.dfy) | class `Cache` whose `lru` field is allocated on first `Add` |
| ppcache/byteview.go | `ByteViews` (byteview.dfy), `Bytes` (bytes.dfy) | datatype `ByteView`; `CloneBytes` returns a fresh `array`; the `byte` type on its own |
| ppcache/consistenthash/consistenthash.go | `ConsistentHash` (consistenthash.dfy) | class `Map`; nested loops in `Add`/`Remove`; binary search in `Get` |
| ppcache/ppcache.go | `Groups` (ppcache.dfy) | class `Group`; class `Registry` for the global table of groups |
| ppcache/http.go | `Peers` (http_pool.dfy), `Server` (http_server.dfy) | class `HttpPool`; pure routing and URL functions |
| Go's `[]byte(s)` and `net/url`, as ppcache/consistenthash/consistenthash.go and ppcache/http.go use them | `Utf8` (utf8.dfy), `Urls` (url.dfy) | pure functions over `seq<byte>` and `string` |

The LRU list is a sequence whose index 0 is the list's front, the most recently
used entry. Its last element is the back, the next to be evicted. The class
invariant `Lru.Cache.Valid` ties the three pieces of state together:
- the byte counter equals the total charge of the list;
- the list holds each key once;
- the map is exactly the list read as key-to-value.

Every operation is proved against the specification functions below, and
their properties are proved as lemmas.
- `Admit`: move or push to the front.
- `Trim`: the eviction loop.
- `Evicted`: the callbacks, in order.

The ring is specified by `Successor` and `OwnerOf`, the clockwise rule. A group's
answer is specified by the ghost function `Groups.Group.Answer`. The getter,
the HTTP transport and protobuf coding are function-valued
parameters (`Groups.Getter`, `Peers.Wire`, the `marshal` argument of `ServeHTTP`).
URL escaping and the server's decoding of the request path are written out
in `Urls`.

In the Go source, `RemoveOldest` and `Add` of the LRU have value receivers.
The class `Lru.Cache` deliberately keeps `nBytes` as one persistent field,
which is the behaviour the LRU tests expect. The code as written is modelled
separately, and the difference is recorded under Findings.

## Model

| member | source | states |
|---|---|---|
| ByteViews.ByteView.Length | ppcache/byteview.go:12-15 | for a view holding a string, the length is that string's UTF-8 byte count, as Go's `len` counts it |
| ByteViews.ByteView.String | ppcache/byteview.go:30-32 | the string read from the bytes has exactly those bytes as its UTF-8 encoding |
| ByteViews.ByteView.ByteSlice | ppcache/byteview.go:18-21 | returns a freshly allocated buffer with exactly the view's bytes |
| ByteViews.CloneBytes | ppcache/byteview.go:23-27 | the copy is a new array, disjoint from everything before, with the same length and contents |
| ByteViews.StringRoundTrip | ppcache/byteview.go:30-32 | the bytes of a view's string are the view's bytes again |
| ByteViews.BytesRoundTrip | ppcache/byteview.go:30-32 | a string stored as its UTF-8 bytes reads back as the same string |
| ByteViews.AsciiString | ppcache/byteview.go:30-32 | ASCII bytes always read as a string, one character per byte, in order |
| Lru.Trim | ppcache/lru/lru.go:85-90 | eviction only removes from the back: what is kept is a prefix of the list |
| Lru.TrimBudget | ppcache/lru/lru.go:85-90 | budget 0 keeps everything; a positive budget is met; a negative one empties the list; eviction stops at the first entry count within budget |
| Lru.EvictStep | ppcache/lru/lru.go:85-90 | one turn of the loop drops the back entry, leaves the final result unchanged, and logs that entry after the earlier ones |
| Lru.AdmitExisting | ppcache/lru/lru.go:71-77 | overwriting a key keeps the key set and changes the charge by exactly new length minus old length |
| Lru.AdmitNew | ppcache/lru/lru.go:78-83 | a new key is pushed at the front, the keys stay distinct and the charge grows by len(key) + value length |
| Lru.AdmittedEntrySurvives | ppcache/lru/lru.go:70-91 | an entry within the budget on its own is at the front of the list after its own Add |
| Lru.AdmittedEntryStored | ppcache/lru/lru.go:70-91 | an entry within the budget on its own is found in the map with its value after its own Add |
| Lru.OversizedEntryEmptiesCache | ppcache/lru/lru.go:85-90 | an entry larger than a positive budget is evicted together with everything older, without reaching the panic |
| Lru.KeySetSize | ppcache/lru/lru.go:94-96 | on distinct keys the list length equals the number of keys |
| Lru.MapOfKeys | ppcache/lru/lru.go:8-14 | the map's key set is exactly the list's key set |
| Lru.MapOfAt | ppcache/lru/lru.go:42-47 | on distinct keys the map sends each element's key to that element's value |
| Lru.MapOfWithout | ppcache/lru/lru.go:71-77 | unlinking a key's element removes exactly that key from the map |
| Lru.DropLast | ppcache/lru/lru.go:53-68 | dropping the back element removes its key and subtracts exactly its charge |
| Lru.Cache.constructor | ppcache/lru/lru.go:29-36 | a new store is empty, charges 0 bytes, and keeps the given budget and callback |
| Lru.Cache.Length | ppcache/lru/lru.go:94-96 | the entry count equals both the list length and the map size |
| Lru.Cache.Get | ppcache/lru/lru.go:39-50 | a hit returns the stored value and moves its entry to the front; a miss returns nothing and changes nothing; the counter and map are unchanged |
| Lru.Cache.RemoveOldest | ppcache/lru/lru.go:53-68 | an empty list is unchanged; otherwise the back entry leaves the list and map, its charge is subtracted, and the callback gets it once |
| Lru.Cache.Add | ppcache/lru/lru.go:70-91 | the new list is the admitted list trimmed to budget; the callbacks are the evicted entries in order; a panic happens exactly for a negative budget; a positive budget holds afterwards |
| Lru.Cache.EvictOverflow | ppcache/lru/lru.go:85-90 | the loop leaves exactly Trim of the list, reports the evicted entries back first, panics exactly for a negative budget, and keeps the invariant |
| Lru.Cache.Clear | ppcache/lru/lru.go:99-108 | the callback receives every remaining entry once, then the list and map are dropped and nBytes is left as it was |
| Lru.OverwriteChargesNewValue | ppcache/lru/lru_test.go:69-80 | overwriting "key" of "1" with "111" under budget 10 leaves one entry charged 6 bytes |
| Lru.AddAsWritten | ppcache/lru/lru.go:70-91 | as written, with value receivers: the list is admitted, or emptied with a panic under a non-zero budget; for a new key the panic happens exactly when that entry alone exceeds the budget |
| Lru.AsWrittenEvictsNothing | ppcache/lru/lru.go:70-91 | as written, an Add that does not panic evicts nothing: the new entry is in front and every other entry stays |
| Lru.AsWrittenKeepsOldest | ppcache/lru/lru.go:53-91 | with value receivers, the test's three adds evict nothing: key1 is still on the list |
| Lru.CorrectedEvictsOldest | ppcache/lru/lru_test.go:34-48 | with the counter kept, the test's three adds evict exactly key1, the oldest, leaving two entries |
| MainCache.Cache.constructor | ppcache/ppcache.go:51 | a group's cache starts unallocated, holding nothing |
| MainCache.Cache.Add | ppcache/cache.go:19-27 | the first add allocates a store with the cache's budget and no callback; the entries become the admitted list trimmed to budget; a value within budget can be read back |
| MainCache.Cache.Get | ppcache/cache.go:30-40 | before the first add every key misses; afterwards a hit returns the stored view and refreshes it, and the stored map is unchanged |
| ConsistentHash.Crc32KnownAnswers | ppcache/consistenthash/consistenthash.go:41 | the default hash gives the check values of `crc32.ChecksumIEEE`: 0 for "" and 0xE8B7BE43 for "a" |
| ConsistentHash.Crc32HashesUtf8 | ppcache/consistenthash/consistenthash.go:73 | a string is hashed through its UTF-8 bytes: "é" is the checksum of the two bytes C3 A9 |
| ConsistentHash.Crc32OfAscii | ppcache/consistenthash/consistenthash.go:55 | an ASCII string is checksummed as the sequence of its character codes |
| ConsistentHash.Insert | ppcache/consistenthash/consistenthash.go:62 | inserting into a sorted sequence keeps it sorted and adds exactly that element |
| ConsistentHash.InsertBehindHead | ppcache/consistenthash/consistenthash.go:62 | the head of a sorted sequence stays in front of its tail with any larger element inserted |
| ConsistentHash.SortInts | ppcache/consistenthash/consistenthash.go:62 | sort.Ints yields a sorted permutation of its input |
| ConsistentHash.FirstAtLeast | ppcache/consistenthash/consistenthash.go:75-78 | the index is the first position at least the hash, or the length when there is none |
| ConsistentHash.Search | ppcache/consistenthash/consistenthash.go:75-78 | the binary search returns exactly FirstAtLeast |
| ConsistentHash.FoundWhenPresent | ppcache/consistenthash/consistenthash.go:93 | a position on the ring is found by the search, at an index holding it |
| ConsistentHash.ClockwiseSuccessor | ppcache/consistenthash/consistenthash.go:75-82 | when some position is at or after the hash, the chosen position is the smallest such |
| ConsistentHash.WrapAround | ppcache/consistenthash/consistenthash.go:80-82 | when every position is below the hash, the index wraps to 0, the smallest position |
| ConsistentHash.Successor | ppcache/consistenthash/consistenthash.go:73-82 | the chosen position is on the ring: the smallest one at or after the hash, else the smallest of all |
| ConsistentHash.AssignCovers | ppcache/consistenthash/consistenthash.go:51-59 | after Add every added position is mapped to one of the added nodes |
| ConsistentHash.AssignNodeSets | ppcache/consistenthash/consistenthash.go:53-59 | writing a node's positions maps each of them to that node |
| ConsistentHash.AssignValues | ppcache/consistenthash/consistenthash.go:51-59 | after Add every mapped node was mapped before or is one of the added nodes |
| ConsistentHash.AssignConsistent | ppcache/consistenthash/consistenthash.go:51-59 | Add keeps every position mapped to a node it is a virtual position of |
| ConsistentHash.PositionsCount | ppcache/consistenthash/consistenthash.go:51-59 | Add appends exactly number-of-nodes times replicas positions |
| ConsistentHash.OwnerAmongNodes | ppcache/consistenthash/consistenthash.go:67-83 | after adding at least one node to an empty ring, every key is owned by one of the added nodes |
| ConsistentHash.SpliceAsWrittenLosesNeighbour | ppcache/consistenthash/consistenthash.go:93-94 | an absent position cuts out a neighbouring position, or panics past the end |
| ConsistentHash.SpliceRemovesOne | ppcache/consistenthash/consistenthash.go:93-94 | one cut removes exactly one occurrence of the position and keeps the ring sorted |
| ConsistentHash.Drop | ppcache/consistenthash/consistenthash.go:95 | deleting positions keeps exactly the other mappings, unchanged |
| ConsistentHash.UnplaceRemoves | ppcache/consistenthash/consistenthash.go:91-96 | removing positions keeps the ring sorted and takes away exactly those positions |
| ConsistentHash.UnplaceLength | ppcache/consistenthash/consistenthash.go:91-96 | removing positions the ring holds shortens it by their number |
| ConsistentHash.RemoveStep | ppcache/consistenthash/consistenthash.go:91-96 | each turn of Remove's loop finds the next position on the ring and cuts exactly it |
| ConsistentHash.AddRemoveRoundTrip | ppcache/consistenthash/consistenthash.go:47-97 | removing a node's positions after adding them restores the ring's positions |
| ConsistentHash.DropForgetsNode | ppcache/consistenthash/consistenthash.go:86-97 | after Remove the map no longer names the node and stays consistent |
| ConsistentHash.RemovedNodeOwnsNothing | ppcache/consistenthash/consistenthash.go:86-97 | after Remove no key is owned by the removed node |
| ConsistentHash.Map.constructor | ppcache/consistenthash/consistenthash.go:31-44 | a new ring is empty, with the given replicas, and uses `Crc32`, the IEEE CRC-32 of the key's UTF-8 bytes, when no hash is given |
| ConsistentHash.Map.Add | ppcache/consistenthash/consistenthash.go:47-64 | the ring gains exactly the nodes' virtual positions, stays sorted, grows by nodes times replicas, and the map records each position's node |
| ConsistentHash.Map.PlaceNode | ppcache/consistenthash/consistenthash.go:53-59 | the inner loop appends the node's virtual positions in order and maps each to the node |
| ConsistentHash.Map.Get | ppcache/consistenthash/consistenthash.go:67-83 | returns "" on an empty ring, else the node of the clockwise successor of the key's hash; the ring is not changed |
| ConsistentHash.Map.Remove | ppcache/consistenthash/consistenthash.go:86-97 | the ring loses exactly the node's virtual positions, stays sorted and shrinks by replicas; their mappings are deleted |
| Utf8.EncodeRune | ppcache/consistenthash/consistenthash.go:55 | a character takes 1 to 4 bytes, exactly 1 for ASCII, where it is the character's code; every byte after the first is a continuation byte |
| Utf8.EncodeDecode | ppcache/http.go:97-102 | every string survives the trip to UTF-8 bytes and back |
| Utf8.DecodeEncodePrefix | ppcache/http.go:97-102 | decoding an encoded string followed by more bytes yields the string, then what those bytes decode to, and fails exactly when they do |
| Utf8.DecodeThenEncode | ppcache/byteview.go:30-32 | bytes that decode to a string are exactly that string's encoding |
| Utf8.EncodeDecodedRune | ppcache/byteview.go:30-32 | the bytes a character is decoded from are exactly its encoding |
| Utf8.EncodeAppend | ppcache/consistenthash/consistenthash.go:55 | the bytes of a concatenation are the concatenated bytes |
| Utf8.EncodeAscii | ppcache/consistenthash/consistenthash.go:73 | an ASCII string's bytes are its character codes |
| Urls.HexDigit | ppcache/http.go:100-101 | each digit written by the escape reads back as its value |
| Urls.EscapeBytes | ppcache/http.go:100-101 | escaped text is ASCII and contains no "/" |
| Urls.DecodeEscapedBytes | ppcache/http.go:97-102 | bytes escaped for a path segment decode to themselves, whatever text follows |
| Urls.DecodePlain | ppcache/http.go:51 | text without "%" decodes to its own UTF-8 bytes, whatever text follows |
| Urls.PlainPathUnescape | ppcache/http.go:51 | a path without "%" decodes to itself |
| Urls.PathEscapeRoundTrip | ppcache/http.go:97-102 | a path-segment escape decodes to the string's bytes, and so to the string |
| Urls.DecodeRequestPath | ppcache/http.go:97-102 | base path, escaped group, "/", escaped key decode to base path, group, "/", key |
| Urls.QueryEscapeOfSpace | ppcache/http.go:100-101 | `url.QueryEscape` keeps "g" and writes "a b" as "a+b" |
| Peers.RequestUrl | ppcache/http.go:97-102 | the URL is the base URL, then the group escaped as a path segment, "/", then the key so escaped; the escaped group holds no "/" |
| Peers.RequestUrlAsWritten | ppcache/http.go:97-102 | as built with `url.QueryEscape`: the base URL, the escaped group (no "/"), "/", then the escaped key |
| Peers.Fetch | ppcache/http.go:95-122 | a value is returned exactly when the transport succeeds, the status is 200, the body is read and it decodes; the value is the decoded body |
| Peers.HttpPool.constructor | ppcache/http.go:36-41 | a new pool has this node's address, the default base path, and no peers |
| Peers.HttpPool.Set | ppcache/http.go:127-140 | the ring is a fresh CRC-32 ring of 50 replicas holding exactly the given peers, and there is one getter per peer |
| Peers.HttpPool.FillGetters | ppcache/http.go:134-139 | each given peer gets a getter whose base URL is the peer plus the base path, and no other getters remain |
| Peers.HttpPool.PickPeer | ppcache/http.go:143-151 | a getter is returned exactly when the key's owner is neither "" nor this node; it is the owner's getter; otherwise, with peers set, the owner is this node |
| Peers.HttpPool.OwnerIsMember | ppcache/http.go:127-151 | with at least one peer set, every key's owner is one of them |
| Peers.HttpPool.MappedPeerHasGetter | ppcache/http.go:146-148 | a named owner is a set peer and has a getter |
| Groups.FromGetter | ppcache/ppcache.go:101-106 | the getter's bytes become a view, and its error is passed on unchanged |
| Groups.GetFromPeer | ppcache/ppcache.go:125-138 | the peer's answer is a value exactly when the fetch succeeds, and carries the fetched bytes |
| Groups.Group.constructor | ppcache/ppcache.go:48-53 | a new group has the given name, getter and budget, no peers, and an empty cache |
| Groups.Group.RegisterPeers | ppcache/ppcache.go:117-122 | the first registration sets the peers; a second one panics and keeps the first |
| Groups.Group.Get | ppcache/ppcache.go:66-78 | the answer is the group's `Answer`: the empty-key error, a cache hit, the owning peer's value, or the getter's result; the getter is called (logged in `loads`) exactly when the key is non-empty and neither the cache nor a peer has it; the entries are unchanged for the empty key, move the hit to the front, admit a getter value and trim to budget, and are otherwise unchanged; a getter value within budget can be read back |
| Groups.Group.Load | ppcache/ppcache.go:81-98 | a value from the owning peer is returned and not cached; otherwise the getter's result is returned and cached |
| Groups.Group.TryPeer | ppcache/ppcache.go:84-91 | the peer's value is used only when a peer other than this node is picked and its fetch succeeds |
| Groups.Group.GetLocally | ppcache/ppcache.go:101-109 | a getter error is returned and the cache is unchanged; a value is cached and returned |
| Groups.Group.PopulateCache | ppcache/ppcache.go:112-114 | the value is added to the group's cache |
| Groups.GetTwice | ppcache/ppcache_test.go:34-41 | a second Get of a loaded, cacheable key returns the same value and does not call the getter again |
| Groups.Registry.constructor | ppcache/ppcache.go:37-40 | the global table of groups starts empty |
| Groups.Registry.GetGroup | ppcache/ppcache.go:59-64 | returns the group registered under the name, or nil |
| Groups.Registry.NewGroup | ppcache/ppcache.go:42-56 | a nil getter panics; otherwise a fresh group is registered under its name, replacing any earlier one, and other names are unaffected |
| Server.SplitAtSlash | ppcache/http.go:56-60 | splits at the first "/": the text before holds no "/", and the parts rejoin to the input; no "/" means no split |
| Server.RoutePath | ppcache/http.go:51-63 | a path outside the base path is unexpected; a rest without "/" is a bad request; otherwise the group is up to the first "/" and the key is the rest |
| Server.SplitAtFirstSlash | ppcache/http.go:56-63 | a group without "/" and any key are split back into exactly themselves |
| Server.RouteOfRequest | ppcache/http.go:51-63 | a decoded path of base path, group without "/", "/", key routes to exactly that group and key |
| Server.RequestReachesTarget | ppcache/http.go:97-102 | with path-segment escaping, the URL a peer requests is its address and a path that `net/http` decodes to base path, group, "/", key, which routes to exactly that group and key |
| Server.QueryEscapedSpaceArrivesAsPlus | ppcache/http.go:97-102 | as written, a request for key "a b" of group "g" has path base + "g/a+b", which decodes to itself and routes to key "a+b" |
| Server.Routed | ppcache/http.go:66-70 | a group is found exactly when the path routes to a registered group name, and it is the group registered under it |
| Server.Respond | ppcache/http.go:71-86 | a group error and an encoding error give 500 with the message; otherwise the encoded value is sent as application/octet-stream |
| Server.ServeHTTP | ppcache/http.go:49-87 | an unexpected path panics, a missing "/" gives 400, an unknown group gives 404, and otherwise the reply is that of the group's answer; only the routed group, its cache and store can change, exactly as its `Get` changes them (same peers, load log and entries as `Get`), and every other group and cache is unchanged |
| Server.ServeGroup | ppcache/http.go:71-86 | the reply is that of the group's answer, and the group's load log and entries become those `Get` produces |
| Server.WriteAnswer | ppcache/http.go:72-86 | the reply written for an answer is `Respond` of it: an error is a 500, a value is copied, encoded and sent |
| Server.ServedValueIsFetched | ppcache/http.go:77-122 | for any codec whose decoder inverts its encoder on every message: when the transport returns the server's reply body with status 200, the client's fetch yields exactly the served value |

## Left out

- Locking: the mutexes, the read-write lock on the group table and the atomic snapshot of the ring only matter to concurrent callers. Every operation here runs to completion alone.
- Single-flight: with no concurrency, `singleflight.Group.Do` calls the function once, and `Load` does that directly.
- Dead code on the ring: `copyValues` is never called. `loadValues` is the identity on the ring's fields, because `Add` mutates the published values in place.
- The HTTP transport, `ioutil.ReadAll` and protobuf `Marshal`/`Unmarshal` are outside the model. They are the functions of `Peers.Wire` and the `marshal` parameter of `Server.ServeHTTP`.
- Server.ServeHTTP: takes the decoded path. A "%" not followed by two hexadecimal digits is rejected with 400 by `net/http` before the handler runs, and a decoded path that is not valid UTF-8 has no `string` in the model (Go keeps the raw bytes); `Urls.PathUnescape` returns `None` for both.
- Logging, the request method, response headers other than the content type, and main.go are not modelled.
- String lengths: Go's `len` on a string counts bytes, while the LRU charge in the model counts characters. The two agree for ASCII keys. The hash and the URLs do use the UTF-8 bytes.
- ByteViews.ByteView.String: a Go string may hold any bytes, while a Dafny string is a sequence of Unicode scalar values. For bytes that are not valid UTF-8, `String` returns `None` where Go returns a string holding those bytes.
- Peers.Fetch: the client requests `RequestUrl`, the corrected URL with path-segment escaping of the Findings row on ppcache/http.go:97-102. The URL the source builds with `url.QueryEscape` is `Peers.RequestUrlAsWritten`. The two differ only for names holding characters that the two escapes treat differently, such as the space.
- Lru.Cache: `Length`, `RemoveOldest` and `Add` require that `Clear` has not run. After `Clear` the Go list is nil, and each of these dereferences it and panics.
- Byte copies: a view's bytes are a value (`seq`). Cloning inside the model is therefore the identity on contents, and only `CloneBytes`/`ByteSlice` produce a mutable buffer.
- Lru.Cache.Clear: the Go code walks its map in the unspecified order Go gives. The model reports the entries in list order, front first.
- Lru.Cache: the panic of the eviction loop is a result flag, not an abort.
- Lru.Cache: the callback is a flag plus the log `evicted` of the calls it receives. Its effects are not modelled.
- Groups.Group.Get: requires `Ready`, which has two parts:
  - A non-negative cache budget. With a negative budget the first insert panics in the LRU, and `Lru.Cache.Add` models that panic.
  - A pool whose peers were set. Picking a peer before `Set` dereferences a nil ring in Go.
- MainCache.Cache.Add: requires a non-negative budget for the same reason; the panic itself is modelled in `Lru.Cache.Add`.
- Peers.HttpPool.PickPeer: requires the peers to have been set, for the nil ring above.
- Server.ServeHTTP: requires `Ready` of the group the path routes to, and of no other group.
- Groups.Group.RegisterPeers: the panic "RegisterPeerPicker called more than once" is the returned `panicked` flag, with the first registration kept; the model does not abort.
- Groups.Registry.NewGroup: the panic on a nil getter is modelled as returning null with the table unchanged.
- Groups.Group: the test's per-key load counter is the ghost log `loads` of the keys passed to the getter.
- ConsistentHash.Map.Remove: requires every virtual position of the node to be on the ring. For a node that is not there, the Go code cuts out a neighbouring position or panics; `SpliceAsWritten` models this and `SpliceAsWrittenLosesNeighbour` exhibits both cases.
- ConsistentHash.Map.Remove: positions shared with another node (hash collisions) are not given any special treatment, as in Go.
- ConsistentHash: the default hash is CRC-32 written out bit by bit rather than through Go's table; the ring lemmas take the hash as a parameter and hold for any hash.
- ConsistentHash: `int` is the unbounded integer. The 32-bit hash fits Go's 64-bit `int`, so no wrap-around occurs.
- The callback test of the LRU tests is not modelled as a scenario. Its expected key list cannot match, because the slice it appends to starts with four empty strings.

## Findings

| source | as written | input that shows it | evidently intended | confidence | as-written member | corrected member |
|---|---|---|---|---|---|---|
| ppcache/http.go:97-102 | the client escapes the group and key with `url.QueryEscape`, which writes a space as "+", while the server routes on the decoded `r.URL.Path`, where "+" stays "+" | a peer asks group "g" for key "a b": the URL path is "g/a+b" and the owner serves key "a+b" | path-segment escaping (`url.PathEscape`), so that the decoded path gives back the group and key | not executed | Server.QueryEscapedSpaceArrivesAsPlus | Server.RequestReachesTarget |
| ppcache/lru/lru.go:53,70 | `RemoveOldest` and `Add` have value receivers, so their `nBytes` updates land on a copy: the stored counter stays 0 and eviction never sees the running total | budget 20, then Add("key1","value1"), Add("key2","value2"), Add("k3","v3"): nothing is evicted and key1 remains | pointer receivers: the counter persists, and the third Add evicts key1, the oldest entry | not executed | Lru.AsWrittenKeepsOldest | Lru.CorrectedEvictsOldest |
