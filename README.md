# Consistent-hash ring of distributed-cache, in Dafny

This project models the consistent-hash ring that assigns cache keys to
servers. Each physical server is placed on a 32-bit hash circle as
`virtualNodes` virtual nodes. Virtual node `i` of server `s` is named
`"s:i"` and placed at the hash of that name. The ring keeps its nodes
sorted by position.

The model has one module per source file:

- `hasher.dfy`, module `Hash`: the `Hasher` interface and its XXH3
  implementation. The 64-bit XXH3 digest is truncated to its low 32 bits.
- `parse_name.dfy`, module `Utils`: `GetVirtualId`, the `%s:%d` naming,
  with Go's `%d` decimal formatting. A parser is added as its inverse.
- `node.dfy`, module `RingNode`: the `Node` record and `NewVirtualNode`.
- `sort.dfy`, module `RingSort`: the `sort.Interface` of `Nodes` (`Len`,
  `Less`, `Swap`) and the sort that `AddNode` runs through it.
- `ring.dfy`, module `Ring`: the `consistentHash` state as a class with
  `NewRing` and `AddNode`, and the start-up sequence of `main.go`.
- `wrappers.dfy`: an `Option` type.

Where the design and the code disagree, the model follows the code:

- Nodes are ordered by `HashId` alone (`pkg/ring/sort.go:7`). The design asks
  for a secondary key to break ties; the code has none. So the model promises
  only a non-decreasing order and a permutation, and no order among nodes
  at the same position.
- Adding a server that is already a member is not checked. Its virtual nodes
  are added a second time. The design asks for a no-op or an error.
- Server ids are strings, as in `pkg/ring/node.go` and `main.go`. The `Ring`
  interface at `pkg/ring/ring.go:13-17` uses `int` and does not match them.
- The only `AddNode` body is commented out (`pkg/ring/ring.go:27-31`). It
  calls a `NewNode` that does not exist. The model builds virtual nodes
  `0 .. virtualNodes-1` with `NewVirtualNode`, appends them, and sorts. This
  is what the field comment at `pkg/ring/ring.go:10` describes. A negative
  count adds no nodes.

`Ring.ConsistentHash.Lookup` and its specification `Ring.Owner` are an
extension. They are not a model of source code: `GetNode` is only declared
(`pkg/ring/ring.go:15`). They follow the usual rule: the first node at or
after the key's hash, or else the first node.

## Model

| member | source | states |
|---|---|---|
| `Hash.ToUint32` | pkg/hash/hasher.go:20 | Go's `uint32` conversion of a `uint64` keeps the low 32 bits. The discarded high word times 2^32 plus the result gives back the input. A value that already fits is kept as it is. |
| `Hash.ToUint32Unique` | pkg/hash/hasher.go:20 | The truncation is the only value below 2^32 that differs from the digest by a multiple of 2^32, so `Hash` is the digest mod 2^32. |
| `Hash.Hasher.Hash` | pkg/hash/hasher.go:19-21 | `Hash` is total: it has no precondition, so it is defined for every key, the empty one included. It returns a value below 2^32, which is the low word of the key's 64-bit XXH3 digest. |
| `Hash.Hasher.HashWithSeed` | pkg/hash/hasher.go:24-26 | The same truncation, applied to the seeded 64-bit digest. |
| `Hash.HashCollision` | pkg/hash/hasher.go:20 | Two keys get the same hash exactly when their 64-bit digests agree mod 2^32. This is the collision cost of truncating to 32 bits. |
| `Hash.HashDeterministic` | pkg/hash/hasher_test.go:8-18 | Hashers over the same library give the same hash and seeded hash for every key. |
| `Utils.NatDigits` | pkg/utils/parseName.go:7 | The decimal digits of `%d` are non-empty and all digits, with no leading zero except for 0. |
| `Utils.NatDigitsRoundTrip` | pkg/utils/parseName.go:7 | Reading the digits back gives the number. |
| `Utils.FormatInt` | pkg/utils/parseName.go:7 | `%d` of any integer is non-empty and holds no `':'`. It starts with `'-'` exactly when the integer is negative. |
| `Utils.FormatIntRoundTrip` | pkg/utils/parseName.go:7 | Parsing what `%d` writes gives back the integer, negative ones included. |
| `Utils.GetVirtualId` | pkg/utils/parseName.go:6-9 | The result is the server, then `':'`, then the decimal index. No `':'` follows the separator. Its length is the server's length, plus one, plus the length of the decimal index. |
| `Utils.LastColon` | pkg/utils/parseName.go:7 | Finds the last `':'` of a name, or reports that there is none. |
| `Utils.LastColonIs` | pkg/utils/parseName.go:7 | A `':'` with no `':'` after it is the last colon. |
| `Utils.SplitGetVirtualId` | pkg/utils/parseName.go:7 | Splitting a virtual id at its last `':'` and parsing the tail gives back the server and the index. This holds even when the server's own name contains `':'`. |
| `Utils.GetVirtualIdInjective` | pkg/utils/parseName.go:7 | Distinct (server, index) pairs never give the same virtual id. |
| `RingNode.NewVirtualNode` | pkg/ring/node.go:17-24 | The node keeps the physical id unchanged. Its virtual id is the one `GetVirtualId` gives. Its position is `Hash` of that virtual id. The same inputs always give the same node. |
| `RingNode.NewVirtualNodeOrigin` | pkg/ring/node.go:18 | A node's virtual id starts with the physical id and `':'`. The server and index can be read back from it. |
| `RingNode.DistinctIndicesDistinctIds` | pkg/ring/node.go:18 | For one server, distinct indices give distinct virtual ids. |
| `RingNode.VirtualNodes` | pkg/ring/ring.go:10 | The nodes built for one server are `virtualNodes` of them (none if the count is negative). The one at `i` is `NewVirtualNode(h, id, i)`. |
| `RingNode.VirtualNodesDistinct` | pkg/ring/ring.go:10 | The nodes built for one server all belong to it and have pairwise distinct virtual ids. |
| `RingSort.Len` | pkg/ring/sort.go:4 | `Len` is the number of nodes. |
| `RingSort.Less` | pkg/ring/sort.go:7 | `Less(i, j)` holds exactly when node `i`'s `HashId` is below node `j`'s; nodes with equal `HashId` are never `Less`, whatever their ids. Its order properties are in `LessStrictWeakOrder`. |
| `RingSort.LessStrictWeakOrder` | pkg/ring/sort.go:7 | `Less` is irreflexive and transitive. Two nodes are mutually not-`Less` exactly when their `HashId`s are equal, whatever their ids. |
| `RingSort.Swapped` | pkg/ring/sort.go:10 | After a swap, slot `i` holds old `j`, slot `j` holds old `i`, and every other slot and the length are unchanged. |
| `RingSort.SwappedPermutes` | pkg/ring/sort.go:10 | A swap keeps the multiset of nodes. |
| `RingSort.SwappedInvolution` | pkg/ring/sort.go:10 | `Swap(i, i)` is a no-op, and two identical swaps restore the original. |
| `RingSort.Swap` | pkg/ring/sort.go:10 | The in-place swap leaves exactly `Swapped` of the old contents, a permutation of them. |
| `RingSort.Sort` | pkg/ring/ring.go:30 | Sorting through `Len`, `Less` and `Swap` leaves the nodes non-decreasing by `HashId` and a permutation of what they were. |
| `Ring.ConsistentHash.NewRing` | pkg/ring/ring.go:19-25 | A new ring has an empty node list and keeps the given hasher and virtual-node count unchanged. |
| `Ring.ConsistentHash.AddNode` | pkg/ring/ring.go:27-31 | After `AddNode` the list is non-decreasing by `HashId`. It is a permutation of the old list plus the new server's virtual nodes, with nothing dropped or duplicated. Its length grows by exactly that many. The hasher and the count are unchanged. |
| `Ring.AllVirtualNodesStep` | main.go:19-21 | Adding one more server adds its virtual nodes to the multiset of the whole ring. |
| `Ring.BuildRing` | main.go:17-21 | `NewRing` followed by any sequence of `AddNode` calls gives a sorted ring with the given hasher and count. It holds every added server's virtual nodes and nothing else: `virtualNodes` per server. |
| `Ring.FirstAtOrAfter` | pkg/ring/ring.go:15 | Extension: the index of the first node at or after a position. Every node before it lies before the position. |
| `Ring.FirstAtOrAfterUnique` | pkg/ring/ring.go:15 | Extension: any index with those two properties is that first index. |
| `Ring.OwnerIsClockwiseSuccessor` | pkg/ring/ring.go:15 | Extension: on a sorted ring, an empty ring has no owner, and otherwise the owner is a ring node. A hash past every node wraps to the node with the smallest position. Otherwise the owner is the nearest node at or after the hash. |
| `Ring.ConsistentHash.Lookup` | pkg/ring/ring.go:15 | Extension: binary search on the sorted ring returns exactly the owner that `Owner` specifies. |

## Left out

- XXH3 itself is a foreign library. Its two digest functions are a parameter
  of the hasher (`Hash.Xxh3`), so every property holds whatever it computes.
- The collision-count test (`pkg/hash/hasher_test.go:21-45`) is statistical
  and cannot be proved. So is the load deviation quoted in `main.go:16`.
- `DeleteNode` is declared with no body anywhere (`pkg/ring/ring.go:16`), so
  there is nothing to model. Lookup exists only as the extension above.
  Rebalancing and key migration are not implemented in the source.
- `RingSort.Sort`: Go's `sort.Sort` uses pattern-defeating quicksort. The model
  sorts with insertion sort over the same `Less` and `Swap`. It promises what
  `sort.Sort` promises: sorted and a permutation. The order the library leaves
  among equal positions is not modelled.
- `Ring.ConsistentHash.AddNode` always allocates a new array for the appended
  list. Go's `append` may reuse the old backing array.
- The `Nodes` slice holds pointers to nodes. The model holds node values;
  nodes are never changed after construction, so no aliasing is observable.
- Go's `int` is 64 bits wide. Virtual indices and counts are unbounded
  integers here. `%d` formats every 64-bit value the same way.
- Go strings are byte strings that need not be valid UTF-8; Dafny strings are
  sequences of characters, so server ids that are not valid UTF-8 cannot be
  represented. Nothing in the ring depends on this: the digest is a parameter,
  and `':'` and the digits are ASCII.
- Only the XXH3 implementation of the `Hasher` interface exists, so it is the
  only one modelled.
- Nothing guards the ring against concurrent use in the source. The model is
  sequential.
- Redis access (`pkg/services/cacheService.go`) is not part of this model, and
  neither are the upload DTOs (`pkg/services/upload.go`), HTTP routing, JSON
  handling and process start-up. None of them touches the ring.
