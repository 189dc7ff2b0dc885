# buckytools core in Dafny

This project models the core of buckytools, which manages a cluster of
Graphite carbon-cache servers. The core has two parts:

- **The consistent-hashing ring** (`hashing/hashing.go`). It decides which
  carbon server stores a metric, the same way Graphite's own Python ring does.
  - Every node is a server plus an optional instance. Each node is hashed
    `replicas` times, 100 by default.
  - Each replica key is the node's Python-tuple rendering followed by
    `:<i>`. It lands on a 16-bit ring position: the first two bytes of its
    MD5 digest, read big-endian.
  - The ring is a slice of (position, node) entries kept sorted by position.
  - `GetNode` returns the owner of a key's position.
  - `GetNodes` walks forward from that owner and collects distinct nodes.
- **The tar client's path conversions** (`bucky/tar.go`):
  - between dotted metric names and `.wsp` file paths;
  - the sorted work list that `multiplexTar` builds from a map of servers to
    their metrics.

Modules, one per file:

- `Outcomes` (`outcomes.dfy`) holds `Option` and `Outcome`. An `Outcome` is
  either a value or the Go panic that replaced it.
- `Strings` (`strings.dfy`) holds the string helpers the core relies on:
  - `%d` formatting;
  - `strings.Replace` with a single-character pattern;
  - `sort.Strings`.
- `Nodes` (`node.dfy`) holds the `Node` value type and its two renderings.
  `NewNode` is the datatype constructor.
- `Position` (`position.dfy`) holds the ring position.
  - MD5 is not modelled. It is a parameter `md5: string -> Digest`, a total
    function giving 16 bytes.
  - `computeRingPosition` is the method `ComputeRingPosition`. It is proved
    equal to the function `RingPosition`.
- `RingStore` (`ringstore.dfy`) holds the sorted ring store:
  - `bisect`;
  - `insertRing`;
  - the in-place removal loop of `RemoveNode`, as the method
    `RemoveMatching`. `RemoveNode` calls it once for the node list and once
    for the ring (`hashing/hashing.go:139-145`, `148-154`).
- `Hashing` (`hashring.dfy`) holds the class `HashRing`.
  - Its fields `ring`, `nodes` and `replicas` are updated in place, as in Go.
  - `NewHashRing` is the constructor. It also takes the `md5` parameter.
  - The walk of `GetNodes` is the method `CollectOwners`.
  - The class invariant `Valid()` says the ring is sorted and every entry's
    owner is registered.
- `Tar` (`tar.dfy`) holds `MetricToPath`, `PathToMetric` and the work-list
  build.

The Go code has three lookup defects (see "Findings"):

- `GetNode` and `GetNodes` read one past the end of the ring when a key's
  position is above every entry.
- `GetNodes` can loop forever when bisect returns 0 and the node list holds
  more entries than the ring has identities, as after adding a node twice.
- From a positive start, `GetNodes` never reads the entry just before that
  start, so it misses that entry's node when no other entry has the same
  identity.

Each lookup is modelled twice:

- as written, by functions (`GetNodeAsWritten`, and `GetNodesAsWritten`,
  which runs on fuel). Lemmas exhibit the faults.
- corrected, by the class methods. They wrap the bisect index round to the
  first entry, and the walk stops after one full turn. The rest of the model
  uses the corrected versions.

## Model

| member | source | states |
|---|---|---|
| Position.RingPosition | hashing/hashing.go:45-54 | a key's position lies in [0, 65536) and is the big-endian number spelled by the first two bytes of its MD5 digest |
| Position.ComputeRingPosition | hashing/hashing.go:45-54 | the shift-and-add loop over the first two digest bytes computes exactly RingPosition |
| Position.RingPositionBytes | hashing/hashing.go:50-52 | the position's high byte is digest byte 0 and its low byte is digest byte 1 |
| Position.RingPositionCollision | hashing/hashing.go:45-54 | two keys share a ring position if and only if their digests agree on the first two bytes |
| RingStore.InsertionIndex | hashing/hashing.go:56-67 | the insertion index lies within the ring; every entry before it is below p, and the entry at it, if any, is at or above p (the leftmost such point) |
| RingStore.InsertionIndexUnique | hashing/hashing.go:56-67 | those two properties determine the insertion index uniquely |
| RingStore.InsertionIndexAtEnd | hashing/hashing.go:56-67 | on a sorted ring, bisect returns len(ring) if and only if p is above the last entry's position |
| RingStore.Bisect | hashing/hashing.go:59-67 | the linear scan returns the leftmost index whose position is at least e's, or len(ring) |
| RingStore.InsertRing | hashing/hashing.go:71-87 | append, shift and store give the old prefix, then e at the bisect index, then the old tail; this equals InsertSorted |
| RingStore.InsertSortedPermutes | hashing/hashing.go:71-87 | insertion adds e and keeps every entry that was there (a multiset equation) |
| RingStore.InsertSortedKeepsSorted | hashing/hashing.go:69-87 | inserting at the bisect index keeps a sorted ring sorted |
| RingStore.InsertAtIndexPair | hashing/hashing.go:69-87 | any two entries of the ring with e placed at its insertion index are in position order |
| RingStore.InsertAtIndexSorted | hashing/hashing.go:69-87 | placing e at the insertion index of a sorted ring leaves it sorted |
| RingStore.InsertAllPermutes | hashing/hashing.go:126-132 | inserting a list of entries one by one adds exactly that multiset |
| RingStore.InsertAllKeepsSorted | hashing/hashing.go:126-132 | inserting a list of entries one by one keeps the ring sorted |
| RingStore.RemoveMatching | hashing/hashing.go:139-145 | the in-place loop (delete at i on a match, step on otherwise) leaves exactly Without(s, id): the other elements, in order |
| RingStore.WithoutMembers | hashing/hashing.go:148-154 | an element survives removal if and only if it was present and its identity differs from id |
| RingStore.WithoutCount | hashing/hashing.go:148-154 | removal keeps the multiplicity of every other element and drops every match |
| RingStore.WithoutConcat | hashing/hashing.go:139-154 | removal distributes over concatenation, so survivors keep their relative order |
| RingStore.WithoutDrop | hashing/hashing.go:141 | deleting a matching element at i keeps the loop invariant |
| RingStore.WithoutKeep | hashing/hashing.go:143 | stepping past a non-matching element keeps the loop invariant |
| RingStore.WithoutNoMatch | hashing/hashing.go:135-155 | removing an identity nobody has changes nothing |
| RingStore.WithoutIdempotent | hashing/hashing.go:135-155 | removing a node twice is the same as removing it once |
| RingStore.WithoutSorted | hashing/hashing.go:148-154 | removing entries from a sorted ring leaves it sorted |
| Nodes.Node.KeyValue | hashing/hashing.go:91-96 | the rendering opens with `('` and the server, closes with `)`, and ends in `', None)` exactly when the instance is empty |
| Nodes.IdentityShape | hashing/hashing.go:99-104 | Node.String leads with the server; it is the server alone exactly when the instance is empty, and otherwise continues with ':' and the instance |
| Nodes.IdentityRoundTrip | hashing/hashing.go:99-104 | for a server without ':', the identity `server[:instance]` can be parsed back to the node |
| Nodes.KeyValueRoundTrip | hashing/hashing.go:91-96 | for a server without a quote, the tuple rendering can be parsed back to the node, covering both the None and the quoted-instance form |
| Nodes.IdentityInjective | hashing/hashing.go:99-104 | over servers without ':', two nodes share an identity if and only if they are equal |
| Nodes.KeyValueInjective | hashing/hashing.go:91-96 | over servers without quotes, two nodes share a rendering if and only if they are equal |
| Nodes.IdentityMatchesKeyValue | hashing/hashing.go:91-104 | for such servers, RemoveNode's identity test matches exactly the nodes that hash alike |
| Nodes.IdentityCollision | hashing/hashing.go:99-104 | without that restriction, ("a:b","") and ("a","b") share an identity yet hash differently |
| Strings.Decimal | hashing/hashing.go:128 | `%d` of a replica index is a non-empty string of decimal digits |
| Strings.DecimalRoundTrip | hashing/hashing.go:128 | the decimal rendering of the replica index parses back to the index |
| Strings.DecimalInjective | hashing/hashing.go:128 | distinct replica indexes render differently |
| Hashing.ReplicaKey | hashing/hashing.go:128 | a replica key is the node's rendering, then ':', then digits that parse back to the replica index |
| Hashing.ReplicaKeysDistinct | hashing/hashing.go:126-131 | the replica keys of one node are equal if and only if their indexes are equal |
| Hashing.ReplicaKeyInjective | hashing/hashing.go:128 | across nodes whose servers have no quote, each (node, replica) pair hashes its own string |
| Hashing.HashRing.constructor | hashing/hashing.go:26-33 | a new ring has no nodes, no entries and 100 replicas, and it is valid |
| Hashing.HashRing.Replicas | hashing/hashing.go:116-118 | returns the replica count |
| Hashing.HashRing.SetReplicas | hashing/hashing.go:120-122 | sets the replica count and leaves the ring and the node list unchanged |
| Hashing.HashRing.AddNode | hashing/hashing.go:124-133 | appends the node, does not check for an earlier registration, inserts max(replicas, 0) entries (the trip count of `for i := 0; i < t.replicas`), each owned by the node at its replica key's position, in loop order, and keeps the ring sorted with every owner registered |
| Hashing.InsertKeepsValid | hashing/hashing.go:131 | one AddNode insertion of a registered node's entry keeps the ring sorted and every owner registered |
| Hashing.ReplicaEntriesStep | hashing/hashing.go:126-132 | replicas 0..n run through the loop equal replicas 0..n-1 followed by replica n |
| Hashing.HashRing.RemoveNode | hashing/hashing.go:135-155 | deletes every node and every entry with node's identity, keeps the rest in order, and keeps the ring sorted with every owner registered |
| Hashing.WithoutKeepsOwners | hashing/hashing.go:135-155 | after both removals, every remaining entry's owner is still registered |
| Hashing.WithoutInsertSorted | hashing/hashing.go:124-155 | removing an identity undoes inserting an entry of that identity |
| Hashing.WithoutInsertAll | hashing/hashing.go:126-132 | removing an identity undoes inserting any number of its entries |
| Hashing.AddThenRemoveRestores | hashing/hashing.go:124-155 | adding a new node and then removing it restores the ring and the node list exactly |
| Hashing.OwnerIndex | hashing/hashing.go:157-168 | the owner index is in range; it is the leftmost entry at or above p, or the first entry when every position is below p |
| Hashing.OwnerIsNearest | hashing/hashing.go:157-168 | on a sorted ring, the owner is the nearest entry clockwise from p; after wrapping it is the lowest entry |
| Hashing.HashRing.GetNode | hashing/hashing.go:157-168 | an empty ring panics; otherwise returns the owner entry's node, which is registered |
| Hashing.GetNodeAsWritten | hashing/hashing.go:157-168 | GetNode as the Go code has it: panics on an empty ring and faults when bisect returns len(ring) |
| Hashing.GetNodeAsWrittenOutOfRange | hashing/hashing.go:163-167 | on a sorted ring, GetNode as written faults if and only if p is above the last entry |
| Hashing.GetNodeAsWrittenExample | hashing/hashing.go:163-167 | ring [a@100] at position 0xffff faults with index out of range |
| Hashing.GetNodeFixAgrees | hashing/hashing.go:157-168 | whenever GetNode as written returns a node, the corrected owner is the same node |
| Hashing.FirstMetIdentities | hashing/hashing.go:181-186 | the collected list has no identity twice, has every identity met on the walk, and starts with the first entry's owner |
| Hashing.FirstMetOwners | hashing/hashing.go:182-185 | every collected node owns an entry met on the walk |
| Hashing.FirstMetWalkStep | hashing/hashing.go:181-188 | one more step appends the next owner when its identity is new and otherwise changes nothing |
| Hashing.WalkCovers | hashing/hashing.go:181-188 | one full turn meets every entry and every identity on the ring |
| Hashing.WalkWithinRing | hashing/hashing.go:182 | a walk meets only entries of the ring |
| Hashing.EnoughIdsCoverRing | hashing/hashing.go:181 | once as many identities as registered nodes have been met, every ring identity has been met |
| Hashing.IdsCard | hashing/hashing.go:181 | a node list has at most as many identities as elements |
| Hashing.IdsAppend | hashing/hashing.go:183-185 | recording a new identity grows the seen set by exactly one |
| Hashing.Successor | hashing/hashing.go:187 | (index + 1) % len(ring) is the next index, or 0 after the last |
| Hashing.GetNodesStepNew | hashing/hashing.go:183-187 | an iteration that meets a new identity keeps the loop invariant |
| Hashing.GetNodesStepSeen | hashing/hashing.go:182-187 | an iteration that meets a known identity keeps the loop invariant |
| Hashing.CollectOwners | hashing/hashing.go:175-190 | the corrected loop collects distinct identities, at most one per registered node, equal to the first-met owners of a walk that ended after one full turn or on reaching the node count |
| Hashing.WalkEndIsReplicaSet | hashing/hashing.go:181-190 | either way the walk stops, its result is a replica set |
| Hashing.HashRing.GetNodes | hashing/hashing.go:170-191 | an empty ring panics; otherwise returns the distinct owners met walking forward from the key's owner, led by that owner, covering every identity on the ring, each registered, none repeated, no more than the node count |
| Hashing.FirstStop | hashing/hashing.go:181 | the corrected walk stops at the first step count, up to the bound, at which nodeCount identities have been met, and not before |
| Hashing.FirstOwnersShape | hashing/hashing.go:181-186 | a walk of any bound collects owners of ring entries, none twice, no more than the bound or nodeCount, led by the start entry's owner |
| Hashing.GetNodesAsWritten | hashing/hashing.go:170-191 | GetNodes as written panics with EmptyRing exactly on an empty ring; any other fault is an index out of range |
| Hashing.WalkAsWritten | hashing/hashing.go:179-188 | the loop as written, run on fuel, faults only by indexing out of range |
| Hashing.WalkAsWrittenExtends | hashing/hashing.go:182-185 | the loop as written only appends to the nodes collected so far |
| Hashing.WalkAsWrittenDiverges | hashing/hashing.go:179-188 | with last = -1 and more registered nodes than ring identities, the loop never ends, whatever the fuel |
| Hashing.GetNodesAsWrittenDiverges | hashing/hashing.go:178-181 | when bisect returns 0 and the node list outnumbers the ring's identities, GetNodes as written never returns |
| Hashing.GetNodesAsWrittenFromZeroReturns | hashing/hashing.go:178-191 | when bisect returns 0 and the node list does not outnumber the ring's identities, GetNodes as written returns within len(ring) iterations |
| Hashing.AsWrittenFromZeroReturns | hashing/hashing.go:179-188 | from start 0, the loop as written meets nodeCount identities, and so returns, before its step count reaches len(ring) |
| Hashing.GetNodesAsWrittenFromZeroIff | hashing/hashing.go:178-191 | from bisect index 0 with fuel for a full turn, GetNodes as written returns if and only if the node list does not outnumber the ring's identities |
| Hashing.GetNodesAsWrittenDuplicateDiverges | hashing/hashing.go:124-191 | with one replica, node a added twice gives ring [a@100, a@100] and two registered nodes; a key at position 50 never returns, whatever the fuel |
| Hashing.DuplicateAddNodeDiverges | hashing/hashing.go:120-191 | for every digest function: NewHashRing, SetReplicas(1) and AddNode(node) twice give ring [e, e] and nodes [node, node]; GetNodes as written on the key of replica 0 never returns, whatever the fuel |
| Hashing.GetNodesAsWrittenOutOfRange | hashing/hashing.go:178-182 | on a sorted ring, a position above the last entry makes GetNodes as written fault on its first read |
| Hashing.WalkAsWrittenStops | hashing/hashing.go:181-188 | with index and last both in range, the loop ends without a fault within Distance(index, last) iterations |
| Hashing.GetNodesAsWrittenStops | hashing/hashing.go:178-190 | with a positive in-range bisect index, GetNodes as written returns within len(ring) - 1 iterations |
| Hashing.GetNodesAsWrittenMissesNode | hashing/hashing.go:179-181 | on ring [a@10, b@20], a key at 15 with two nodes returns only [b], although a is on the ring |
| Hashing.WalkAsWrittenCounted | hashing/hashing.go:179-188 | from a positive start, the loop as written returns, if at all, what StepsAsWritten gives for up to len(ring) - 1 steps: start - 1 is reached after that many steps and not read |
| Hashing.WalkAsWrittenCountedFromZero | hashing/hashing.go:178-188 | from start 0, the loop as written returns, if at all, what StepsAsWritten gives for up to len(ring) steps |
| Hashing.AsWrittenFromZeroRound | hashing/hashing.go:179-181 | back at index 0 with every ring identity met and fewer than nodeCount, the loop as written never returns |
| Hashing.AsWrittenStepFromZero | hashing/hashing.go:182-187 | from start 0, one iteration of the loop as written and one step of StepsAsWritten read entry j alike and leave the same seen set and result |
| Hashing.IdsBeforeEntryIds | hashing/hashing.go:181-186 | the identities gathered entry by entry are those of the ring prefix |
| Hashing.FirstStopStep | hashing/hashing.go:181 | a step below the bound short of nodeCount identities does not stop the corrected walk |
| Hashing.WalkStateStep | hashing/hashing.go:182-187 | one iteration keeps seen and result equal to the identities and first-met owners of the walk so far |
| Hashing.WalkStateInitial | hashing/hashing.go:175-176 | the empty seen map and empty result describe a walk of no steps |
| Hashing.StepsAsWrittenOwners | hashing/hashing.go:181-188 | the counted loop returns the first-met owners of the walk, stopped as FirstStop says |
| Hashing.AsWrittenOwnersFromZero | hashing/hashing.go:178-191 | from start 0, GetNodes as written returns, if at all, the owners of a walk of at most len(ring) steps |
| Hashing.AsWrittenOwnersFrom | hashing/hashing.go:178-191 | from a positive start, GetNodes as written returns, if at all, the owners of a walk of at most len(ring) - 1 steps |
| Hashing.GetNodesAsWrittenOwners | hashing/hashing.go:170-191 | from any in-range start, GetNodes as written returns, if at all, the first-met owners of a walk of at most len(ring) steps from 0, or len(ring) - 1 from a positive start |
| Hashing.GetNodesAsWrittenPositiveStart | hashing/hashing.go:178-190 | from a positive in-range start, with fuel for len(ring) - 1 iterations, GetNodes as written returns those owners |
| Hashing.GetNodesAsWrittenShape | hashing/hashing.go:170-191 | whatever GetNodes as written returns from an in-range start has no identity twice, no more nodes than the ring has entries or nodeCount, only owners of ring entries, and starts with the start entry's owner |
| Hashing.FirstStopRaise | hashing/hashing.go:181 | raising the bound by one changes the stop only when the walk ran into the old bound |
| Hashing.TwinMetBeforeLast | hashing/hashing.go:179-186 | the identity of the entry just before start, when another entry shares it, is met within len(ring) - 1 steps |
| Hashing.FirstMetWalkSeen | hashing/hashing.go:182-186 | a step that meets a known identity leaves the first-met owners unchanged |
| Hashing.FullTurnLastMet | hashing/hashing.go:179-186 | reading the entry just before start adds nothing when another entry shares its identity |
| Hashing.FirstOwnersBoundAgree | hashing/hashing.go:179-181 | then stopping one step short of a full turn collects the same owners |
| Hashing.GetNodesFixAgrees | hashing/hashing.go:170-191 | wherever GetNodes as written returns from an in-range start that is 0, or whose preceding entry shares its identity with another entry, it returns what the corrected GetNodes returns |
| Hashing.GetNodesReplicatedAgrees | hashing/hashing.go:170-191 | on a ring where every entry shares its identity with another, as when each node has two replicas or more, GetNodes as written agrees with the corrected GetNodes wherever it returns |
| Strings.ReplaceChar | bucky/tar.go:108 | strings.Replace with a one-character pattern keeps the length |
| Strings.ReplaceCharAt | bucky/tar.go:108 | strings.Replace with a one-character pattern and -1 maps each occurrence of the character and keeps every other character |
| Strings.ReplaceCharInverse | bucky/tar.go:106-124 | replacing a by b and then b by a restores any string that had no b |
| Tar.TrimLeadingSlashes | bucky/tar.go:109-111 | the leading-slash loop (also bucky/tar.go:118-120) never lengthens its input, leaves a result that is empty or does not start with '/', and changes nothing when there is no leading '/' |
| Tar.TrimLeadingSlashesCut | bucky/tar.go:109-111 | the leading-slash loop removes a prefix made only of '/' and keeps the rest |
| Tar.MetricToPath | bucky/tar.go:106-114 | the loop computes MetricPath: dots become slashes, ".wsp" is appended, leading slashes go; it always stops, because the suffix is never trimmed |
| Tar.MetricPathShape | bucky/tar.go:106-114 | every produced path has at least four characters, does not start with '/', ends in ".wsp" and has no '.' before it |
| Tar.PathToMetric | bucky/tar.go:116-124 | the loop computes PathMetric, with a fault for an all-slash path (index out of range) and for fewer than four remaining characters (slice bounds) |
| Tar.PathMetricFaults | bucky/tar.go:116-124 | PathToMetric faults if and only if fewer than four characters follow the leading slashes; a produced metric has no '/' |
| Tar.PathMetricOfStem | bucky/tar.go:116-124 | a stem not starting with '/', with ".wsp" appended, converts to the stem with dots for slashes |
| Tar.MetricRoundTrip | bucky/tar.go:106-124 | a metric without '/' that does not start with '.' survives MetricToPath then PathToMetric |
| Tar.PathRoundTrip | bucky/tar.go:106-124 | a path of the shape MetricToPath produces survives PathToMetric then MetricToPath |
| Tar.Flatten | bucky/tar.go:173-178 | a metric is in the flattened list if and only if some server in the iteration order lists it |
| Strings.LessEqTotal | bucky/tar.go:179 | any two strings are ordered one way or the other by Go's `<=` |
| Strings.LessEqTransitive | bucky/tar.go:179 | Go's `<=` on strings is transitive |
| Strings.LessEqAntisymmetric | bucky/tar.go:179 | strings ordered both ways by Go's `<=` are equal |
| Strings.InsertString | bucky/tar.go:179 | inserting into a sorted list keeps it sorted and adds exactly the element |
| Strings.SortStrings | bucky/tar.go:179 | the sort's result is sorted and is a permutation of its input |
| Tar.BuildWorkList | bucky/tar.go:171-179 | the work list is sorted and a permutation of every server's metrics in iteration order; each listed metric maps to a server that lists it, and only listed metrics are mapped |

## Left out

- The MD5 algorithm (RFC 1321) is a parameter `md5`: any total function from strings to 16-byte digests. The proofs hold for every such function.
- The source comments at hashing/hashing.go:46 and :49 speak of a 64-bit hash and its last two bytes. The code folds the first two bytes of the 16-byte digest, and the model follows the code.
- `HashRing.String` (hashing/hashing.go:106-114) only formats text for logging, and `main` (hashing/hashing.go:193-232) is a demo driver. Neither is modelled.
- Slice capacity, `append` aliasing of the underlying array, and `copy`'s memory moves are not modelled. Slices are `seq` values that the methods reassign.
- Hashing.HashRing.constructor takes `md5` as an argument, because the digest function is a parameter of the whole model.
- Go strings are byte strings, and `%d`, `strings.Replace` and `sort.Strings` work on bytes. The model uses `seq<char>`, which agrees with them character by character when the text is ASCII.
- Strings.SortStrings: `sort.Strings` is modelled as a function, an insertion sort specified by sortedness and permutation. It is not the in-place algorithm Go uses.
- Tar.BuildWorkList: Go's map iteration order is unspecified. It is the parameter `order`, any duplicate-free enumeration of the map's keys. When a metric is listed under two servers, the `servers` entry that survives depends on that order, and the contract says only that it is one of the servers listing the metric.
- `GetMetricData`, `writeTar`, `getMetricWorker`, the channels, wait groups, goroutines, `workerErrors`, and the rest of `multiplexTar` after the sort (bucky/tar.go:180 onward) are network, archive and concurrency code. They are not modelled, and neither are the command-line entry points of the tar command.
- A Go panic stops the program. The model returns it as a `Panic` outcome: `EmptyRing` for the explicit panic, `IndexOutOfRange` and `SliceBoundsOutOfRange` for the run-time ones.
- Hashing.GetNodesAsWritten: the loop as written is modelled with a fuel bound, so non-termination shows up as `Running` for every fuel.

## Findings

| source | as written | input that shows it | evidently intended | confidence | as-written member | corrected member |
|---|---|---|---|---|---|---|
| hashing/hashing.go:163-167 | GetNode reads ring[bisect(...)] although bisect returns len(ring) when the key's position is above every entry | ring [a@100] and a key at position 0xffff: index out of range | wrap round to the first entry, the lowest position | not executed | Hashing.GetNodeAsWrittenOutOfRange | Hashing.HashRing.GetNode |
| hashing/hashing.go:178-182 | GetNodes starts its walk at the bisect index without wrapping it, so its first read is past the end | a sorted ring, a position above its last entry and at least one node: index out of range on the first iteration | start at index 0 when bisect returns len(ring) | not executed | Hashing.GetNodesAsWrittenOutOfRange | Hashing.HashRing.GetNodes |
| hashing/hashing.go:179-181 | when bisect returns 0, last is -1, which the index never reaches; the loop then ends if and only if the node list holds no more entries than the ring has identities (GetNodesAsWrittenFromZeroIff), so a duplicate registration makes it run forever | with any digest function: a new ring, SetReplicas(1), then AddNode(a) twice (AddNode does not check) gives ring [e, e] and nodes [a, a]; GetNodes on the key of a's replica 0, whose position bisect places at index 0: no fuel ends the loop | stop after one full turn of the ring | not executed | Hashing.DuplicateAddNodeDiverges | Hashing.CollectOwners |
| hashing/hashing.go:179-181 | from a positive start the loop stops on reaching index - 1 before reading it, so the entry just before the start is never visited; the result differs only when that entry is the sole entry of its identity (GetNodesFixAgrees proves agreement otherwise) | ring [a@10, b@20], two nodes, key at 15: returns [b] and misses a | visit every entry of one full turn, so every identity on the ring is returned | not executed | Hashing.GetNodesAsWrittenMissesNode | Hashing.HashRing.GetNodes |
