/**
 * The consistent-hashing ring: the node list, the sorted ring of virtual
 * nodes and the replica count, with AddNode/RemoveNode (mutation) and
 * GetNode/GetNodes (lookup). The two lookups here carry the wraparound fix;
 * GetNodeAsWritten and GetNodesAsWritten model the lookups exactly as the
 * Go code has them, and the lemmas beside them show where they fail.
 */
module Hashing {
  import opened Outcomes
  import opened Strings
  import opened Nodes
  import opened Position
  import opened RingStore

  const DEFAULT_REPLICAS := 100

  /** The number of times `for i := 0; i < replicas; i++` runs. */
  function ReplicaCount(replicas: int): (n: nat)
    ensures replicas >= 0 ==> n == replicas
    ensures replicas < 0 ==> n == 0
  {
    if replicas < 0 then 0 else replicas
  }

  /** The text hashed for replica i of node: fmt.Sprintf("%s:%d", node.KeyValue(), i). */
  function ReplicaKey(node: Node, i: nat): (k: string)
    ensures |k| > |node.KeyValue()| + 1
    ensures k[..|node.KeyValue()|] == node.KeyValue() && k[|node.KeyValue()|] == ':'
    ensures var digits := k[|node.KeyValue()| + 1..];
      && (forall j :: 0 <= j < |digits| ==> IsDigit(digits[j]))
      && ParseDecimal(digits) == i
  {
    var prefix := node.KeyValue() + ":";
    DecimalRoundTrip(i);
    assert (prefix + Decimal(i))[|prefix|..] == Decimal(i);
    prefix + Decimal(i)
  }

  /** The replicas of one node are hashed from pairwise distinct strings. */
  lemma ReplicaKeysDistinct(node: Node, i: nat, j: nat)
    ensures ReplicaKey(node, i) == ReplicaKey(node, j) <==> i == j
  {
    var prefix := node.KeyValue() + ":";
    if ReplicaKey(node, i) == ReplicaKey(node, j) {
      assert ReplicaKey(node, i)[|prefix|..] == Decimal(i);
      assert ReplicaKey(node, j)[|prefix|..] == Decimal(j);
      DecimalInjective(i, j);
    }
  }

  /** Across nodes with quote-free servers, every (node, replica) pair is hashed from its own string. */
  lemma ReplicaKeyInjective(a: Node, b: Node, i: nat, j: nat)
    requires '\'' !in a.server && '\'' !in b.server
    ensures ReplicaKey(a, i) == ReplicaKey(b, j) <==> a == b && i == j
  {
    var s := ReplicaKey(a, i);
    var ka, kb := a.KeyValue(), b.KeyValue();
    if s == ReplicaKey(b, j) {
      // Both renderings end in ')', and no ')' follows in ":" + Decimal(_).
      LastIndexOfAt(s, ')', |ka| - 1);
      LastIndexOfAt(ReplicaKey(b, j), ')', |kb| - 1);
      assert ka == s[..|ka|] && kb == s[..|kb|];
      assert Decimal(i) == s[|ka| + 1..] && Decimal(j) == s[|kb| + 1..];
      KeyValueInjective(a, b);
      DecimalInjective(i, j);
    }
  }

  /** The ring entry of replica i of node. */
  function ReplicaEntry(md5: Hasher, node: Node, i: nat): RingEntry {
    RingEntry(RingPosition(md5, ReplicaKey(node, i)), node)
  }

  /** The entries of replicas 0 .. n-1 of node, in the order AddNode inserts them. */
  function ReplicaEntries(md5: Hasher, node: Node, n: nat): seq<RingEntry> {
    seq(n, i requires 0 <= i < n => ReplicaEntry(md5, node, i))
  }

  /** Inserting an entry of identity id and then removing id gives back what was there. */
  lemma WithoutInsertSorted(ring: seq<RingEntry>, e: RingEntry, id: string)
    requires EntryIdentity(e) == id
    ensures Without(InsertSorted(ring, e), EntryIdentity, id) == Without(ring, EntryIdentity, id)
  {
    var k := InsertionIndex(ring, e.position);
    var a, b := ring[..k], ring[k..];
    assert InsertSorted(ring, e) == a + ([e] + b);
    assert ring == a + b;
    assert Without([e] + b, EntryIdentity, id) == Without(b, EntryIdentity, id) by {
      assert ([e] + b)[0] == e && ([e] + b)[1..] == b;
    }
    WithoutConcat(a, [e] + b, EntryIdentity, id);
    WithoutConcat(a, b, EntryIdentity, id);
  }

  /** Inserting entries of one identity and then removing that identity gives back what was there. */
  lemma {:induction false} WithoutInsertAll(ring: seq<RingEntry>, es: seq<RingEntry>, id: string)
    requires forall e :: e in es ==> EntryIdentity(e) == id
    ensures Without(InsertAll(ring, es), EntryIdentity, id) == Without(ring, EntryIdentity, id)
  {
    if es != [] {
      var front, e := es[..|es| - 1], es[|es| - 1];
      assert InsertAll(ring, es) == InsertSorted(InsertAll(ring, front), e);
      WithoutInsertSorted(InsertAll(ring, front), e, id);
      assert forall x :: x in front ==> x in es;
      WithoutInsertAll(ring, front, id);
    }
  }

  /**
   * RemoveNode undoes AddNode: adding a node whose identity is not yet
   * registered and then removing it restores both the ring and the node list.
   */
  lemma AddThenRemoveRestores(md5: Hasher, ring: seq<RingEntry>, nodes: seq<Node>, node: Node, n: nat)
    requires forall e :: e in ring ==> EntryIdentity(e) != node.String()
    requires forall x :: x in nodes ==> NodeIdentity(x) != node.String()
    ensures Without(InsertAll(ring, ReplicaEntries(md5, node, n)), EntryIdentity, node.String()) == ring
    ensures Without(nodes + [node], NodeIdentity, node.String()) == nodes
  {
    WithoutInsertAll(ring, ReplicaEntries(md5, node, n), node.String());
    WithoutNoMatch(ring, EntryIdentity, node.String());
    WithoutConcat(nodes, [node], NodeIdentity, node.String());
    WithoutNoMatch(nodes, NodeIdentity, node.String());
  }

  /** Removing one identity from both the ring and the node list keeps every entry's owner registered. */
  lemma WithoutKeepsOwners(ring: seq<RingEntry>, nodes: seq<Node>, id: string)
    requires forall e :: e in ring ==> e.node in nodes
    ensures forall e :: e in Without(ring, EntryIdentity, id) ==> e.node in Without(nodes, NodeIdentity, id)
  {
    WithoutMembers(ring, EntryIdentity, id);
    WithoutMembers(nodes, NodeIdentity, id);
    forall e | e in Without(ring, EntryIdentity, id)
      ensures e.node in Without(nodes, NodeIdentity, id)
    {
      assert e in ring && EntryIdentity(e) != id;
      assert NodeIdentity(e.node) != id;
    }
  }

  /** Every entry's owner is one of the registered nodes. */
  ghost predicate Registered(ring: seq<RingEntry>, nodes: seq<Node>) {
    forall e :: e in ring ==> e.node in nodes
  }

  /** One AddNode iteration: inserting an entry of a registered node keeps the ring sorted and registered. */
  lemma InsertKeepsValid(ring: seq<RingEntry>, nodes: seq<Node>, e: RingEntry)
    requires Sorted(ring) && Registered(ring, nodes) && e.node in nodes
    ensures Sorted(InsertSorted(ring, e)) && Registered(InsertSorted(ring, e), nodes)
  {
    var r := InsertSorted(ring, e);
    InsertSortedPermutes(ring, e);
    InsertSortedKeepsSorted(ring, e);
    forall x | x in r ensures x.node in nodes {
      assert x in multiset(r);
    }
  }

  /** The replica entries of n + 1 replicas are those of n followed by replica n's. */
  lemma ReplicaEntriesStep(md5: Hasher, node: Node, n: nat, ring: seq<RingEntry>)
    ensures InsertAll(ring, ReplicaEntries(md5, node, n + 1))
      == InsertSorted(InsertAll(ring, ReplicaEntries(md5, node, n)), ReplicaEntry(md5, node, n))
  {
    var es := ReplicaEntries(md5, node, n + 1);
    assert es[..n] == ReplicaEntries(md5, node, n);
  }

  /** The identities of a list of nodes. */
  function Ids(ns: seq<Node>): set<string> {
    set x | x in ns :: x.String()
  }

  /** The identities of the owners of a list of ring entries. */
  function EntryIds(ring: seq<RingEntry>): set<string> {
    set e | e in ring :: e.node.String()
  }

  ghost predicate DistinctIds(ns: seq<Node>) {
    forall i, j :: 0 <= i < j < |ns| ==> ns[i].String() != ns[j].String()
  }

  lemma SubsetCard<T>(a: set<T>, b: set<T>)
    requires a <= b
    ensures |a| <= |b|
  {
    if a != {} {
      var x :| x in a;
      SubsetCard(a - {x}, b - {x});
    }
  }

  /** A subset at least as large as its superset is all of it. */
  lemma SubsetFull<T>(a: set<T>, b: set<T>)
    requires a <= b && |b| <= |a|
    ensures a == b
  {
    if a != b {
      assert !(b <= a);
      var x :| x in b && x !in a;
      SubsetCard(a, b - {x});
    }
  }

  /** A list of nodes has at most as many identities as elements. */
  lemma {:induction false} IdsCard(ns: seq<Node>)
    ensures |Ids(ns)| <= |ns|
  {
    if ns != [] {
      var front := ns[..|ns| - 1];
      assert ns == front + [ns[|ns| - 1]];
      assert Ids(ns) == Ids(front) + {ns[|ns| - 1].String()};
      IdsCard(front);
    }
  }

  /**
   * The owner's index for position p: the leftmost entry at or after p, or,
   * when every entry lies below p, the first entry (the ring wraps around).
   */
  function OwnerIndex(ring: seq<RingEntry>, p: int): (i: nat)
    requires |ring| > 0
    ensures i < |ring|
    ensures (exists j :: 0 <= j < |ring| && ring[j].position >= p) ==>
      ring[i].position >= p && forall j :: 0 <= j < i ==> ring[j].position < p
    ensures (forall j :: 0 <= j < |ring| ==> ring[j].position < p) ==> i == 0
  {
    var i := InsertionIndex(ring, p);
    if i == |ring| then 0 else i
  }

  /**
   * On a sorted ring the owner is the nearest entry clockwise from p: no
   * entry at or after p comes before it, and after a wraparound it is the
   * lowest entry of the ring.
   */
  lemma OwnerIsNearest(ring: seq<RingEntry>, p: int, j: nat)
    requires Sorted(ring) && j < |ring|
    ensures var o := OwnerIndex(ring, p);
      && (ring[j].position >= p ==> p <= ring[o].position <= ring[j].position)
      && (ring[|ring| - 1].position < p ==> ring[o].position <= ring[j].position)
  {
    var o := OwnerIndex(ring, p);
    if ring[j].position >= p {
      assert o <= j;
    }
  }

  /** Index j of a walk of n entries that starts at start and wraps once: (start + j) mod n. */
  function WalkIndex(n: nat, start: nat, j: nat): (m: nat)
    requires start < n && j < n
    ensures m < n
  {
    if start + j < n then start + j else start + j - n
  }

  /** The first k entries met walking forward from index start. */
  function Walk(ring: seq<RingEntry>, start: nat, k: nat): (w: seq<RingEntry>)
    requires start < |ring| && k <= |ring|
    ensures |w| == k
  {
    seq(k, j requires 0 <= j < k => ring[WalkIndex(|ring|, start, j)])
  }

  /** A walk once around the ring meets every entry. */
  lemma WalkCovers(ring: seq<RingEntry>, start: nat)
    requires start < |ring|
    ensures forall e :: e in ring ==> e in Walk(ring, start, |ring|)
    ensures EntryIds(Walk(ring, start, |ring|)) == EntryIds(ring)
  {
    var n, w := |ring|, Walk(ring, start, |ring|);
    forall e | e in ring ensures e in w {
      var m :| 0 <= m < n && ring[m] == e;
      var j := if m >= start then m - start else m + n - start;
      assert w[j] == ring[m];
    }
  }

  /** The owners met along a walk, each identity once, in the order first met. */
  function FirstMet(walk: seq<RingEntry>): (r: seq<Node>)
    ensures |r| <= |walk|
  {
    if walk == [] then []
    else
      var prev := FirstMet(walk[..|walk| - 1]);
      var last := walk[|walk| - 1];
      if last.node.String() in Ids(prev) then prev else prev + [last.node]
  }

  /**
   * The list has no identity twice and has every identity of the walk, and
   * it starts with the owner of the first entry met.
   */
  lemma {:induction false} FirstMetIdentities(walk: seq<RingEntry>)
    ensures var r := FirstMet(walk);
      && DistinctIds(r)
      && Ids(r) == EntryIds(walk)
      && (walk != [] ==> r != [] && r[0] == walk[0].node)
  {
    if walk != [] {
      var front, last := walk[..|walk| - 1], walk[|walk| - 1];
      var prev := FirstMet(front);
      FirstMetIdentities(front);
      assert walk == front + [last];
      assert EntryIds(walk) == EntryIds(front) + {last.node.String()};
      assert |walk| > 1 ==> front[0] == walk[0];
      if last.node.String() !in Ids(prev) {
        assert Ids(prev + [last.node]) == Ids(prev) + {last.node.String()};
        var r := prev + [last.node];
        forall i, j | 0 <= i < j < |r| ensures r[i].String() != r[j].String() {
          if j == |prev| {
            assert r[i] in prev;
          }
        }
      }
    }
  }

  /** Every node listed is the owner of an entry met on the walk. */
  lemma {:induction false} FirstMetOwners(walk: seq<RingEntry>)
    ensures forall x :: x in FirstMet(walk) ==> exists e :: e in walk && e.node == x
  {
    if walk != [] {
      var front, last := walk[..|walk| - 1], walk[|walk| - 1];
      FirstMetOwners(front);
      assert forall e :: e in front ==> e in walk;
    }
  }

  /** One more step of a walk meets one more entry, whose owner joins the list when its identity is new. */
  lemma FirstMetWalkStep(ring: seq<RingEntry>, start: nat, steps: nat)
    requires start < |ring| && steps < |ring|
    ensures var prev, next := FirstMet(Walk(ring, start, steps)), ring[WalkIndex(|ring|, start, steps)];
      FirstMet(Walk(ring, start, steps + 1))
        == if next.node.String() in Ids(prev) then prev else prev + [next.node]
  {
    var walk := Walk(ring, start, steps + 1);
    assert walk[..steps] == Walk(ring, start, steps);
  }

  /** A walk meets only entries of the ring. */
  lemma WalkWithinRing(ring: seq<RingEntry>, start: nat, k: nat)
    requires start < |ring| && k <= |ring|
    ensures forall e :: e in Walk(ring, start, k) ==> e in ring
    ensures EntryIds(Walk(ring, start, k)) <= EntryIds(ring)
  {
    var w := Walk(ring, start, k);
    forall e | e in w ensures e in ring {
      var j :| 0 <= j < k && w[j] == e;
      assert ring[WalkIndex(|ring|, start, j)] == e;
    }
  }

  /**
   * Once a walk has met as many identities as there are registered nodes,
   * it has met every identity on the ring.
   */
  lemma EnoughIdsCoverRing(ring: seq<RingEntry>, nodes: seq<Node>, met: set<string>)
    requires Registered(ring, nodes)
    requires met <= EntryIds(ring) && |nodes| <= |met|
    ensures met == EntryIds(ring)
  {
    assert EntryIds(ring) <= Ids(nodes) by {
      forall id | id in EntryIds(ring) ensures id in Ids(nodes) {
        var e :| e in ring && e.node.String() == id;
        assert e.node in nodes;
      }
    }
    IdsCard(nodes);
    SubsetFull(met, Ids(nodes));
  }

  /** (i + 1) % n for an index i of a ring of n entries: the next index, wrapping to 0. */
  function Successor(i: nat, n: nat): (j: nat)
    requires i < n
    ensures j == if i + 1 < n then i + 1 else 0
  {
    (i + 1) % n
  }

  /** An iteration of the corrected GetNodes loop that meets a new identity keeps its invariant. */
  lemma GetNodesStepNew(ring: seq<RingEntry>, start: nat, steps: nat, index: nat, seen: set<string>, result: seq<Node>)
    requires start < |ring| && steps < |ring| && index == WalkIndex(|ring|, start, steps)
    requires result == FirstMet(Walk(ring, start, steps)) && seen == Ids(result) && |seen| == |result|
    requires ring[index].node.String() !in seen
    ensures result + [ring[index].node] == FirstMet(Walk(ring, start, steps + 1))
    ensures seen + {ring[index].node.String()} == Ids(result + [ring[index].node])
    ensures |seen + {ring[index].node.String()}| == |result + [ring[index].node]|
  {
    FirstMetWalkStep(ring, start, steps);
    IdsAppend(result, ring[index].node);
  }

  /** An iteration of the corrected GetNodes loop that meets a known identity keeps its invariant. */
  lemma GetNodesStepSeen(ring: seq<RingEntry>, start: nat, steps: nat, index: nat, seen: set<string>, result: seq<Node>)
    requires start < |ring| && steps < |ring| && index == WalkIndex(|ring|, start, steps)
    requires result == FirstMet(Walk(ring, start, steps)) && seen == Ids(result)
    requires ring[index].node.String() in seen
    ensures result == FirstMet(Walk(ring, start, steps + 1))
  {
    FirstMetWalkStep(ring, start, steps);
  }

  /** A node of a new identity adds exactly one identity. */
  lemma IdsAppend(ns: seq<Node>, n: Node)
    requires n.String() !in Ids(ns)
    ensures Ids(ns + [n]) == Ids(ns) + {n.String()}
    ensures |Ids(ns + [n])| == |Ids(ns)| + 1
  {
    assert Ids(ns + [n]) == Ids(ns) + {n.String()};
  }

  /**
   * ns is a replica set for the walk from index s: the owners met going
   * forward from s, each identity once and in the order first met, covering
   * every identity on the ring, no longer than the node list, and led by the
   * owner of s.
   */
  ghost predicate IsReplicaSet(ring: seq<RingEntry>, nodes: seq<Node>, s: nat, ns: seq<Node>)
    requires s < |ring|
  {
    && DistinctIds(ns)
    && Ids(ns) == EntryIds(ring)
    && |ns| <= |nodes|
    && ns != [] && ns[0] == ring[s].node
    && (forall x :: x in ns ==> exists e :: e in ring && e.node == x)
    && exists k :: 0 < k <= |ring| && ns == FirstMet(Walk(ring, s, k))
  }

  /**
   * The walk's two ways to stop both yield a replica set: one full turn
   * meets every entry, and as many identities as registered nodes are all
   * the identities the ring has.
   */
  lemma WalkEndIsReplicaSet(ring: seq<RingEntry>, nodes: seq<Node>, start: nat, steps: nat, result: seq<Node>)
    requires Registered(ring, nodes) && start < |ring| && 0 < steps <= |ring|
    requires result == FirstMet(Walk(ring, start, steps))
    requires |Ids(result)| == |result| <= |nodes|
    requires steps == |ring| || |nodes| <= |Ids(result)|
    ensures IsReplicaSet(ring, nodes, start, result)
  {
    WalkWithinRing(ring, start, steps);
    FirstMetIdentities(Walk(ring, start, steps));
    FirstMetOwners(Walk(ring, start, steps));
    if steps == |ring| {
      WalkCovers(ring, start);
    } else {
      EnoughIdsCoverRing(ring, nodes, Ids(result));
    }
  }

  /**
   * The step at which a walk from start that may go bound steps stops: the
   * first step k at which nodeCount identities have been met, or bound.
   */
  function FirstStop(ring: seq<RingEntry>, nodeCount: int, start: nat, bound: nat, k: nat): (r: nat)
    requires start < |ring| && k <= bound <= |ring|
    ensures k <= r <= bound
    ensures r == bound || nodeCount <= |FirstMet(Walk(ring, start, r))|
    ensures forall j :: k <= j < r ==> |FirstMet(Walk(ring, start, j))| < nodeCount
    decreases bound - k
  {
    if k == bound || nodeCount <= |FirstMet(Walk(ring, start, k))| then k
    else FirstStop(ring, nodeCount, start, bound, k + 1)
  }

  /** The owners collected by a walk from start of at most bound steps that stops as FirstStop says. */
  function FirstOwners(ring: seq<RingEntry>, nodeCount: int, start: nat, bound: nat): seq<Node>
    requires start < |ring| && bound <= |ring|
  {
    FirstMet(Walk(ring, start, FirstStop(ring, nodeCount, start, bound, 0)))
  }

  /**
   * Whatever its bound, the walk collects owners of ring entries, none
   * twice, no more than nodeCount, led by the owner of start.
   */
  lemma FirstOwnersShape(ring: seq<RingEntry>, nodeCount: int, start: nat, bound: nat)
    requires start < |ring| && bound <= |ring|
    ensures var ns := FirstOwners(ring, nodeCount, start, bound);
      && DistinctIds(ns)
      && |ns| <= bound
      && (nodeCount >= 0 ==> |ns| <= nodeCount)
      && (nodeCount > 0 && bound > 0 ==> ns != [] && ns[0] == ring[start].node)
      && (forall x :: x in ns ==> exists e :: e in ring && e.node == x)
  {
    var k := FirstStop(ring, nodeCount, start, bound, 0);
    var w := Walk(ring, start, k);
    assert FirstMet(Walk(ring, start, 0)) == [] by {
      assert Walk(ring, start, 0) == [];
    }
    FirstMetIdentities(w);
    FirstMetOwners(w);
    WalkWithinRing(ring, start, k);
    if k > 0 {
      FirstMetWalkStep(ring, start, k - 1);
    }
  }

  // ---------------------------------------------------------------------
  // The lookups as the Go code writes them.
  // ---------------------------------------------------------------------

  /** GetNode as written: the entry at the bisect index, read even when that index is one past the end. */
  function GetNodeAsWritten(ring: seq<RingEntry>, p: int): Outcome<Node> {
    if |ring| == 0 then Panic(EmptyRing)
    else
      var i := InsertionIndex(ring, p);
      if i < |ring| then Ok(ring[i].node) else Panic(IndexOutOfRange)
  }

  /** On a sorted ring, GetNode as written faults exactly for positions above the last entry. */
  lemma GetNodeAsWrittenOutOfRange(ring: seq<RingEntry>, p: int)
    requires Sorted(ring) && |ring| > 0
    ensures GetNodeAsWritten(ring, p) == Panic(IndexOutOfRange) <==> ring[|ring| - 1].position < p
  {
    InsertionIndexAtEnd(ring, p);
  }

  /** One ring and one position that make GetNode as written fault. */
  lemma GetNodeAsWrittenExample()
    ensures GetNodeAsWritten([RingEntry(100, Node("a", ""))], 0xffff) == Panic(IndexOutOfRange)
  {
  }

  /** Wherever GetNode as written returns a node, the corrected owner is that node. */
  lemma GetNodeFixAgrees(ring: seq<RingEntry>, p: int)
    requires |ring| > 0 && GetNodeAsWritten(ring, p).Ok?
    ensures GetNodeAsWritten(ring, p) == Ok(ring[OwnerIndex(ring, p)].node)
  {
  }

  /** A bounded run of a loop: it finished with an outcome, or was still looping when the fuel ran out. */
  datatype Run<T> = Done(outcome: Outcome<T>) | Running

  /** The GetNodes loop as written, run for at most `fuel` iterations. */
  function WalkAsWritten(ring: seq<RingEntry>, nodeCount: int, index: int, last: int,
                         seen: set<string>, result: seq<Node>, fuel: nat): (r: Run<seq<Node>>)
    ensures r.Done? && r.outcome.Panic? ==> r.outcome.fault == IndexOutOfRange
    decreases fuel
  {
    if !(|seen| < nodeCount && index != last) then Done(Ok(result))
    else if fuel == 0 then Running
    else if !(0 <= index < |ring|) then Done(Panic(IndexOutOfRange))
    else
      var next := ring[index];
      var id := next.node.String();
      var seen', result' := if id in seen then seen else seen + {id},
                            if id in seen then result else result + [next.node];
      WalkAsWritten(ring, nodeCount, Successor(index, |ring|), last, seen', result', fuel - 1)
  }

  /** The GetNodes loop as written only ever appends to the nodes it has collected. */
  lemma {:induction false} WalkAsWrittenExtends(ring: seq<RingEntry>, nodeCount: int, index: int, last: int,
                                                seen: set<string>, result: seq<Node>, fuel: nat)
    ensures var r := WalkAsWritten(ring, nodeCount, index, last, seen, result, fuel);
      r.Done? && r.outcome.Ok? ==> result <= r.outcome.value
    decreases fuel
  {
    if |seen| < nodeCount && index != last && fuel > 0 && 0 <= index < |ring| {
      var next := ring[index];
      var id := next.node.String();
      if id in seen {
        WalkAsWrittenExtends(ring, nodeCount, Successor(index, |ring|), last, seen, result, fuel - 1);
      } else {
        WalkAsWrittenExtends(ring, nodeCount, Successor(index, |ring|), last, seen + {id}, result + [next.node], fuel - 1);
      }
    }
  }

  /** GetNodes as written: start at the bisect index, stop on reaching the index just before it. */
  function GetNodesAsWritten(ring: seq<RingEntry>, nodeCount: int, p: int, fuel: nat): (r: Run<seq<Node>>)
    ensures r == Done(Panic(EmptyRing)) <==> |ring| == 0
    ensures |ring| > 0 && r.Done? && r.outcome.Panic? ==> r.outcome.fault == IndexOutOfRange
  {
    if |ring| == 0 then Done(Panic(EmptyRing))
    else
      var index := InsertionIndex(ring, p);
      WalkAsWritten(ring, nodeCount, index, index - 1, {}, [], fuel)
  }

  lemma {:induction false} WalkAsWrittenDiverges(ring: seq<RingEntry>, nodeCount: int, index: int,
                                                 seen: set<string>, result: seq<Node>, fuel: nat)
    requires 0 <= index < |ring|
    requires seen <= EntryIds(ring) && |EntryIds(ring)| < nodeCount
    ensures WalkAsWritten(ring, nodeCount, index, -1, seen, result, fuel) == Running
    decreases fuel
  {
    SubsetCard(seen, EntryIds(ring));
    if fuel > 0 {
      var next := ring[index];
      assert next.node.String() in EntryIds(ring);
      var id := next.node.String();
      WalkAsWrittenDiverges(ring, nodeCount, Successor(index, |ring|),
                            if id in seen then seen else seen + {id},
                            if id in seen then result else result + [next.node], fuel - 1);
    }
  }

  /**
   * When the key's bisect index is 0, `last` is -1 and the index never equals
   * it; if the node list holds more entries than the ring has identities, no
   * amount of fuel ends the loop.
   */
  lemma GetNodesAsWrittenDiverges(ring: seq<RingEntry>, nodeCount: int, p: int, fuel: nat)
    requires |ring| > 0 && InsertionIndex(ring, p) == 0
    requires |EntryIds(ring)| < nodeCount
    ensures GetNodesAsWritten(ring, nodeCount, p, fuel) == Running
  {
    WalkAsWrittenDiverges(ring, nodeCount, 0, {}, [], fuel);
  }

  /**
   * The converse of GetNodesAsWrittenDiverges: when bisect returns 0 and the
   * ring holds at least as many identities as there are registered nodes,
   * GetNodes as written returns within len(ring) iterations.
   */
  lemma GetNodesAsWrittenFromZeroReturns(ring: seq<RingEntry>, nodeCount: int, p: int, fuel: nat)
    requires |ring| > 0 && InsertionIndex(ring, p) == 0
    requires nodeCount <= |EntryIds(ring)| && fuel >= |ring|
    ensures GetNodesAsWritten(ring, nodeCount, p, fuel).Done?
  {
    IdsBeforeEntryIds(ring, |ring|);
    assert ring[..|ring|] == ring;
    AsWrittenFromZeroReturns(ring, nodeCount, 0, {}, [], fuel);
  }

  /** GetNodes as written from start 0 returns once or before its step count j reaches len(ring). */
  lemma {:induction false} AsWrittenFromZeroReturns(ring: seq<RingEntry>, nodeCount: int, j: nat,
                                                    seen: set<string>, result: seq<Node>, fuel: nat)
    requires 0 < |ring| && j <= |ring| && seen == IdsBefore(ring, j)
    requires nodeCount <= |IdsBefore(ring, |ring|)| && fuel >= |ring| - j
    requires j < |ring| || nodeCount <= |seen|
    ensures WalkAsWritten(ring, nodeCount, if j < |ring| then j else 0, -1, seen, result, fuel).Done?
    decreases |ring| - j
  {
    if |seen| < nodeCount {
      var seen', result' := AsWrittenStepFromZero(ring, nodeCount, j, seen, result, fuel);
      AsWrittenFromZeroReturns(ring, nodeCount, j + 1, seen', result', fuel - 1);
    }
  }

  /**
   * From bisect index 0 with fuel for a full turn, GetNodes as written
   * returns if and only if the node list does not outnumber the ring's
   * identities.
   */
  lemma GetNodesAsWrittenFromZeroIff(ring: seq<RingEntry>, nodeCount: int, p: int, fuel: nat)
    requires |ring| > 0 && InsertionIndex(ring, p) == 0 && fuel >= |ring|
    ensures GetNodesAsWritten(ring, nodeCount, p, fuel).Done? <==> nodeCount <= |EntryIds(ring)|
  {
    if nodeCount <= |EntryIds(ring)| {
      GetNodesAsWrittenFromZeroReturns(ring, nodeCount, p, fuel);
    } else {
      GetNodesAsWrittenDiverges(ring, nodeCount, p, fuel);
    }
  }

  /**
   * AddNode does not check for an earlier registration: node a added twice
   * with one replica is listed twice but owns one identity on the ring, and
   * a key whose bisect index is 0 then never ends the loop.
   */
  lemma GetNodesAsWrittenDuplicateDiverges(fuel: nat)
    ensures var ring := [RingEntry(100, Node("a", "")), RingEntry(100, Node("a", ""))];
      GetNodesAsWritten(ring, 2, 50, fuel) == Running
  {
    var ring := [RingEntry(100, Node("a", "")), RingEntry(100, Node("a", ""))];
    assert EntryIds(ring) == {"a"} by {
      assert ring[0] in ring;
    }
    GetNodesAsWrittenDiverges(ring, 2, 50, fuel);
  }

  /** On a sorted ring, GetNodes as written faults on its first read for positions above the last entry. */
  lemma GetNodesAsWrittenOutOfRange(ring: seq<RingEntry>, nodeCount: int, p: int, fuel: nat)
    requires Sorted(ring) && |ring| > 0 && nodeCount > 0 && fuel > 0
    requires ring[|ring| - 1].position < p
    ensures GetNodesAsWritten(ring, nodeCount, p, fuel) == Done(Panic(IndexOutOfRange))
  {
    InsertionIndexAtEnd(ring, p);
  }

  /** Steps from index to last walking forward round a ring of n entries. */
  function Distance(n: nat, index: nat, last: nat): nat
    requires index < n && last < n
  {
    if index <= last then last - index else last + n - index
  }

  lemma {:induction false} WalkAsWrittenStops(ring: seq<RingEntry>, nodeCount: int, index: nat, last: nat,
                                              seen: set<string>, result: seq<Node>, fuel: nat)
    requires index < |ring| && last < |ring|
    requires Distance(|ring|, index, last) <= fuel
    ensures WalkAsWritten(ring, nodeCount, index, last, seen, result, fuel).Done?
    ensures WalkAsWritten(ring, nodeCount, index, last, seen, result, fuel).outcome.Ok?
    decreases fuel
  {
    if |seen| < nodeCount && index != last {
      var next := ring[index];
      var id := next.node.String();
      var index' := Successor(index, |ring|);
      assert index' == if index + 1 == |ring| then 0 else index + 1;
      WalkAsWrittenStops(ring, nodeCount, index', last,
                         if id in seen then seen else seen + {id},
                         if id in seen then result else result + [next.node], fuel - 1);
    }
  }

  /**
   * When the bisect index is positive and in range, GetNodes as written ends
   * within |ring| - 1 iterations, on reaching the entry just before its
   * start, which it never reads.
   */
  lemma GetNodesAsWrittenStops(ring: seq<RingEntry>, nodeCount: int, p: int)
    requires 0 < InsertionIndex(ring, p) < |ring|
    ensures GetNodesAsWritten(ring, nodeCount, p, |ring| - 1).Done?
    ensures GetNodesAsWritten(ring, nodeCount, p, |ring| - 1).outcome.Ok?
  {
    var i := InsertionIndex(ring, p);
    WalkAsWrittenStops(ring, nodeCount, i, i - 1, {}, [], |ring| - 1);
  }

  /**
   * Because the entry before the start is never read, GetNodes as written can
   * leave out a registered node: with a at 10 and b at 20 and a key at 15 it
   * returns only b.
   */
  lemma GetNodesAsWrittenMissesNode()
    ensures var ring := [RingEntry(10, Node("a", "")), RingEntry(20, Node("b", ""))];
      && EntryIds(ring) == {"a", "b"}
      && GetNodesAsWritten(ring, 2, 15, 1) == Done(Ok([Node("b", "")]))
  {
    var ring := [RingEntry(10, Node("a", "")), RingEntry(20, Node("b", ""))];
    assert InsertionIndex(ring, 15) == 1;
    var none: set<string> := {};
    var next := ring[1];
    assert next.node.String() == "b" && "b" !in none && |none| < 2;
    assert (1 + 1) % |ring| == 0;
    var seen', result' := none + {"b"}, [] + [next.node];
    assert seen' == {"b"} && result' == [Node("b", "")];
    assert WalkAsWritten(ring, 2, 0, 0, seen', result', 0) == Done(Ok(result'));
    assert WalkAsWritten(ring, 2, 1, 0, none, [], 1) == WalkAsWritten(ring, 2, 0, 0, seen', result', 0);
    assert EntryIds(ring) == {"a", "b"} by {
      assert ring[0] in ring && ring[1] in ring;
    }
  }

  /** The walk's next index, and the one index before start that it reaches last. */
  lemma WalkIndexNext(n: nat, start: nat, j: nat)
    requires start < n && j + 1 < n
    ensures Successor(WalkIndex(n, start, j), n) == WalkIndex(n, start, j + 1)
    ensures 0 < start ==> WalkIndex(n, start, j) != start - 1
    ensures 0 < start ==> WalkIndex(n, start, n - 1) == start - 1
  {
  }

  /**
   * The GetNodes loop as written with its index replaced by the number j of
   * steps taken from start: it ends after bound steps or once it has met
   * nodeCount identities, and only ever appends to result.
   */
  function StepsAsWritten(ring: seq<RingEntry>, nodeCount: int, start: nat, bound: nat, j: nat,
                          seen: set<string>, result: seq<Node>): (r: seq<Node>)
    requires start < |ring| && j <= bound <= |ring|
    decreases bound - j
  {
    if j == bound || !(|seen| < nodeCount) then result
    else
      var next := ring[WalkIndex(|ring|, start, j)];
      var id := next.node.String();
      StepsAsWritten(ring, nodeCount, start, bound, j + 1,
                     if id in seen then seen else seen + {id},
                     if id in seen then result else result + [next.node])
  }

  /** A run that, whenever it returns, returns ns without a fault. */
  ghost predicate ReturnsOk(r: Run<seq<Node>>, ns: seq<Node>) {
    r.Done? ==> r == Done(Ok(ns))
  }

  /**
   * From a positive start, the GetNodes loop as written, once it returns, has
   * taken the steps StepsAsWritten counts up to |ring| - 1: index start - 1
   * is the one it reaches after |ring| - 1 steps and never reads.
   */
  lemma {:induction false} WalkAsWrittenCounted(ring: seq<RingEntry>, nodeCount: int, start: nat, j: nat,
                                                seen: set<string>, result: seq<Node>, fuel: nat)
    requires 0 < start < |ring| && j <= |ring| - 1
    ensures ReturnsOk(WalkAsWritten(ring, nodeCount, WalkIndex(|ring|, start, j), start - 1, seen, result, fuel),
                      StepsAsWritten(ring, nodeCount, start, |ring| - 1, j, seen, result))
    decreases fuel
  {
    var n := |ring|;
    if j == n - 1 {
      WalkIndexNext(n, start, 0);
    } else if |seen| < nodeCount && fuel > 0 {
      var index, index' := WalkIndex(n, start, j), WalkIndex(n, start, j + 1);
      assert Successor(index, n) == index' && index != start - 1 by {
        WalkIndexNext(n, start, j);
      }
      var next := ring[index];
      if next.node.String() in seen {
        assert WalkAsWritten(ring, nodeCount, index, start - 1, seen, result, fuel)
          == WalkAsWritten(ring, nodeCount, index', start - 1, seen, result, fuel - 1);
        WalkAsWrittenCounted(ring, nodeCount, start, j + 1, seen, result, fuel - 1);
      } else {
        var seen', result' := seen + {next.node.String()}, result + [next.node];
        assert WalkAsWritten(ring, nodeCount, index, start - 1, seen, result, fuel)
          == WalkAsWritten(ring, nodeCount, index', start - 1, seen', result', fuel - 1);
        WalkAsWrittenCounted(ring, nodeCount, start, j + 1, seen', result', fuel - 1);
      }
    }
  }

  /**
   * From start 0, where last is -1, the GetNodes loop as written, once it
   * returns, has taken the steps StepsAsWritten counts up to |ring|: a loop
   * that has met every identity of the ring short of nodeCount goes round
   * again without end.
   */
  lemma {:induction false} WalkAsWrittenCountedFromZero(ring: seq<RingEntry>, nodeCount: int, j: nat,
                                                        seen: set<string>, result: seq<Node>, fuel: nat)
    requires 0 < |ring| && j <= |ring| && seen == IdsBefore(ring, j)
    ensures ReturnsOk(WalkAsWritten(ring, nodeCount, if j < |ring| then j else 0, -1, seen, result, fuel),
                      StepsAsWritten(ring, nodeCount, 0, |ring|, j, seen, result))
    decreases fuel
  {
    if |seen| < nodeCount && fuel > 0 {
      if j == |ring| {
        AsWrittenFromZeroRound(ring, nodeCount, seen, result, fuel);
      } else {
        var seen', result' := AsWrittenStepFromZero(ring, nodeCount, j, seen, result, fuel);
        WalkAsWrittenCountedFromZero(ring, nodeCount, j + 1, seen', result', fuel - 1);
      }
    }
  }

  /** Back at index 0 short of nodeCount identities, the loop as written has met them all and goes round forever. */
  lemma AsWrittenFromZeroRound(ring: seq<RingEntry>, nodeCount: int, seen: set<string>, result: seq<Node>, fuel: nat)
    requires 0 < |ring| && seen == IdsBefore(ring, |ring|) && |seen| < nodeCount
    ensures WalkAsWritten(ring, nodeCount, 0, -1, seen, result, fuel) == Running
  {
    IdsBeforeEntryIds(ring, |ring|);
    assert ring[..|ring|] == ring;
    WalkAsWrittenDiverges(ring, nodeCount, 0, seen, result, fuel);
  }

  /**
   * One step of WalkAsWrittenCountedFromZero: both loops read entry j and
   * move on alike, and the identities met are those of the first j + 1 entries.
   */
  lemma AsWrittenStepFromZero(ring: seq<RingEntry>, nodeCount: int, j: nat, seen: set<string>, result: seq<Node>,
                              fuel: nat)
      returns (seen': set<string>, result': seq<Node>)
    requires j < |ring| && |seen| < nodeCount && fuel > 0 && seen == IdsBefore(ring, j)
    ensures seen' == IdsBefore(ring, j + 1)
    ensures WalkAsWritten(ring, nodeCount, j, -1, seen, result, fuel)
         == WalkAsWritten(ring, nodeCount, if j + 1 < |ring| then j + 1 else 0, -1, seen', result', fuel - 1)
    ensures StepsAsWritten(ring, nodeCount, 0, |ring|, j, seen, result)
         == StepsAsWritten(ring, nodeCount, 0, |ring|, j + 1, seen', result')
  {
    assert WalkIndex(|ring|, 0, j) == j;
    var id := ring[j].node.String();
    if id in seen {
      seen', result' := seen, result;
    } else {
      seen', result' := seen + {id}, result + [ring[j].node];
    }
  }

  /** The identities of the first j entries of the ring, gathered one entry at a time. */
  function IdsBefore(ring: seq<RingEntry>, j: nat): set<string>
    requires j <= |ring|
  {
    if j == 0 then {} else IdsBefore(ring, j - 1) + {ring[j - 1].node.String()}
  }

  lemma {:induction false} IdsBeforeEntryIds(ring: seq<RingEntry>, j: nat)
    requires j <= |ring|
    ensures IdsBefore(ring, j) == EntryIds(ring[..j])
  {
    if j > 0 {
      IdsBeforeEntryIds(ring, j - 1);
      assert ring[..j] == ring[..j - 1] + [ring[j - 1]];
    }
  }

  /** One step of FirstStop: a step below bound that has not met nodeCount identities goes on. */
  lemma FirstStopStep(ring: seq<RingEntry>, nodeCount: int, start: nat, bound: nat, j: nat)
    requires start < |ring| && j < bound <= |ring|
    requires |FirstMet(Walk(ring, start, j))| < nodeCount
    ensures FirstStop(ring, nodeCount, start, bound, j) == FirstStop(ring, nodeCount, start, bound, j + 1)
  {
  }

  /** The walk as it stands after j steps, kept by the GetNodes loop as written. */
  ghost predicate WalkState(ring: seq<RingEntry>, start: nat, j: nat, seen: set<string>, result: seq<Node>)
    requires start < |ring| && j <= |ring|
  {
    result == FirstMet(Walk(ring, start, j)) && seen == Ids(result) && |seen| == |result|
  }

  /** An iteration of the GetNodes loop as written keeps the walk state. */
  lemma WalkStateStep(ring: seq<RingEntry>, start: nat, j: nat, seen: set<string>, result: seq<Node>)
    requires start < |ring| && j < |ring| && WalkState(ring, start, j, seen, result)
    ensures var next := ring[WalkIndex(|ring|, start, j)];
      var id := next.node.String();
      WalkState(ring, start, j + 1, if id in seen then seen else seen + {id},
                if id in seen then result else result + [next.node])
  {
    var index := WalkIndex(|ring|, start, j);
    if ring[index].node.String() in seen {
      GetNodesStepSeen(ring, start, j, index, seen, result);
    } else {
      GetNodesStepNew(ring, start, j, index, seen, result);
    }
  }

  /**
   * Counted in steps, the GetNodes loop as written returns the owners first
   * met on the walk up to the first step that has met nodeCount identities,
   * or up to bound.
   */
  lemma {:induction false} StepsAsWrittenOwners(ring: seq<RingEntry>, nodeCount: int, start: nat, bound: nat, j: nat,
                                                seen: set<string>, result: seq<Node>)
    requires start < |ring| && j <= bound <= |ring|
    requires WalkState(ring, start, j, seen, result)
    ensures StepsAsWritten(ring, nodeCount, start, bound, j, seen, result)
      == FirstMet(Walk(ring, start, FirstStop(ring, nodeCount, start, bound, j)))
    decreases bound - j
  {
    if j < bound && |seen| < nodeCount {
      var next := ring[WalkIndex(|ring|, start, j)];
      assert FirstStop(ring, nodeCount, start, bound, j) == FirstStop(ring, nodeCount, start, bound, j + 1) by {
        FirstStopStep(ring, nodeCount, start, bound, j);
      }
      if next.node.String() in seen {
        assert WalkState(ring, start, j + 1, seen, result) by {
          WalkStateStep(ring, start, j, seen, result);
        }
        StepsAsWrittenOwners(ring, nodeCount, start, bound, j + 1, seen, result);
      } else {
        assert WalkState(ring, start, j + 1, seen + {next.node.String()}, result + [next.node]) by {
          WalkStateStep(ring, start, j, seen, result);
        }
        StepsAsWrittenOwners(ring, nodeCount, start, bound, j + 1, seen + {next.node.String()}, result + [next.node]);
      }
    }
  }

  /** Before the first step, the loop's empty seen set and result are the walk state. */
  lemma WalkStateInitial(ring: seq<RingEntry>, start: nat)
    requires start < |ring|
    ensures WalkState(ring, start, 0, {}, [])
  {
    assert Walk(ring, start, 0) == [];
  }

  /**
   * GetNodes as written, once it returns from an in-range start, returns the
   * owners first met up to nodeCount identities on a walk of |ring| steps
   * from start 0 and of |ring| - 1 steps from a positive start.
   */
  lemma GetNodesAsWrittenOwners(ring: seq<RingEntry>, nodeCount: int, p: int, fuel: nat)
    requires 0 < |ring| && InsertionIndex(ring, p) < |ring|
    ensures var s := InsertionIndex(ring, p);
      ReturnsOk(GetNodesAsWritten(ring, nodeCount, p, fuel),
                FirstOwners(ring, nodeCount, s, if s == 0 then |ring| else |ring| - 1))
  {
    var s := InsertionIndex(ring, p);
    if s == 0 {
      AsWrittenOwnersFromZero(ring, nodeCount, fuel);
    } else {
      AsWrittenOwnersFrom(ring, nodeCount, s, fuel);
    }
  }

  /** The GetNodes loop as written from start 0 returns the owners of a walk of up to |ring| steps. */
  lemma AsWrittenOwnersFromZero(ring: seq<RingEntry>, nodeCount: int, fuel: nat)
    requires 0 < |ring|
    ensures ReturnsOk(WalkAsWritten(ring, nodeCount, 0, -1, {}, [], fuel), FirstOwners(ring, nodeCount, 0, |ring|))
  {
    WalkStateInitial(ring, 0);
    WalkAsWrittenCountedFromZero(ring, nodeCount, 0, {}, [], fuel);
    StepsAsWrittenOwners(ring, nodeCount, 0, |ring|, 0, {}, []);
  }

  /** The GetNodes loop as written from a positive start returns the owners of a walk of up to |ring| - 1 steps. */
  lemma AsWrittenOwnersFrom(ring: seq<RingEntry>, nodeCount: int, start: nat, fuel: nat)
    requires 0 < start < |ring|
    ensures ReturnsOk(WalkAsWritten(ring, nodeCount, start, start - 1, {}, [], fuel),
                      FirstOwners(ring, nodeCount, start, |ring| - 1))
  {
    WalkStateInitial(ring, start);
    assert WalkIndex(|ring|, start, 0) == start;
    WalkAsWrittenCounted(ring, nodeCount, start, 0, {}, [], fuel);
    StepsAsWrittenOwners(ring, nodeCount, start, |ring| - 1, 0, {}, []);
  }

  /**
   * From a positive in-range start, GetNodes as written returns, given
   * |ring| - 1 iterations of fuel, the owners of a walk that stops one step
   * short of a full turn.
   */
  lemma GetNodesAsWrittenPositiveStart(ring: seq<RingEntry>, nodeCount: int, p: int, fuel: nat)
    requires 0 < InsertionIndex(ring, p) < |ring| && fuel >= |ring| - 1
    ensures GetNodesAsWritten(ring, nodeCount, p, fuel)
      == Done(Ok(FirstOwners(ring, nodeCount, InsertionIndex(ring, p), |ring| - 1)))
  {
    var s := InsertionIndex(ring, p);
    WalkAsWrittenStops(ring, nodeCount, s, s - 1, {}, [], fuel);
    GetNodesAsWrittenOwners(ring, nodeCount, p, fuel);
  }

  /** Entry i shares its owner's identity with another entry of the ring. */
  ghost predicate HasTwin(ring: seq<RingEntry>, i: nat)
    requires i < |ring|
  {
    exists j :: 0 <= j < |ring| && j != i && ring[j].node.String() == ring[i].node.String()
  }

  /** Raising the bound by one changes FirstStop only when it stopped at the bound and now reaches the new one. */
  lemma {:induction false} FirstStopRaise(ring: seq<RingEntry>, nodeCount: int, start: nat, bound: nat, k: nat)
    requires start < |ring| && k <= bound < |ring|
    ensures var k1, k2 := FirstStop(ring, nodeCount, start, bound, k), FirstStop(ring, nodeCount, start, bound + 1, k);
      k1 == k2 || (k1 == bound && k2 == bound + 1)
    decreases bound - k
  {
    if k < bound && |FirstMet(Walk(ring, start, k))| < nodeCount {
      FirstStopRaise(ring, nodeCount, start, bound, k + 1);
    }
  }

  /** The last entry of a full turn from a positive start adds no owner when its identity is met earlier. */
  lemma FullTurnLastMet(ring: seq<RingEntry>, start: nat)
    requires 0 < start < |ring| && HasTwin(ring, start - 1)
    ensures FirstMet(Walk(ring, start, |ring|)) == FirstMet(Walk(ring, start, |ring| - 1))
  {
    TwinMetBeforeLast(ring, start);
    assert WalkIndex(|ring|, start, |ring| - 1) == start - 1 by {
      WalkIndexNext(|ring|, start, 0);
    }
    FirstMetWalkSeen(ring, start, |ring| - 1);
  }

  /** A step that meets an identity already met leaves the owners met unchanged. */
  lemma FirstMetWalkSeen(ring: seq<RingEntry>, start: nat, steps: nat)
    requires start < |ring| && steps < |ring|
    requires ring[WalkIndex(|ring|, start, steps)].node.String() in Ids(FirstMet(Walk(ring, start, steps)))
    ensures FirstMet(Walk(ring, start, steps + 1)) == FirstMet(Walk(ring, start, steps))
  {
    FirstMetWalkStep(ring, start, steps);
  }

  /** The twin of the entry just before start is met within |ring| - 1 steps. */
  lemma TwinMetBeforeLast(ring: seq<RingEntry>, start: nat)
    requires 0 < start < |ring| && HasTwin(ring, start - 1)
    ensures ring[start - 1].node.String() in Ids(FirstMet(Walk(ring, start, |ring| - 1)))
  {
    var n := |ring|;
    var i :| 0 <= i < n && i != start - 1 && ring[i].node.String() == ring[start - 1].node.String();
    var j := if i >= start then i - start else i + n - start;
    var w := Walk(ring, start, n - 1);
    assert w[j] == ring[i];
    assert ring[i].node.String() in EntryIds(w) by {
      assert w[j] in w;
    }
    FirstMetIdentities(w);
  }

  /**
   * Stopping one step short of a full turn loses nothing when the entry left
   * unread has the identity of another entry.
   */
  lemma FirstOwnersBoundAgree(ring: seq<RingEntry>, nodeCount: int, start: nat)
    requires 0 < start < |ring| && HasTwin(ring, start - 1)
    ensures FirstOwners(ring, nodeCount, start, |ring| - 1) == FirstOwners(ring, nodeCount, start, |ring|)
  {
    FirstStopRaise(ring, nodeCount, start, |ring| - 1, 0);
    FullTurnLastMet(ring, start);
  }

  /**
   * Wherever GetNodes as written returns from an in-range start, it returns
   * what the corrected GetNodes returns, provided the start is 0 or the
   * entry just before it shares its identity with another entry (as every
   * entry does when each node holds two replicas or more).
   */
  lemma GetNodesFixAgrees(ring: seq<RingEntry>, nodeCount: int, p: int, fuel: nat)
    requires 0 < |ring| && InsertionIndex(ring, p) < |ring|
    requires GetNodesAsWritten(ring, nodeCount, p, fuel).Done?
    requires InsertionIndex(ring, p) == 0 || HasTwin(ring, InsertionIndex(ring, p) - 1)
    ensures GetNodesAsWritten(ring, nodeCount, p, fuel)
      == Done(Ok(FirstOwners(ring, nodeCount, OwnerIndex(ring, p), |ring|)))
  {
    var s := InsertionIndex(ring, p);
    GetNodesAsWrittenOwners(ring, nodeCount, p, fuel);
    if s > 0 {
      FirstOwnersBoundAgree(ring, nodeCount, s);
    }
  }

  /**
   * On a ring where every entry shares its identity with another entry,
   * GetNodes as written, wherever it returns, returns what the corrected
   * GetNodes returns.
   */
  lemma GetNodesReplicatedAgrees(ring: seq<RingEntry>, nodeCount: int, p: int, fuel: nat)
    requires 0 < |ring| && InsertionIndex(ring, p) < |ring|
    requires GetNodesAsWritten(ring, nodeCount, p, fuel).Done?
    requires forall i :: 0 <= i < |ring| ==> HasTwin(ring, i)
    ensures GetNodesAsWritten(ring, nodeCount, p, fuel)
      == Done(Ok(FirstOwners(ring, nodeCount, OwnerIndex(ring, p), |ring|)))
  {
    GetNodesFixAgrees(ring, nodeCount, p, fuel);
  }

  /**
   * What GetNodes as written returns from an in-range start has no identity
   * twice, no more entries than the ring or nodeCount, only owners of ring entries, and
   * starts with the owner of the start entry.
   */
  lemma GetNodesAsWrittenShape(ring: seq<RingEntry>, nodeCount: int, p: int, fuel: nat)
    requires 0 < |ring| && InsertionIndex(ring, p) < |ring|
    requires GetNodesAsWritten(ring, nodeCount, p, fuel).Done?
    ensures var r := GetNodesAsWritten(ring, nodeCount, p, fuel).outcome;
      && r.Ok?
      && DistinctIds(r.value)
      && |r.value| <= |ring|
      && (nodeCount >= 0 ==> |r.value| <= nodeCount)
      && (nodeCount > 0 ==> r.value != [] && r.value[0] == ring[InsertionIndex(ring, p)].node)
      && (forall x :: x in r.value ==> exists e :: e in ring && e.node == x)
  {
    var s := InsertionIndex(ring, p);
    GetNodesAsWrittenOwners(ring, nodeCount, p, fuel);
    FirstOwnersShape(ring, nodeCount, s, if s == 0 then |ring| else |ring| - 1);
  }

  /**
   * The GetNodes loop with the wraparound fix: walks forward from index
   * start, recording each owner whose identity is new, until nodeCount
   * identities are recorded or the walk has gone once round the ring.
   */
  method CollectOwners(ring: seq<RingEntry>, nodeCount: nat, start: nat) returns (result: seq<Node>)
    requires start < |ring|
    ensures |Ids(result)| == |result| <= nodeCount
    ensures result == FirstOwners(ring, nodeCount, start, |ring|)
  {
    result := [];
    var seen: set<string> := {};
    var index := start;
    var steps := 0;
    while |seen| < nodeCount && steps < |ring|
      invariant 0 <= steps <= |ring| && 0 <= index < |ring|
      invariant steps < |ring| ==> index == WalkIndex(|ring|, start, steps)
      invariant result == FirstMet(Walk(ring, start, steps))
      invariant seen == Ids(result)
      invariant |seen| == |result| <= nodeCount
      invariant FirstStop(ring, nodeCount, start, |ring|, steps) == FirstStop(ring, nodeCount, start, |ring|, 0)
      decreases |ring| - steps
    {
      FirstStopStep(ring, nodeCount, start, |ring|, steps);
      var next := ring[index];
      if next.node.String() !in seen {
        GetNodesStepNew(ring, start, steps, index, seen, result);
        seen := seen + {next.node.String()};
        result := result + [next.node];
      } else {
        GetNodesStepSeen(ring, start, steps, index, seen, result);
      }
      index := Successor(index, |ring|);
      steps := steps + 1;
    }
  }

  // ---------------------------------------------------------------------
  // The ring itself.
  // ---------------------------------------------------------------------

  class HashRing {
    var ring: seq<RingEntry>
    var nodes: seq<Node>
    var replicas: int
    /** The digest function that stands in for md5.Sum. */
    const md5: Hasher

    /** The ring is sorted by position and every entry's owner is a registered node. */
    ghost predicate Valid()
      reads this
    {
      && Sorted(ring)
      && Registered(ring, nodes)
    }

    /** NewHashRing: no nodes, no ring entries, 100 replicas per node. */
    constructor (md5: Hasher)
      ensures Valid()
      ensures ring == [] && nodes == [] && replicas == DEFAULT_REPLICAS
      ensures this.md5 == md5
    {
      this.md5 := md5;
      ring := [];
      nodes := [];
      replicas := DEFAULT_REPLICAS;
    }

    method Replicas() returns (r: int)
      ensures r == replicas
    {
      r := replicas;
    }

    /** Changes the count for nodes added later; entries already on the ring stay as they are. */
    method SetReplicas(r: int)
      modifies this`replicas
      ensures replicas == r
      ensures ring == old(ring) && nodes == old(nodes)
    {
      replicas := r;
    }

    /**
     * Registers node (without checking for an earlier registration) and
     * inserts one ring entry per replica, each at the position of its own
     * replica key.
     */
    method AddNode(node: Node)
      requires Valid()
      modifies this
      ensures Valid()
      ensures nodes == old(nodes) + [node]
      ensures ring == InsertAll(old(ring), ReplicaEntries(md5, node, ReplicaCount(replicas)))
      ensures replicas == old(replicas)
    {
      nodes := nodes + [node];
      assert Registered(ring, nodes) by {
        forall e | e in ring ensures e.node in nodes {
          assert e.node in old(nodes);
        }
      }
      var i := 0;
      while i < replicas
        invariant 0 <= i <= ReplicaCount(replicas)
        invariant nodes == old(nodes) + [node] && replicas == old(replicas)
        invariant ring == InsertAll(old(ring), ReplicaEntries(md5, node, i))
        invariant Valid()
      {
        var replicaKey := ReplicaKey(node, i);
        var position := ComputeRingPosition(md5, replicaKey);
        var e := RingEntry(position, node);
        ReplicaEntriesStep(md5, node, i, old(ring));
        InsertKeepsValid(ring, nodes, e);
        ring := InsertRing(ring, e);
        i := i + 1;
      }
      assert i == ReplicaCount(replicas);
    }

    /** Deletes every registered node and every ring entry whose identity is node's. */
    method RemoveNode(node: Node)
      requires Valid()
      modifies this
      ensures Valid()
      ensures nodes == Without(old(nodes), NodeIdentity, node.String())
      ensures ring == Without(old(ring), EntryIdentity, node.String())
      ensures replicas == old(replicas)
    {
      var id := node.String();
      nodes := RemoveMatching(nodes, NodeIdentity, id);
      ring := RemoveMatching(ring, EntryIdentity, id);
      WithoutSorted(old(ring), id);
      WithoutKeepsOwners(old(ring), old(nodes), id);
    }

    /**
     * The owner of key: the node of the first entry at or after the key's
     * position, wrapping round to the first entry when there is none. An
     * empty ring panics.
     */
    method GetNode(key: string) returns (r: Outcome<Node>)
      requires Valid()
      ensures |ring| == 0 ==> r == Panic(EmptyRing)
      ensures |ring| > 0 ==> r == Ok(ring[OwnerIndex(ring, RingPosition(md5, key))].node)
      ensures r.Ok? ==> r.value in nodes
    {
      if |ring| == 0 {
        return Panic(EmptyRing);
      }
      var position := ComputeRingPosition(md5, key);
      var i := Bisect(ring, RingEntry(position, Node(key, "")));
      if i == |ring| {
        i := 0;  // wrap around to the first entry instead of reading past the end
      }
      r := Ok(ring[i].node);
    }

    /**
     * The replica set of key: the owners met walking forward from the key's
     * owner entry, each identity once, in the order first met; the walk
     * stops once it has as many identities as there are registered nodes or
     * after one full turn. An empty ring panics.
     */
    method GetNodes(key: string) returns (r: Outcome<seq<Node>>)
      requires Valid()
      ensures |ring| == 0 ==> r == Panic(EmptyRing)
      ensures |ring| > 0 ==>
        && r.Ok?
        && IsReplicaSet(ring, nodes, OwnerIndex(ring, RingPosition(md5, key)), r.value)
        && r.value == FirstOwners(ring, |nodes|, OwnerIndex(ring, RingPosition(md5, key)), |ring|)
    {
      if |ring| == 0 {
        return Panic(EmptyRing);
      }
      var position := ComputeRingPosition(md5, key);
      var index := Bisect(ring, RingEntry(position, Node(key, "")));
      if index == |ring| {
        index := 0;  // wrap around to the first entry instead of reading past the end
      }
      assert ring[0].node in nodes;
      var result := CollectOwners(ring, |nodes|, index);
      ghost var steps := FirstStop(ring, |nodes|, index, |ring|, 0);
      assert steps > 0 by {
        assert Walk(ring, index, 0) == [];
      }
      WalkEndIsReplicaSet(ring, nodes, index, steps, result);
      r := Ok(result);
    }
  }

  /**
   * The divergence of GetNodesAsWrittenDuplicateDiverges reached through the
   * class for every digest function: a fresh ring with one replica per node
   * and node added twice holds [e, e] with two registered nodes, and the
   * key of that one replica, whose position bisect places at index 0, never
   * ends the Go loop.
   */
  method DuplicateAddNodeDiverges(md5: Hasher, node: Node, fuel: nat) returns (h: HashRing)
    ensures var e := ReplicaEntry(md5, node, 0);
      h.ring == [e, e] && h.nodes == [node, node] && h.Valid()
    ensures GetNodesAsWritten(h.ring, |h.nodes|, RingPosition(md5, ReplicaKey(node, 0)), fuel) == Running
  {
    h := new HashRing(md5);
    h.SetReplicas(1);
    h.AddNode(node);
    h.AddNode(node);
    var e := ReplicaEntry(md5, node, 0);
    assert ReplicaEntries(md5, node, 1) == [e];
    assert InsertSorted([], e) == [e];
    assert InsertionIndex([e], e.position) == 0;
    assert InsertSorted([e], e) == [e, e];
    assert EntryIds(h.ring) == {node.String()} by {
      assert h.ring[0] in h.ring;
    }
    GetNodesAsWrittenDiverges(h.ring, 2, e.position, fuel);
  }
}
