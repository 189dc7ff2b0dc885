/**
 * The ring store: a sequence of (position, node) entries kept in ascending
 * order of position, the leftmost insertion point search (bisect), ordered
 * insertion (insertRing) and removal of every element of a given identity.
 */
module RingStore {
  import opened Nodes

  datatype RingEntry = RingEntry(position: int, node: Node)

  /** RingEntry's owner identity, as a function value. */
  function EntryIdentity(e: RingEntry): string {
    e.node.String()
  }

  ghost predicate Sorted(ring: seq<RingEntry>) {
    forall i, j :: 0 <= i < j < |ring| ==> ring[i].position <= ring[j].position
  }

  /**
   * The smallest index whose entry's position is at least p, or |ring| when
   * every position is below p.
   */
  function InsertionIndex(ring: seq<RingEntry>, p: int): (i: nat)
    ensures i <= |ring|
    ensures forall j :: 0 <= j < i ==> ring[j].position < p
    ensures i < |ring| ==> ring[i].position >= p
  {
    if ring == [] || ring[0].position >= p then 0 else 1 + InsertionIndex(ring[1..], p)
  }

  /** The two properties of InsertionIndex pin it down: no other index has them. */
  lemma InsertionIndexUnique(ring: seq<RingEntry>, p: int, k: nat)
    requires k <= |ring|
    requires forall j :: 0 <= j < k ==> ring[j].position < p
    requires k < |ring| ==> ring[k].position >= p
    ensures k == InsertionIndex(ring, p)
  {
  }

  /** On a sorted ring the insertion index is |ring| exactly when p is above the last position. */
  lemma InsertionIndexAtEnd(ring: seq<RingEntry>, p: int)
    requires Sorted(ring) && |ring| > 0
    ensures InsertionIndex(ring, p) == |ring| <==> ring[|ring| - 1].position < p
  {
  }

  /** bisect: a linear scan for the leftmost entry whose position is at least e's. */
  method Bisect(ring: seq<RingEntry>, e: RingEntry) returns (i: nat)
    ensures i <= |ring|
    ensures forall j :: 0 <= j < i ==> ring[j].position < e.position
    ensures i < |ring| ==> ring[i].position >= e.position
    ensures i == InsertionIndex(ring, e.position)
  {
    i := 0;
    while i < |ring|
      invariant i <= |ring|
      invariant forall j :: 0 <= j < i ==> ring[j].position < e.position
    {
      if ring[i].position >= e.position {
        break;
      }
      i := i + 1;
    }
    InsertionIndexUnique(ring, e.position, i);
  }

  /** Placing e at its insertion index keeps a sorted ring sorted. */
  lemma InsertAtIndexSorted(ring: seq<RingEntry>, e: RingEntry, k: nat)
    requires Sorted(ring) && k == InsertionIndex(ring, e.position)
    ensures Sorted(ring[..k] + [e] + ring[k..])
  {
    var r := ring[..k] + [e] + ring[k..];
    forall i, j | 0 <= i < j < |r| ensures r[i].position <= r[j].position {
      InsertAtIndexPair(ring, e, k, i, j);
    }
  }

  /** One pair of positions of ring with e placed at its insertion index k is in order. */
  lemma InsertAtIndexPair(ring: seq<RingEntry>, e: RingEntry, k: nat, i: nat, j: nat)
    requires Sorted(ring) && k == InsertionIndex(ring, e.position)
    requires i < j < |ring| + 1
    ensures var r := ring[..k] + [e] + ring[k..];
      r[i].position <= r[j].position
  {
    InsertedAt(ring, e, k, i);
    InsertedAt(ring, e, k, j);
    if i < k && k < j {
      assert ring[i].position <= ring[j - 1].position;
    } else if i == k && k < j {
      assert ring[k].position <= ring[j - 1].position;
    }
  }

  /** Entry i of ring with e placed at index k. */
  lemma InsertedAt(ring: seq<RingEntry>, e: RingEntry, k: nat, i: nat)
    requires k <= |ring| && i <= |ring|
    ensures (ring[..k] + [e] + ring[k..])[i] == if i < k then ring[i] else if i == k then e else ring[i - 1]
  {
  }

  /** ring with e placed at its insertion index, ahead of any entries at the same position. */
  function InsertSorted(ring: seq<RingEntry>, e: RingEntry): (r: seq<RingEntry>)
    ensures |r| == |ring| + 1
  {
    var k := InsertionIndex(ring, e.position);
    ring[..k] + [e] + ring[k..]
  }

  /** Insertion adds e and keeps every entry already there. */
  lemma InsertSortedPermutes(ring: seq<RingEntry>, e: RingEntry)
    ensures multiset(InsertSorted(ring, e)) == multiset(ring) + multiset{e}
  {
    var k := InsertionIndex(ring, e.position);
    assert ring == ring[..k] + ring[k..];
  }

  /** Insertion keeps a sorted ring sorted. */
  lemma InsertSortedKeepsSorted(ring: seq<RingEntry>, e: RingEntry)
    requires Sorted(ring)
    ensures Sorted(InsertSorted(ring, e))
  {
    InsertAtIndexSorted(ring, e, InsertionIndex(ring, e.position));
  }

  /** insertRing: append e, shift the tail right by one with copy, then store e at the bisect index. */
  method InsertRing(ring: seq<RingEntry>, e: RingEntry) returns (r: seq<RingEntry>)
    ensures |r| == |ring| + 1
    ensures var k := InsertionIndex(ring, e.position);
      && r[..k] == ring[..k]
      && r[k] == e
      && r[k + 1..] == ring[k..]
    ensures r == InsertSorted(ring, e)
  {
    var i := Bisect(ring, e);
    r := ring + [e];
    if i == |r| - 1 {
      return;
    }
    r := r[..i + 1] + ring[i..];  // shift the tail one place right
    r := r[i := e];
    assert r == ring[..i] + [e] + ring[i..];
  }

  /** The entries es inserted one after another, first to last. */
  function InsertAll(ring: seq<RingEntry>, es: seq<RingEntry>): (r: seq<RingEntry>)
    ensures |r| == |ring| + |es|
  {
    if es == [] then ring
    else InsertSorted(InsertAll(ring, es[..|es| - 1]), es[|es| - 1])
  }

  lemma {:induction false} InsertAllPermutes(ring: seq<RingEntry>, es: seq<RingEntry>)
    ensures multiset(InsertAll(ring, es)) == multiset(ring) + multiset(es)
  {
    if es != [] {
      var front, e := es[..|es| - 1], es[|es| - 1];
      assert es == front + [e];
      InsertAllPermutes(ring, front);
      InsertSortedPermutes(InsertAll(ring, front), e);
    }
  }

  lemma {:induction false} InsertAllKeepsSorted(ring: seq<RingEntry>, es: seq<RingEntry>)
    requires Sorted(ring)
    ensures Sorted(InsertAll(ring, es))
  {
    if es != [] {
      InsertAllKeepsSorted(ring, es[..|es| - 1]);
      InsertSortedKeepsSorted(InsertAll(ring, es[..|es| - 1]), es[|es| - 1]);
    }
  }

  /** s without the elements whose identity is id, in their original order. */
  function Without<T(!new)>(s: seq<T>, ident: T -> string, id: string): (r: seq<T>)
    ensures |r| <= |s|
  {
    if s == [] then []
    else if ident(s[0]) == id then Without(s[1..], ident, id)
    else [s[0]] + Without(s[1..], ident, id)
  }

  /** What survives a removal: exactly the elements of other identities. */
  lemma {:induction false} WithoutMembers<T(!new)>(s: seq<T>, ident: T -> string, id: string)
    ensures forall x :: x in Without(s, ident, id) <==> x in s && ident(x) != id
  {
    if s != [] {
      WithoutMembers(s[1..], ident, id);
      assert forall x :: x in s <==> x == s[0] || x in s[1..];
    }
  }

  /** Removal keeps every other element with its multiplicity. */
  lemma {:induction false} WithoutCount<T(!new)>(s: seq<T>, ident: T -> string, id: string, x: T)
    ensures multiset(Without(s, ident, id))[x] == if ident(x) == id then 0 else multiset(s)[x]
  {
    if s != [] {
      assert s == [s[0]] + s[1..];
      WithoutCount(s[1..], ident, id, x);
    }
  }

  /** Removal works piecewise, so the survivors keep their relative order. */
  lemma {:induction false} WithoutConcat<T(!new)>(a: seq<T>, b: seq<T>, ident: T -> string, id: string)
    ensures Without(a + b, ident, id) == Without(a, ident, id) + Without(b, ident, id)
  {
    if a != [] {
      assert (a + b)[1..] == a[1..] + b;
      WithoutConcat(a[1..], b, ident, id);
    } else {
      assert a + b == b;
    }
  }

  /** One step of an in-place removal that deletes s[i]: the survivors to come are unchanged. */
  lemma WithoutDrop<T(!new)>(s: seq<T>, i: nat, ident: T -> string, id: string)
    requires i < |s| && ident(s[i]) == id
    ensures var t := s[..i] + s[i + 1..];
      t[..i] + Without(t[i..], ident, id) == s[..i] + Without(s[i..], ident, id)
  {
    var t := s[..i] + s[i + 1..];
    assert t[..i] == s[..i] && t[i..] == s[i + 1..];
    assert s[i..][0] == s[i] && s[i..][1..] == s[i + 1..];
  }

  /** One step of an in-place removal that keeps s[i]: it joins the survivors so far. */
  lemma WithoutKeep<T(!new)>(s: seq<T>, i: nat, ident: T -> string, id: string)
    requires i < |s| && ident(s[i]) != id
    ensures s[..i + 1] + Without(s[i + 1..], ident, id) == s[..i] + Without(s[i..], ident, id)
  {
    assert s[..i + 1] == s[..i] + [s[i]];
    assert s[i..][0] == s[i] && s[i..][1..] == s[i + 1..];
  }

  /**
   * The removal loop of RemoveNode: scans s, deleting the element at i (by
   * joining the slices on either side of it) when its identity is id and
   * stepping past it otherwise.
   */
  method RemoveMatching<T(!new)>(s: seq<T>, ident: T -> string, id: string) returns (r: seq<T>)
    ensures r == Without(s, ident, id)
  {
    r := s;
    var i := 0;
    assert r[..0] == [] && r[0..] == s;
    while i < |r|
      invariant i <= |r|
      invariant r[..i] + Without(r[i..], ident, id) == Without(s, ident, id)
      decreases |r| - i
    {
      if ident(r[i]) == id {
        WithoutDrop(r, i, ident, id);
        r := r[..i] + r[i + 1..];
      } else {
        WithoutKeep(r, i, ident, id);
        i := i + 1;
      }
    }
    assert r[..i] == r && r[i..] == [];
  }

  /** Removing an identity nobody has changes nothing. */
  lemma {:induction false} WithoutNoMatch<T(!new)>(s: seq<T>, ident: T -> string, id: string)
    requires forall x :: x in s ==> ident(x) != id
    ensures Without(s, ident, id) == s
  {
    if s != [] {
      WithoutNoMatch(s[1..], ident, id);
    }
  }

  /** Removing twice is removing once. */
  lemma WithoutIdempotent<T(!new)>(s: seq<T>, ident: T -> string, id: string)
    ensures Without(Without(s, ident, id), ident, id) == Without(s, ident, id)
  {
    WithoutMembers(s, ident, id);
    WithoutNoMatch(Without(s, ident, id), ident, id);
  }

  /** Removing entries from a sorted ring leaves it sorted. */
  lemma {:induction false} WithoutSorted(ring: seq<RingEntry>, id: string)
    requires Sorted(ring)
    ensures Sorted(Without(ring, EntryIdentity, id))
  {
    if ring != [] {
      WithoutSorted(ring[1..], id);
      var rest := Without(ring[1..], EntryIdentity, id);
      WithoutMembers(ring[1..], EntryIdentity, id);
      forall x | x in rest ensures ring[0].position <= x.position {
        var j :| 1 <= j < |ring| && ring[j] == x;
      }
    }
  }
}
