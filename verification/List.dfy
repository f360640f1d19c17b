/** The intrusive circular lists of include/list.h. */
module List {
  class ListNode {
    var prev: ListNode?
    var next: ListNode?
  }

  /** The index after `i` on a ring of `n` nodes. */
  function After(i: int, n: int): int { if i + 1 == n then 0 else i + 1 }

  ghost predicate Distinct(s: seq<ListNode>) {
    forall i, j :: 0 <= i < j < |s| ==> s[i] != s[j]
  }

  /** The nodes of `s`, in this order, form a ring in both directions. */
  ghost predicate Ring(s: seq<ListNode>)
    reads s
  {
    && s != [] && Distinct(s)
    && (forall i :: 0 <= i < |s| ==> s[i].next == s[After(i, |s|)])
    && (forall i :: 0 <= i < |s| ==> s[After(i, |s|)].prev == s[i])
  }

  /** `head` heads the list of `elems`. */
  ghost predicate IsList(head: ListNode, elems: seq<ListNode>)
    reads head, elems
  {
    Ring([head] + elems)
  }

  /** A ring that has no node in common with `ring`. */
  ghost predicate RingApart(ring: seq<ListNode>, other: seq<ListNode>)
    reads other
  {
    Ring(other) && forall x :: x in other ==> x !in ring
  }

  /** INIT_LIST_HEAD. */
  method InitListHead(list: ListNode)
    modifies list
    ensures IsList(list, [])
  {
    list.next := list;
    list.prev := list;
  }

  /** __list_add: between node `i` of a ring and the one after it. */
  method ListAddBetween(node: ListNode, prev: ListNode, next: ListNode, ghost ring: seq<ListNode>, ghost i: int)
    requires Ring(ring) && 0 <= i < |ring| && prev == ring[i] && next == ring[After(i, |ring|)]
    requires node !in ring
    modifies node, prev, next
    ensures Ring(ring[..i + 1] + [node] + ring[i + 1..])
  {
    next.prev := node;
    node.next := next;
    node.prev := prev;
    prev.next := node;
    ghost var n := |ring|;
    ghost var grown: seq<ListNode> := ring[..i + 1] + [node] + ring[i + 1..];
    assert |grown| == n + 1 && grown[i] == prev && grown[i + 1] == node && grown[After(i + 1, n + 1)] == next;
    forall k | 0 <= k < n + 1
      ensures grown[k].next == grown[After(k, n + 1)] && grown[After(k, n + 1)].prev == grown[k]
    {
      if k != i && k != i + 1 {
        ghost var j := if k <= i then k else k - 1;
        assert grown[k] == ring[j];
        assert grown[After(k, n + 1)] == ring[After(j, n)];
        assert old(ring[j].next) == ring[After(j, n)] && old(ring[After(j, n)].prev) == ring[j];
        assert ring[j] != prev && ring[After(j, n)] != next;
      }
    }
  }

  /** list_add puts the node first. */
  method ListAdd(node: ListNode, head: ListNode, ghost elems: seq<ListNode>, ghost other: seq<ListNode> := [])
    requires IsList(head, elems) && node !in [head] + elems
    modifies node, head, head.next
    ensures IsList(head, [node] + elems)
    ensures old(RingApart([head] + elems + [node], other)) ==> Ring(other)
  {
    ghost var ring := [head] + elems;
    assert ring[0].next == ring[After(0, |ring|)];
    assert ring[..1] + [node] + ring[1..] == [head] + ([node] + elems);
    ListAddBetween(node, head, head.next, ring, 0);
    if old(RingApart(ring + [node], other)) {
      assert node in ring + [node] && old(head.next) in ring + [node] && head in ring + [node];
      OtherRingKept(other);
    }
  }

  /** list_add_tail puts the node last. */
  method ListAddTail(node: ListNode, head: ListNode, ghost elems: seq<ListNode>, ghost other: seq<ListNode> := [])
    requires IsList(head, elems) && node !in [head] + elems
    modifies node, head, head.prev
    ensures IsList(head, elems + [node])
    ensures old(RingApart([head] + elems + [node], other)) ==> Ring(other)
  {
    ghost var ring := [head] + elems;
    ghost var n := |elems|;
    assert ring[After(n, |ring|)].prev == ring[n];
    assert ring[..n + 1] + [node] + ring[n + 1..] == [head] + (elems + [node]);
    ListAddBetween(node, head.prev, head, ring, n);
    if old(RingApart(ring + [node], other)) {
      assert node in ring + [node] && old(head.prev) in ring + [node] && head in ring + [node];
      OtherRingKept(other);
    }
  }

  /** list_del takes node `i` out of a ring. */
  method ListDel(entry: ListNode, ghost ring: seq<ListNode>, ghost i: int, ghost other: seq<ListNode> := [])
    requires Ring(ring) && 0 <= i < |ring| && entry == ring[i]
    modifies entry, entry.prev, entry.next
    ensures entry.prev == null && entry.next == null
    ensures |ring| > 1 ==> Ring(ring[..i] + ring[i + 1..])
    ensures old(RingApart(ring, other)) ==> Ring(other)
  {
    Neighbours(ring, i);
    Unlink(entry, ring, i);
    if old(RingApart(ring, other)) {
      OtherRingKept(other);
    }
  }

  /** The four stores of list_del. */
  method Unlink(entry: ListNode, ghost ring: seq<ListNode>, ghost i: int)
    requires Ring(ring) && 0 <= i < |ring| && entry == ring[i]
    modifies entry, entry.prev, entry.next
    ensures entry.prev == null && entry.next == null
    ensures |ring| > 1 ==> Ring(ring[..i] + ring[i + 1..])
  {
    Neighbours(ring, i);
    var prev := entry.prev;
    var next := entry.next;
    next.prev := prev;
    prev.next := next;
    entry.prev := null;
    entry.next := null;
    ghost var rest := ring[..i] + ring[i + 1..];
    if rest != [] {
      assert Distinct(rest);
      forall k | 0 <= k < |rest|
        ensures rest[k].next == rest[After(k, |rest|)] && rest[After(k, |rest|)].prev == rest[k]
      {
        ghost var j := if k < i then k else k + 1;
        assert rest[k] == ring[j];
        assert After(j, |ring|) != i ==> rest[After(k, |rest|)] == ring[After(j, |ring|)];
        assert old(ring[j].next) == ring[After(j, |ring|)] && old(ring[After(j, |ring|)].prev) == ring[j];
      }
    }
  }

  lemma Neighbours(ring: seq<ListNode>, i: int)
    requires Ring(ring) && 0 <= i < |ring|
    ensures var p := if i == 0 then |ring| - 1 else i - 1;
      ring[i].prev == ring[p] && ring[p].next == ring[i] && ring[i].next == ring[After(i, |ring|)]
  {
    var p := if i == 0 then |ring| - 1 else i - 1;
    assert After(p, |ring|) == i;
  }

  /** list_empty. */
  method ListEmpty(head: ListNode, ghost elems: seq<ListNode>) returns (b: bool)
    requires IsList(head, elems)
    ensures b <==> elems == []
  {
    ghost var ring := [head] + elems;
    assert ring[0].next == ring[After(0, |ring|)];
    b := head.next == head;
  }

  /** list_for_each with a body that leaves the links alone: it visits each element once, in order, and ends. */
  method ListForEach(head: ListNode, ghost elems: seq<ListNode>) returns (visited: seq<ListNode>)
    requires IsList(head, elems)
    ensures visited == elems
  {
    ghost var ring := [head] + elems;
    visited := [];
    assert ring[0].next == ring[After(0, |ring|)];
    var pos := head.next;
    while pos != head
      invariant pos != null && |visited| <= |elems| && visited == elems[..|visited|]
      invariant pos == ring[After(|visited|, |ring|)]
      decreases |elems| - |visited|
    {
      assert pos == ring[|visited| + 1] == elems[|visited|];
      visited := visited + [pos];
      pos := pos.next;
    }
    assert After(|visited|, |ring|) == 0;
  }

  /** Forward and backward links are inverses of each other all around a ring. */
  lemma LinksInverse(ring: seq<ListNode>, x: ListNode)
    requires Ring(ring) && x in ring
    ensures x.next != null && x.next in ring && x.next.prev == x
    ensures x.prev != null && x.prev in ring && x.prev.next == x
  {
    var i :| 0 <= i < |ring| && ring[i] == x;
    Neighbours(ring, i);
  }

  /** A head has one list: the links determine the sequence. */
  lemma OneList(head: ListNode, a: seq<ListNode>, b: seq<ListNode>)
    requires IsList(head, a) && IsList(head, b)
    ensures a == b
  {
    var r, s := [head] + a, [head] + b;
    if |r| <= |s| {
      SameStart(r, s, |r| - 1);
      LoopsBack(r, s);
    } else {
      SameStart(s, r, |s| - 1);
      LoopsBack(s, r);
    }
  }

  lemma {:induction false} SameStart(r: seq<ListNode>, s: seq<ListNode>, k: nat)
    requires Ring(r) && Ring(s) && r[0] == s[0] && k < |r| <= |s|
    ensures r[k] == s[k]
  {
    if k > 0 {
      SameStart(r, s, k - 1);
      assert r[k - 1].next == r[After(k - 1, |r|)] && s[k - 1].next == s[After(k - 1, |s|)];
    }
  }

  lemma LoopsBack(r: seq<ListNode>, s: seq<ListNode>)
    requires Ring(r) && Ring(s) && r[0] == s[0] && |r| <= |s| && r[|r| - 1] == s[|r| - 1]
    ensures r[1..] == s[1..]
  {
    var n := |r| - 1;
    assert r[n].next == r[After(n, |r|)] && s[n].next == s[After(n, |s|)];
    forall k | 0 <= k < |r|
      ensures r[k] == s[k]
    {
      SameStart(r, s, k);
    }
  }

  /** Any node of a ring can be taken as its start. */
  lemma Rotated(ring: seq<ListNode>, k: nat)
    requires Ring(ring) && k < |ring|
    ensures Ring(ring[k..] + ring[..k])
  {
    var n := |ring|;
    var s := ring[k..] + ring[..k];
    forall i | 0 <= i < n
      ensures s[i].next == s[After(i, n)] && s[After(i, n)].prev == s[i]
    {
      var j := if i < n - k then i + k else i + k - n;
      assert s[i] == ring[j] && s[After(i, n)] == ring[After(j, n)];
    }
  }

  /** A ring none of whose nodes is written stays a ring. */
  twostate lemma OtherRingKept(ring: seq<ListNode>)
    requires old(Ring(ring)) && forall x :: x in ring ==> x.prev == old(x.prev) && x.next == old(x.next)
    ensures Ring(ring)
  {
  }
}
