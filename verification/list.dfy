// The circular doubly linked list of src-api/common/list.h, on the list links of
// tree nodes. A list is described by the sequence of its elements without the head.
module Rings {
  import opened AvlNodes
  import opened Sequences

  // The i-th place on the ring, the head being both place 0 and place |s|+1.
  ghost function At(head: AvlNode, s: seq<AvlNode>, i: int): AvlNode
    requires 0 <= i <= |s| + 1
  {
    if i == 0 || i == |s| + 1 then head else s[i - 1]
  }

  // The nodes in all that are on the ring of head are exactly s, in this order.
  ghost predicate Ring(head: AvlNode, all: set<AvlNode>, s: seq<AvlNode>)
    reads head`next, head`prev, all`next, all`prev
  {
    && NoDup(s) && head !in s && (forall x :: x in s ==> x in all)
    && (forall i {:trigger At(head, s, i).next} :: 0 <= i <= |s| ==> At(head, s, i).next == At(head, s, i + 1))
    && (forall i {:trigger At(head, s, i).prev} :: 1 <= i <= |s| + 1 ==> At(head, s, i).prev == At(head, s, i - 1))
  }

  lemma AtApart(head: AvlNode, s: seq<AvlNode>, i: int, j: int)
    requires NoDup(s) && head !in s && 0 <= i < j <= |s| + 1
    ensures At(head, s, i) == At(head, s, j) <==> i == 0 && j == |s| + 1
  {}

  lemma RingLinks(head: AvlNode, all: set<AvlNode>, s: seq<AvlNode>, i: nat)
    requires Ring(head, all, s) && i <= |s|
    ensures At(head, s, i).next == At(head, s, i + 1) && At(head, s, i + 1).prev == At(head, s, i)
  {}

  lemma RingMembers(head: AvlNode, all: set<AvlNode>, s: seq<AvlNode>)
    requires Ring(head, all, s)
    ensures NoDup(s) && head !in s && forall x :: x in s ==> x in all
  {}

  method InitHead(head: AvlNode)
    modifies head`next, head`prev
    ensures Ring(head, {}, [])
  {
    head.next, head.prev := head, head;
  }

  // __list_add
  method ListAdd(prev: AvlNode, next: AvlNode, nw: AvlNode, ghost head: AvlNode, ghost all: set<AvlNode>,
      ghost s: seq<AvlNode>,
      ghost k: nat)
    requires Ring(head, all, s) && k <= |s| && nw != head && nw !in s
    requires prev == At(head, s, k) && next == At(head, s, k + 1)
    modifies {nw, next}`prev, {nw, prev}`next
    ensures Ring(head, all + {nw}, s[..k] + [nw] + s[k..])
  {
    nw.next := next;
    nw.prev := prev;
    next.prev := nw;
    prev.next := nw;
    ghost var t := s[..k] + [nw] + s[k..];
    assert forall i :: 0 <= i <= |t| + 1 ==>
      At(head, t, i) == if i <= k then At(head, s, i) else if i == k + 1 then nw else At(head, s, i - 1);
    forall i | 0 <= i <= |t| ensures At(head, t, i).next == At(head, t, i + 1) && At(head, t, i + 1).prev == At(head, t, i) {
      var j := if i <= k then i else i - 1;
      assert old(At(head, s, j).next) == At(head, s, j + 1) && old(At(head, s, j + 1).prev) == At(head, s, j);
      if j < k {
        AtApart(head, s, j, k);
        AtApart(head, s, j + 1, k + 1);
      } else if j > k {
        AtApart(head, s, k, j);
        AtApart(head, s, k + 1, j + 1);
      }
    }
  }

  // list_remove
  method ListRemove(entity: AvlNode, ghost head: AvlNode, ghost all: set<AvlNode>, ghost s: seq<AvlNode>,
      ghost k: nat)
    requires Ring(head, all, s) && k < |s| && s[k] == entity
    modifies entity`prev, entity`next
    modifies {At(head, s, k)}`next, {At(head, s, k + 2)}`prev
    ensures Ring(head, all - {entity}, s[..k] + s[k + 1..]) && entity.next == null && entity.prev == null
  {
    RingLinks(head, all, s, k);
    RingLinks(head, all, s, k + 1);
    assert entity == At(head, s, k + 1);
    var prev, next := entity.prev, entity.next;
    prev.next := next;
    next.prev := prev;
    entity.next, entity.prev := null, null;
    ghost var t := s[..k] + s[k + 1..];
    assert forall i :: 0 <= i <= |t| + 1 ==>
      At(head, t, i) == if i <= k then At(head, s, i) else At(head, s, i + 1);
    forall i | 0 <= i <= |t| ensures At(head, t, i).next == At(head, t, i + 1) && At(head, t, i + 1).prev == At(head, t, i) {
      var j := if i <= k then i else i + 1;
      if i != k {
        assert old(At(head, s, j).next) == At(head, s, j + 1) && old(At(head, s, j + 1).prev) == At(head, s, j);
        AtApart(head, s, if j < k then j else k, if j < k then k else j);
        AtApart(head, s, if j + 1 < k + 2 then j + 1 else k + 2, if j + 1 < k + 2 then k + 2 else j + 1);
        assert At(head, s, j) != entity && At(head, s, j + 1) != entity;
      }
    }
  }

  // list_merge: the second list ends up in front of the first.
  method ListMerge(addTo: AvlNode, removeFrom: AvlNode,
      ghost all: set<AvlNode>, ghost a: seq<AvlNode>, ghost rest: set<AvlNode>, ghost b: seq<AvlNode>)
    requires Ring(addTo, all, a) && Ring(removeFrom, rest, b)
    requires addTo != removeFrom && addTo !in rest && removeFrom !in all && all !! rest
    modifies {addTo, removeFrom}`next, {addTo, removeFrom}`prev, (all + rest)`next, (all + rest)`prev
    ensures Ring(addTo, all + rest, b + a) && Ring(removeFrom, {}, [])
  {
    RingLinks(addTo, all, a, 0);
    RingLinks(removeFrom, rest, b, 0);
    RingLinks(removeFrom, rest, b, |b|);
    assert forall x :: x in b ==> x !in a;
    if removeFrom.next == removeFrom && removeFrom.prev == removeFrom {
      assert b == [] && b + a == a;
      return;
    }
    assert b != [];
    addTo.next.prev := removeFrom.prev;
    removeFrom.prev.next := addTo.next;
    addTo.next := removeFrom.next;
    removeFrom.next.prev := addTo;
    InitHead(removeFrom);
    ghost var t := b + a;
    NoDupConcat(b, a);
    assert addTo !in t;
    forall i | 0 <= i <= |t| ensures At(addTo, t, i).next == At(addTo, t, i + 1) && At(addTo, t, i + 1).prev == At(addTo, t, i) {
      if 0 < i < |b| {
        assert old(At(removeFrom, b, i).next) == At(removeFrom, b, i + 1);
        assert old(At(removeFrom, b, i + 1).prev) == At(removeFrom, b, i);
        assert t[i - 1] == b[i - 1] && t[i] == b[i];
      } else if i > |b| {
        var j := i - |b|;
        assert old(At(addTo, a, j).next) == At(addTo, a, j + 1);
        assert old(At(addTo, a, j + 1).prev) == At(addTo, a, j);
        AtApart(addTo, a, 0, j);
      }
    }
  }
}
