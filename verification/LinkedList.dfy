/** The intrusive doubly linked list (kernel/src/Utils/LinkedList.c).

    The kernel embeds an LListElement as the first field of a larger record and
    casts between the two; here the record is the element's Item. Every operation
    takes any node of the list, as in the source, and a ghost parameter naming the
    sequence of nodes the list consists of. */
module LinkedList {
  import opened Words

  class LListElement<T> {
    var Next: LListElement?<T>
    var Prev: LListElement?<T>
    const Item: T

    constructor (item: T)
      ensures Next == null && Prev == null && Item == item
    {
      Next, Prev, Item := null, null, item;
    }
  }

  /** The nodes form one doubly linked list, in this order. */
  ghost predicate IsList<T>(nodes: seq<LListElement<T>>)
    reads nodes
  {
    && (forall i, j :: 0 <= i < j < |nodes| ==> nodes[i] != nodes[j])
    && (forall i {:trigger nodes[i].Next} :: 0 <= i < |nodes| ==>
          nodes[i].Next == if i + 1 < |nodes| then nodes[i + 1] else null)
    && (forall i {:trigger nodes[i].Prev} :: 0 <= i < |nodes| ==>
          nodes[i].Prev == if i > 0 then nodes[i - 1] else null)
  }

  /** A node belongs to one list only: the links around it determine all the nodes and their order. */
  lemma {:induction false} ListThroughNodeIsUnique<T>(a: seq<LListElement<T>>, b: seq<LListElement<T>>, i: nat, j: nat)
    requires IsList(a) && IsList(b)
    requires i < |a| && j < |b| && a[i] == b[j]
    ensures i == j && a == b
  {
    SamePrefix(a, b, i, j);
    SameSuffix(a, b, i, j);
  }

  lemma {:induction false} SamePrefix<T>(a: seq<LListElement<T>>, b: seq<LListElement<T>>, i: nat, j: nat)
    requires IsList(a) && IsList(b)
    requires i < |a| && j < |b| && a[i] == b[j]
    ensures i == j
    ensures forall k :: 0 <= k <= i ==> a[k] == b[k]
  {
    assert a[i].Prev == if i > 0 then a[i - 1] else null;
    assert b[j].Prev == if j > 0 then b[j - 1] else null;
    if i > 0 && j > 0 {
      SamePrefix(a, b, i - 1, j - 1);
    }
  }

  lemma {:induction false} SameSuffix<T>(a: seq<LListElement<T>>, b: seq<LListElement<T>>, i: nat, j: nat)
    requires IsList(a) && IsList(b)
    requires i < |a| && j < |b| && a[i] == b[j]
    ensures |a| - i == |b| - j
    ensures forall k :: i <= k < |a| ==> a[k] == b[k - i + j]
    decreases |a| - i
  {
    assert a[i].Next == if i + 1 < |a| then a[i + 1] else null;
    assert b[j].Next == if j + 1 < |b| then b[j + 1] else null;
    if i + 1 < |a| && j + 1 < |b| {
      SameSuffix(a, b, i + 1, j + 1);
    }
  }

  method LListGetFirst<T>(list: LListElement<T>, ghost nodes: seq<LListElement<T>>) returns (r: LListElement<T>)
    requires IsList(nodes) && list in nodes
    ensures r == nodes[0]
  {
    r := list;
    ghost var k :| 0 <= k < |nodes| && nodes[k] == list;
    while r.Prev != null
      invariant 0 <= k < |nodes| && r == nodes[k]
      decreases k
    {
      r, k := r.Prev, k - 1;
    }
  }

  method LListGetLast<T>(list: LListElement<T>, ghost nodes: seq<LListElement<T>>) returns (r: LListElement<T>)
    requires IsList(nodes) && list in nodes
    ensures r == nodes[|nodes| - 1]
  {
    r := list;
    ghost var k :| 0 <= k < |nodes| && nodes[k] == list;
    while r.Next != null
      invariant 0 <= k < |nodes| && r == nodes[k]
      decreases |nodes| - k
    {
      r, k := r.Next, k + 1;
    }
  }

  /** The index counts from the front of the whole list, wherever `list` stands in it. */
  method LListGet<T>(list: LListElement<T>, index: nat, ghost nodes: seq<LListElement<T>>) returns (r: LListElement?<T>)
    requires IsList(nodes) && list in nodes
    ensures r == if index < |nodes| then nodes[index] else null
  {
    r := LListGetFirst(list, nodes);
    var i := 0;
    while i < index
      invariant i <= index && i < |nodes| && r == nodes[i]
    {
      r := r.Next;
      if r == null {
        return null;
      }
      i := i + 1;
    }
  }

  /** Counts from the given node to the back, in a 32-bit counter. */
  method LListGetSize<T>(list: LListElement<T>, ghost nodes: seq<LListElement<T>>, ghost k: nat) returns (result: nat)
    requires IsList(nodes) && k < |nodes| && nodes[k] == list
    ensures result == Wrap32(|nodes| - k)
  {
    result := 1;
    var cur := list;
    ghost var i := k;
    while cur.Next != null
      invariant k <= i < |nodes| && cur == nodes[i]
      invariant result == Wrap32(i - k + 1)
      decreases |nodes| - i
    {
      cur, i := cur.Next, i + 1;
      result := Wrap32(result + 1);
    }
  }

  method LListPushFront<T>(list: LListElement<T>, elementToAdd: LListElement<T>, ghost nodes: seq<LListElement<T>>)
    requires IsList(nodes) && list in nodes && elementToAdd !in nodes
    modifies elementToAdd, nodes[0]
    ensures IsList([elementToAdd] + nodes)
  {
    var first := LListGetFirst(list, nodes);
    elementToAdd.Next := first;
    elementToAdd.Prev := null;
    first.Prev := elementToAdd;
  }

  method LListPushBack<T>(list: LListElement<T>, elementToAdd: LListElement<T>, ghost nodes: seq<LListElement<T>>)
    requires IsList(nodes) && list in nodes && elementToAdd !in nodes
    modifies elementToAdd, nodes[|nodes| - 1]
    ensures IsList(nodes + [elementToAdd])
  {
    var last := LListGetLast(list, nodes);
    elementToAdd.Next := null;
    elementToAdd.Prev := last;
    last.Next := elementToAdd;
  }

  /** The popped element keeps its stale Next link; a list of one element would be
      dereferenced at NULL by the source. */
  method LListPopFront<T>(list: LListElement<T>, ghost nodes: seq<LListElement<T>>) returns (r: LListElement<T>)
    requires IsList(nodes) && list in nodes && |nodes| >= 2
    modifies nodes[1]
    ensures r == nodes[0] && IsList(nodes[1..])
    ensures r.Prev == null && r.Next == nodes[1]
  {
    r := LListGetFirst(list, nodes);
    r.Next.Prev := null;
  }

  /** The popped element keeps its stale Prev link. */
  method LListPopBack<T>(list: LListElement<T>, ghost nodes: seq<LListElement<T>>) returns (r: LListElement<T>)
    requires IsList(nodes) && list in nodes && |nodes| >= 2
    modifies nodes[|nodes| - 2]
    ensures r == nodes[|nodes| - 1] && IsList(nodes[..|nodes| - 1])
    ensures r.Next == null && r.Prev == nodes[|nodes| - 2]
  {
    r := LListGetLast(list, nodes);
    r.Prev.Next := null;
  }

  /** Popping undoes pushing at either end: the pushed element comes back and every link of the list
      is what it was. */
  method PopUndoesPush<T>(list: LListElement<T>, e: LListElement<T>, atFront: bool, ghost nodes: seq<LListElement<T>>)
    returns (r: LListElement<T>)
    requires IsList(nodes) && list in nodes && e !in nodes
    modifies e, nodes
    ensures r == e && IsList(nodes)
    ensures forall x :: x in nodes ==> x.Next == old(x.Next) && x.Prev == old(x.Prev)
  {
    if atFront {
      LListPushFront(list, e, nodes);
      r := LListPopFront(list, [e] + nodes);
      assert ([e] + nodes)[1..] == nodes;
    } else {
      LListPushBack(list, e, nodes);
      r := LListPopBack(list, nodes + [e]);
      assert (nodes + [e])[..|nodes|] == nodes;
    }
  }
}
