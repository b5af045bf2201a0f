/** The circular doubly linked list under every table of the client.

    A node is linked to itself until it is put on a list, and a list is its head node. Where the C code embeds
    a node in a record and recovers the record from it, here the node carries the record. */
module List {

  class Node<T> {
    var next: Node<T>
    var prev: Node<T>
    const val: T

    /** mqtt_list_init. */
    constructor (v: T)
      ensures next == this && prev == this && val == v
    {
      next := this;
      prev := this;
      val := v;
    }
  }

  /** The index after i in a ring of n nodes. */
  function Succ(i: nat, n: nat): nat { if i + 1 == n then 0 else i + 1 }

  ghost predicate Linked<T>(a: Node<T>, b: Node<T>)
    reads a, b
  {
    a.next == b && b.prev == a
  }

  /** The nodes of r, each once, are linked in a circle in that order; r[0] is the head. */
  ghost predicate Ring<T>(r: seq<Node<T>>)
    reads r
  {
    && r != []
    && (forall i, j :: 0 <= i < j < |r| ==> r[i] != r[j])
    && (forall i :: 0 <= i < |r| ==> Linked(r[i], r[Succ(i, |r|)]))
  }

  /** _mqtt_list_add: between two neighbours. */
  method AddBetween<T>(node: Node<T>, prev: Node<T>, next: Node<T>, ghost r: seq<Node<T>>, ghost i: nat)
    requires Ring(r) && i < |r| && prev == r[i] && next == r[Succ(i, |r|)] && node !in r
    modifies node, prev, next
    ensures Ring(r[..i + 1] + [node] + r[i + 1..])
  {
    next.prev := node;
    node.next := next;
    node.prev := prev;
    prev.next := node;
    ghost var t := r[..i + 1] + [node] + r[i + 1..];
    forall k | 0 <= k < |t| ensures Linked(t[k], t[Succ(k, |t|)]) {
      if k < i || k > i + 1 {
        var j := if k < i then k else k - 1;
        assert old(Linked(r[j], r[Succ(j, |r|)]));
        assert t[k] == r[j] && t[Succ(k, |t|)] == r[Succ(j, |r|)];
      }
    }
  }

  /** mqtt_list_add: the node becomes the first of the list. */
  method Add<T>(node: Node<T>, list: Node<T>, ghost r: seq<Node<T>>)
    requires Ring(r) && list == r[0] && node !in r
    modifies node, list, list.next
    ensures Ring([list, node] + r[1..])
  {
    RingNeighbours(r, 0);
    AddBetween(node, list, list.next, r, 0);
    assert r[..1] + [node] + r[1..] == [list, node] + r[1..];
  }

  /** mqtt_list_add_tail: the node becomes the last of the list. */
  method AddTail<T>(node: Node<T>, list: Node<T>, ghost r: seq<Node<T>>)
    requires Ring(r) && list == r[0] && node !in r
    modifies node, list, list.prev
    ensures Ring(r + [node])
  {
    RingNeighbours(r, 0);
    AddBetween(node, list.prev, list, r, |r| - 1);
    assert r[..|r|] + [node] + r[|r|..] == r + [node];
  }

  /** _mqtt_list_del: two nodes are linked past what was between them. */
  method Unlink<T>(prev: Node<T>, next: Node<T>)
    modifies prev, next
    ensures Linked(prev, next)
    ensures prev != next ==> prev.prev == old(prev.prev) && next.next == old(next.next)
  {
    next.prev := prev;
    prev.next := next;
  }

  /** mqtt_list_del: the neighbours are linked to each other, and the node itself is left as it was. Deleting
      the only node of its list changes nothing. */
  method Del<T>(entry: Node<T>, ghost r: seq<Node<T>>, ghost i: nat)
    requires Ring(r) && i < |r| && entry == r[i]
    modifies entry.prev, entry.next
    ensures |r| > 1 ==> Ring(r[..i] + r[i + 1..])
    ensures |r| == 1 ==> Ring(r)
    ensures |r| > 1 ==> entry.next == old(entry.next) && entry.prev == old(entry.prev)
  {
    ghost var p, q := if i == 0 then |r| - 1 else i - 1, Succ(i, |r|);
    assert Linked(r[p], r[Succ(p, |r|)]) && Linked(r[i], r[q]);
    Unlink(entry.prev, entry.next);
    if |r| > 1 {
      ghost var t := r[..i] + r[i + 1..];
      forall k | 0 <= k < |t| ensures Linked(t[k], t[Succ(k, |t|)]) {
        var j := if k < i then k else k + 1;
        assert old(Linked(r[j], r[Succ(j, |r|)]));
        assert t[k] == r[j];
        if j != p {
          assert t[Succ(k, |t|)] == r[Succ(j, |r|)];
        } else {
          assert t[Succ(k, |t|)] == r[q];
        }
      }
    }
  }

  /** mqtt_list_del_init: afterwards the node is a list of its own. */
  method DelInit<T>(entry: Node<T>, ghost r: seq<Node<T>>, ghost i: nat)
    requires Ring(r) && i < |r| && entry == r[i]
    modifies entry, entry.prev, entry.next
    ensures Ring([entry])
    ensures |r| > 1 ==> Ring(r[..i] + r[i + 1..])
  {
    Del(entry, r, i);
    ghost var t := r[..i] + r[i + 1..];
    assert forall k :: 0 <= k < |t| ==> t[k] == r[if k < i then k else k + 1];
    assert Ring(t) || |r| == 1;
    entry.next := entry;
    entry.prev := entry;
  }

  /** mqtt_list_move, within one list: the node becomes its first. */
  method Move<T>(node: Node<T>, list: Node<T>, ghost r: seq<Node<T>>, ghost i: nat)
    requires Ring(r) && 0 < i < |r| && node == r[i] && list == r[0]
    modifies r
    ensures Ring([list, node] + r[1..i] + r[i + 1..])
  {
    ghost var t := r[..i] + r[i + 1..];
    RingNeighbours(r, i);
    Del(node, r, i);
    RingNeighbours(t, 0);
    assert t[0] == list && forall k :: 0 <= k < |t| ==> t[k] == r[if k < i then k else k + 1];
    Add(node, list, t);
    assert [list, node] + t[1..] == [list, node] + r[1..i] + r[i + 1..];
  }

  lemma RingNeighbours<T>(r: seq<Node<T>>, i: nat)
    requires Ring(r) && i < |r|
    ensures r[i].next == r[Succ(i, |r|)] && r[i].prev == r[if i == 0 then |r| - 1 else i - 1]
  {
    var p := if i == 0 then |r| - 1 else i - 1;
    assert Linked(r[i], r[Succ(i, |r|)]) && Linked(r[p], r[Succ(p, |r|)]);
  }

  /** mqtt_list_is_empty. */
  method IsEmpty<T>(list: Node<T>, ghost r: seq<Node<T>>) returns (empty: bool)
    requires Ring(r) && list == r[0]
    ensures empty == (r == [list])
  {
    empty := list.next == list;
    RingNeighbours(r, 0);
  }
}
