/**
 The list of heap nodes (include/list.h): singly linked forwards and ending in null,
 with the head's `prev` pointing at the tail.  It refines a sequence of nodes.
 */
module NodeList {
  import opened MmapNode

  class List {
    var head: Node?
    ghost var nodes: seq<Node>

    ghost predicate Valid()
      reads this, nodes
    {
      (head == if nodes == [] then null else nodes[0]) &&
      (nodes != [] ==> nodes[0].prev == nodes[|nodes| - 1]) &&
      (forall i {:trigger nodes[i].next} :: 0 <= i < |nodes| ==>
         nodes[i].next == if i + 1 < |nodes| then nodes[i + 1] else null) &&
      (forall i {:trigger nodes[i].prev} :: 1 <= i < |nodes| ==> nodes[i].prev == nodes[i - 1]) &&
      (forall i, j :: 0 <= i < j < |nodes| ==> nodes[i] != nodes[j])
    }

    constructor ()
      ensures Valid() && nodes == []
    {
      head := null;
      nodes := [];
    }

    /** list_append */
    method Append(node: Node)
      requires Valid() && node !in nodes
      modifies this, nodes, node
      ensures Valid() && nodes == old(nodes) + [node]
    {
      if head == null {
        node.next := null;
        node.prev := node;
        head := node;
      } else {
        var tail := head.prev;
        node.next := null;
        node.prev := tail;
        tail.next := node;
        head.prev := node;
      }
      nodes := nodes + [node];
    }

    /** list_remove: at the head, in the middle, at the tail, or of the only node. */
    method Remove(node: Node, ghost i: nat)
      requires Valid() && i < |nodes| && node == nodes[i]
      modifies this, nodes
      ensures Valid() && nodes == old(nodes)[..i] + old(nodes)[i + 1..]
    {
      var next := node.next;
      var prev := node.prev;
      assert head != null && prev != null;
      if next != null {
        next.prev := prev;
      }
      if head == node {
        head := if prev == node then null else next;
      } else {
        prev.next := next;
        if head.prev == node {
          head.prev := prev;
        }
      }
      nodes := nodes[..i] + nodes[i + 1..];
    }
  }
}
