/** The doubly linked list of the children of an array or object, rewired in place. */
module JsonChildren {

  class Node {
    var next: Node?
    var prev: Node?
    var child: Node?

    constructor ()
      ensures next == null && prev == null && child == null
    {
      next := null;
      prev := null;
      child := null;
    }

    /** The children of this node are exactly `nodes`, in this order: the links agree in both directions and
        the list ends on both sides, so that it has no cycle. */
    ghost predicate Children(nodes: seq<Node>)
      reads this, nodes
    {
      this !in nodes && Distinct(nodes) && child == At(nodes, 0) &&
      (forall i {:trigger nodes[i].prev} :: 0 <= i < |nodes| ==> nodes[i].prev == At(nodes, i - 1)) &&
      (forall i {:trigger nodes[i].next} :: 0 <= i < |nodes| ==> nodes[i].next == At(nodes, i + 1))
    }
  }

  /** The node at an index, or null outside the list. */
  ghost function At(nodes: seq<Node>, i: int): Node? {
    if 0 <= i < |nodes| then nodes[i] else null
  }

  ghost predicate Distinct(nodes: seq<Node>) {
    forall i, j :: 0 <= i < j < |nodes| ==> nodes[i] != nodes[j]
  }

  ghost function Inserted(nodes: seq<Node>, k: nat, item: Node): seq<Node>
    requires k <= |nodes|
  {
    nodes[..k] + [item] + nodes[k..]
  }

  lemma InsertedAt(nodes: seq<Node>, k: nat, item: Node)
    requires k <= |nodes| && Distinct(nodes) && item !in nodes
    ensures var all := Inserted(nodes, k, item);
      |all| == |nodes| + 1 && Distinct(all) &&
      forall i :: 0 <= i < |all| ==> all[i] == if i < k then nodes[i] else if i == k then item else nodes[i - 1]
  {
  }

  lemma RemovedAt(nodes: seq<Node>, k: nat)
    requires k < |nodes| && Distinct(nodes)
    ensures var rest := Removed(nodes, k);
      |rest| == |nodes| - 1 && Distinct(rest) && nodes[k] !in rest &&
      forall i :: 0 <= i < |rest| ==> rest[i] == if i < k then nodes[i] else nodes[i + 1]
  {
  }

  ghost function Removed(nodes: seq<Node>, k: nat): seq<Node>
    requires k < |nodes|
  {
    nodes[..k] + nodes[k + 1..]
  }

  /** Walks to the child with the given index; null behind the last one, for a negative index and without a parent. */
  method GetArrayItem(parent: Node?, index: int, ghost nodes: seq<Node>) returns (current: Node?)
    requires parent != null ==> parent.Children(nodes)
    ensures current == if parent == null then null else At(nodes, index)
  {
    if index < 0 || parent == null {
      return null;
    }
    current := parent.child;
    var left: nat := index;
    while current != null && left > 0
      invariant left <= index && current == At(nodes, index - left)
      invariant current == null ==> |nodes| <= index - left
      decreases left
    {
      assert current == nodes[index - left];
      left := left - 1;
      current := current.next;
    }
  }

  /** Appends a detached node. */
  method AddItemToArray(parent: Node?, item: Node?, ghost nodes: seq<Node>) returns (ok: bool)
    requires parent != null ==> parent.Children(nodes)
    requires parent != null && item != null ==>
      item != parent && item !in nodes && item.prev == null && item.next == null
    modifies parent, item, nodes
    ensures ok <==> parent != null && item != null
    ensures ok ==> parent.Children(nodes + [item])
    ensures !ok && parent != null ==> parent.Children(nodes)
  {
    if item == null || parent == null {
      return false;
    }
    var last := parent.child;
    if last == null {
      parent.child := item;
    } else {
      ghost var k := 0;
      while last.next != null
        invariant 0 <= k < |nodes| && last == nodes[k]
        decreases |nodes| - k
      {
        last := last.next;
        k := k + 1;
      }
      SuffixObject(last, item);
    }
    return true;
  }

  method SuffixObject(prev: Node, item: Node)
    modifies prev`next, item`prev
    ensures prev.next == item && item.prev == prev
  {
    prev.next := item;
    item.prev := prev;
  }

  /** Inserts a node in front of the child with the given index; behind the last child it appends, and a
      negative index changes nothing. */
  method InsertItemInArray(parent: Node, which: int, item: Node, ghost nodes: seq<Node>)
    requires parent.Children(nodes) && item != parent && item !in nodes
    requires which >= |nodes| ==> item.prev == null && item.next == null
    modifies parent, item, nodes
    ensures parent.Children(if which < 0 then nodes
      else Inserted(nodes, if which < |nodes| then which else |nodes|, item))
  {
    if which < 0 {
      return;
    }
    var after := GetArrayItem(parent, which, nodes);
    if after == null {
      var ok := AddItemToArray(parent, item, nodes);
      assert Inserted(nodes, |nodes|, item) == nodes + [item];
      return;
    }
    InsertBefore(parent, after, item, nodes, which);
  }

  method InsertBefore(parent: Node, after: Node, item: Node, ghost nodes: seq<Node>, ghost k: nat)
    requires parent.Children(nodes) && k < |nodes| && nodes[k] == after
    requires item != parent && item !in nodes
    modifies parent, item, nodes
    ensures parent.Children(Inserted(nodes, k, item))
  {
    item.next := after;
    item.prev := after.prev;
    after.prev := item;
    if after == parent.child {
      parent.child := item;
    } else {
      item.prev.next := item;
    }
    ghost var all := Inserted(nodes, k, item);
    InsertedAt(nodes, k, item);
    forall i | 0 <= i < |all| ensures all[i].prev == At(all, i - 1) && all[i].next == At(all, i + 1) {
      assert i < k ==> all[i] == nodes[i];
      assert i > k ==> all[i] == nodes[i - 1];
    }
  }

  /** Takes a child out of the list; it points nowhere afterwards and all others keep their order. Without a parent or
      a child nothing happens. */
  method DetachItemViaPointer(parent: Node?, item: Node?, ghost nodes: seq<Node>, ghost k: nat)
    returns (detached: Node?)
    requires parent != null ==> parent.Children(nodes)
    requires parent != null && item != null ==> k < |nodes| && nodes[k] == item
    modifies parent, nodes
    ensures detached == if parent == null then null else item
    ensures detached != null ==> detached.prev == null && detached.next == null && parent.Children(Removed(nodes, k))
    ensures detached == null ==> (parent != null ==> parent.Children(nodes)) && unchanged(nodes)
  {
    if parent == null || item == null {
      return null;
    }
    if item.prev != null {
      item.prev.next := item.next;
    }
    if item.next != null {
      item.next.prev := item.prev;
    }
    if item == parent.child {
      parent.child := item.next;
    }
    item.prev := null;
    item.next := null;
    RemovedAt(nodes, k);
    ghost var rest := Removed(nodes, k);
    forall i | 0 <= i < |rest| ensures rest[i].prev == At(rest, i - 1) && rest[i].next == At(rest, i + 1) {
      assert rest[i] == if i < k then nodes[i] else nodes[i + 1];
    }
    return item;
  }

  /** Puts another node in the place of a child; fails when a node is missing. */
  method ReplaceItemViaPointer(parent: Node?, item: Node?, replacement: Node?, ghost nodes: seq<Node>, ghost k: nat)
    returns (ok: bool)
    requires parent != null ==> parent.Children(nodes)
    requires parent != null && item != null && replacement != null ==>
      k < |nodes| && nodes[k] == item && (replacement == item || (replacement != parent && replacement !in nodes))
    modifies parent, nodes, replacement
    ensures ok <==> parent != null && item != null && replacement != null
    ensures ok ==> parent.Children(nodes[k := replacement])
    ensures ok && replacement != item ==> item.prev == null && item.next == null
    ensures !ok ==> (parent != null ==> parent.Children(nodes)) && unchanged(nodes)
  {
    if parent == null || replacement == null || item == null {
      return false;
    }
    if replacement == item {
      assert nodes[k := replacement] == nodes;
      return true;
    }
    replacement.next := item.next;
    replacement.prev := item.prev;
    if replacement.next != null {
      replacement.next.prev := replacement;
    }
    if replacement.prev != null {
      replacement.prev.next := replacement;
    }
    if parent.child == item {
      parent.child := replacement;
    }
    item.next := null;
    item.prev := null;
    ghost var all := nodes[k := replacement];
    forall i | 0 <= i < |all| ensures all[i].prev == At(all, i - 1) && all[i].next == At(all, i + 1) {
      assert i != k ==> all[i] == nodes[i];
    }
    return true;
  }

  /** Detaching a child and inserting it again at its old index restores the list. */
  method DetachAndReinsert(parent: Node, which: nat, ghost nodes: seq<Node>)
    requires parent.Children(nodes) && which < |nodes|
    modifies parent, nodes
    ensures parent.Children(nodes)
  {
    var item := GetArrayItem(parent, which, nodes);
    item := DetachItemViaPointer(parent, item, nodes, which);
    ghost var rest := Removed(nodes, which);
    RemovedAt(nodes, which);
    InsertItemInArray(parent, which, item, rest);
    assert Inserted(rest, which, nodes[which]) == nodes;
  }
}
