/** The doubly linked list of src/util/list.c: nodes that are relinked in place. A list is given by its first node; the
    ghost sequences say which nodes it runs through and what they hold. */
module DList {
  import opened ListSpec

  /** What a node holds: the data, and whether it has a function to free it. */
  datatype Cell<T> = Cell(data: T, owned: bool)

  class Node<T> {
    var data: T
    var free_func: bool
    var next: Node?<T>
    var prev: Node?<T>

    constructor (data: T, prev: Node?<T>, next: Node?<T>, free_func: bool)
      ensures this.data == data && this.prev == prev && this.next == next && this.free_func == free_func
    {
      this.data, this.prev, this.next, this.free_func := data, prev, next, free_func;
    }

    function Held(): Cell<T>
      reads this
    {
      Cell(data, free_func)
    }
  }

  function At<T>(nodes: seq<Node<T>>, i: int): Node?<T> {
    if 0 <= i < |nodes| then nodes[i] else null
  }

  ghost predicate Distinct<T>(nodes: seq<Node<T>>) {
    forall i, j :: 0 <= i < j < |nodes| ==> nodes[i] != nodes[j]
  }

  // Forward and backward pointers run through the nodes.
  ghost predicate Links<T>(nodes: seq<Node<T>>)
    reads nodes
  {
    && (forall i {:trigger nodes[i].next} :: 0 <= i < |nodes| ==> nodes[i].next == At(nodes, i + 1))
    && (forall i {:trigger nodes[i].prev} :: 0 <= i < |nodes| ==> nodes[i].prev == At(nodes, i - 1))
  }

  ghost predicate Holds<T>(nodes: seq<Node<T>>, cells: seq<Cell<T>>)
    reads nodes
  {
    |nodes| == |cells| && forall i {:trigger nodes[i].Held()} :: 0 <= i < |nodes| ==> nodes[i].Held() == cells[i]
  }

  /** `list` is the first of the nodes, which are linked both ways without a cycle and hold the cells. */
  ghost predicate List<T>(list: Node?<T>, nodes: seq<Node<T>>, cells: seq<Cell<T>>)
    reads nodes
  {
    list == At(nodes, 0) && Distinct(nodes) && Links(nodes) && Holds(nodes, cells)
  }

  method GetLast<T>(list: Node<T>, ghost nodes: seq<Node<T>>, ghost cells: seq<Cell<T>>) returns (last: Node<T>)
    requires List(list, nodes, cells)
    ensures last == nodes[|nodes| - 1]
  {
    last := list;
    ghost var i := 0;
    while last.next != null
      invariant 0 <= i < |nodes| && last == nodes[i]
      decreases |nodes| - i
    {
      last := last.next;
      i := i + 1;
    }
  }

  /** ufa_list_get: the node at a position, or null behind the end. */
  method Get<T>(list: Node?<T>, pos: nat, ghost nodes: seq<Node<T>>, ghost cells: seq<Cell<T>>) returns (node: Node?<T>)
    requires List(list, nodes, cells)
    ensures node == At(nodes, pos)
  {
    node := list;
    var x := 0;
    while x < pos && node != null
      invariant 0 <= x <= pos && node == At(nodes, x)
    {
      assert node == nodes[x];
      node := node.next;
      x := x + 1;
    }
  }

  method Size<T>(list: Node?<T>, ghost nodes: seq<Node<T>>, ghost cells: seq<Cell<T>>) returns (size: nat)
    requires List(list, nodes, cells)
    ensures size == |cells|
  {
    var l := list;
    size := 0;
    while l != null
      invariant size <= |nodes| && l == At(nodes, size)
      decreases |nodes| - size
    {
      assert l == nodes[size];
      l := l.next;
      size := size + 1;
    }
  }

  /** ufa_list_append2 */
  method Append<T>(list: Node?<T>, element: T, free_func: bool, ghost nodes: seq<Node<T>>, ghost cells: seq<Cell<T>>)
      returns (r: Node<T>, ghost nodes': seq<Node<T>>)
    requires List(list, nodes, cells)
    modifies nodes
    ensures List(r, nodes', cells + [Cell(element, free_func)])
    ensures |nodes'| == |nodes| + 1 && nodes'[..|nodes|] == nodes && fresh(nodes'[|nodes|])
  {
    var node := new Node(element, null, null, free_func);
    nodes' := nodes + [node];
    if list != null {
      var last := GetLast(list, nodes, cells);
      last.next := node;
      node.prev := last;
      r := list;
    } else {
      r := node;
    }
    forall i | 0 <= i < |nodes'|
      ensures nodes'[i].Held() == (cells + [Cell(element, free_func)])[i] && nodes'[i].next == At(nodes', i + 1) && nodes'[i].prev == At(nodes', i - 1)
    {
      assert i < |nodes| ==> old(nodes[i].Held()) == cells[i] && old(nodes[i].next) == At(nodes, i + 1) && old(nodes[i].prev) == At(nodes, i - 1);
    }
  }

  /** ufa_list_concat: the lists must not share nodes. */
  method Concat<T>(list: Node?<T>, list2: Node?<T>, ghost nodes: seq<Node<T>>, ghost cells: seq<Cell<T>>,
      ghost nodes2: seq<Node<T>>, ghost cells2: seq<Cell<T>>) returns (r: Node?<T>)
    requires List(list, nodes, cells) && List(list2, nodes2, cells2)
    requires forall i, j :: 0 <= i < |nodes| && 0 <= j < |nodes2| ==> nodes[i] != nodes2[j]
    modifies nodes, nodes2
    ensures List(r, nodes + nodes2, cells + cells2)
  {
    if list == null {
      assert nodes + nodes2 == nodes2 && cells + cells2 == cells2;
      return list2;
    }
    if list2 == null {
      assert nodes + nodes2 == nodes && cells + cells2 == cells;
      return list;
    }
    var last := GetLast(list, nodes, cells);
    last.next := list2;
    list2.prev := last;
    r := list;
    ghost var nodes', cells' := nodes + nodes2, cells + cells2;
    ghost var n := |nodes|;
    assert list2 == nodes2[0] && last == nodes[n - 1];
    forall i | 0 <= i < |nodes'|
      ensures nodes'[i].Held() == cells'[i] && nodes'[i].next == At(nodes', i + 1) && nodes'[i].prev == At(nodes', i - 1)
    {
      if i < n {
        assert nodes'[i] == nodes[i] != list2;
        assert old(nodes[i].Held()) == cells[i] && old(nodes[i].next) == At(nodes, i + 1) && old(nodes[i].prev) == At(nodes, i - 1);
      } else {
        var k := i - n;
        assert nodes'[i] == nodes2[k] != last;
        assert old(nodes2[k].Held()) == cells2[k] && old(nodes2[k].next) == At(nodes2, k + 1) && old(nodes2[k].prev) == At(nodes2, k - 1);
      }
    }
  }

  // link_before: a lone node goes in front of position p of a list.
  method LinkBefore<T>(list: Node?<T>, newnode: Node<T>, ghost head: Node?<T>, ghost nodes: seq<Node<T>>, ghost cells: seq<Cell<T>>, ghost p: nat)
    requires List(head, nodes, cells) && p <= |nodes| && list == At(nodes, p) && (list == null ==> nodes == [])
    requires newnode.next == null && newnode.prev == null && newnode !in nodes
    modifies nodes, newnode
    ensures var nodes' := nodes[..p] + [newnode] + nodes[p..];
      List(nodes'[0], nodes', cells[..p] + [old(newnode.Held())] + cells[p..])
  {
    ghost var cell := newnode.Held();
    if list != null {
      newnode.next := list;
      newnode.prev := list.prev;
      list.prev := newnode;
      if newnode.prev != null {
        newnode.prev.next := newnode;
      }
    }
    forall k | 0 <= k < |nodes|
      ensures nodes[k].Held() == cells[k]
      ensures nodes[k].next == if k + 1 == p then newnode else At(nodes, k + 1)
      ensures nodes[k].prev == if k == p then newnode else At(nodes, k - 1)
    {
      assert old(nodes[k].Held()) == cells[k] && old(nodes[k].next) == At(nodes, k + 1) && old(nodes[k].prev) == At(nodes, k - 1);
    }
    Inserted(newnode, nodes, cells, p);
  }

  // A list whose neighbours around position p point to a node that points back.
  lemma {:induction false} Inserted<T>(node: Node<T>, nodes: seq<Node<T>>, cells: seq<Cell<T>>, p: nat)
    requires p <= |nodes| == |cells| && Distinct(nodes) && node !in nodes && node.next == At(nodes, p) && node.prev == At(nodes, p - 1)
    requires forall k :: 0 <= k < |nodes| ==> nodes[k].Held() == cells[k]
    requires forall k {:trigger nodes[k].next} :: 0 <= k < |nodes| ==> nodes[k].next == if k + 1 == p then node else At(nodes, k + 1)
    requires forall k {:trigger nodes[k].prev} :: 0 <= k < |nodes| ==> nodes[k].prev == if k == p then node else At(nodes, k - 1)
    ensures var nodes' := nodes[..p] + [node] + nodes[p..]; List(nodes'[0], nodes', cells[..p] + [node.Held()] + cells[p..])
  {
    ghost var nodes', cells' := nodes[..p] + [node] + nodes[p..], cells[..p] + [node.Held()] + cells[p..];
    forall i | 0 <= i < |nodes'|
      ensures nodes'[i].Held() == cells'[i] && nodes'[i].next == At(nodes', i + 1) && nodes'[i].prev == At(nodes', i - 1)
    {
      if i != p {
        var k := if i < p then i else i - 1;
        assert nodes'[i] == nodes[k] && cells'[i] == cells[k];
      }
    }
  }

  /** ufa_list_prepend2 */
  method Prepend<T>(list: Node?<T>, element: T, free_func: bool, ghost nodes: seq<Node<T>>, ghost cells: seq<Cell<T>>)
      returns (r: Node<T>)
    requires List(list, nodes, cells)
    modifies nodes
    ensures fresh(r) && List(r, [r] + nodes, [Cell(element, free_func)] + cells)
  {
    r := new Node(element, null, null, free_func);
    LinkBefore(list, r, list, nodes, cells, 0);
    assert nodes[..0] + [r] + nodes[0..] == [r] + nodes;
    assert cells[..0] + [Cell(element, free_func)] + cells[0..] == [Cell(element, free_func)] + cells;
  }

  /** ufa_list_insert: at the position, or behind the end. */
  method Insert<T>(list: Node?<T>, pos: nat, element: T, ghost nodes: seq<Node<T>>, ghost cells: seq<Cell<T>>)
      returns (r: Node<T>, ghost nodes': seq<Node<T>>)
    requires List(list, nodes, cells)
    modifies nodes
    ensures var p := if pos < |cells| then pos else |cells|;
      List(r, nodes', cells[..p] + [Cell(element, false)] + cells[p..]) &&
      exists node :: fresh(node) && nodes' == nodes[..p] + [node] + nodes[p..]
  {
    if pos == 0 {
      r := Prepend(list, element, false, nodes, cells);
      nodes' := [r] + nodes;
      assert nodes' == nodes[..0] + [r] + nodes[0..];
      assert cells[..0] + [Cell(element, false)] + cells[0..] == [Cell(element, false)] + cells;
      return;
    }
    var l := Get(list, pos, nodes, cells);
    if l == null {
      r, nodes' := Append(list, element, false, nodes, cells);
      ghost var n := |nodes|;
      assert nodes' == nodes[..n] + [nodes'[n]] + nodes[n..];
      assert cells[..n] + [Cell(element, false)] + cells[n..] == cells + [Cell(element, false)];
      return;
    }
    var node := new Node(element, null, null, false);
    LinkBefore(l, node, list, nodes, cells, pos);
    r := list;
    nodes' := nodes[..pos] + [node] + nodes[pos..];
  }

  /** ufa_list_unlink_node: the node leaves the list and is linked to nothing; a null pointer leaves the list alone. */
  method UnlinkNode<T>(list: Node?<T>, node: Node?<T>, ghost nodes: seq<Node<T>>, ghost cells: seq<Cell<T>>, ghost i: nat)
      returns (r: Node?<T>)
    requires List(list, nodes, cells) && (node != null ==> i < |nodes| && node == nodes[i])
    modifies if node == null then [] else nodes
    ensures node == null ==> r == list && List(r, nodes, cells)
    ensures node != null ==> List(r, nodes[..i] + nodes[i + 1..], cells[..i] + cells[i + 1..])
    ensures node != null ==> node.next == null && node.prev == null && node.Held() == cells[i]
  {
    if node == null {
      return list;
    }
    var prev, next := node.prev, node.next;
    assert node.Held() == cells[i];
    if prev != null {
      prev.next := next;
    }
    if next != null {
      next.prev := prev;
    }
    node.next := null;
    node.prev := null;
    r := if list == node then next else list;
    forall k | 0 <= k < |nodes| && k != i
      ensures nodes[k].Held() == cells[k]
      ensures nodes[k].next == if k + 1 == i then At(nodes, i + 1) else At(nodes, k + 1)
      ensures nodes[k].prev == if k == i + 1 then At(nodes, i - 1) else At(nodes, k - 1)
    {
      assert old(nodes[k].Held()) == cells[k] && old(nodes[k].next) == At(nodes, k + 1) && old(nodes[k].prev) == At(nodes, k - 1);
    }
    Omitted(r, nodes, cells, i);
  }

  // A list whose neighbours of position i point past it.
  lemma {:induction false} Omitted<T>(list: Node?<T>, nodes: seq<Node<T>>, cells: seq<Cell<T>>, i: nat)
    requires i < |nodes| == |cells| && Distinct(nodes) && list == if i == 0 then At(nodes, 1) else At(nodes, 0)
    requires forall k :: 0 <= k < |nodes| && k != i ==> nodes[k].Held() == cells[k]
    requires forall k {:trigger nodes[k].next} :: 0 <= k < |nodes| && k != i ==>
      nodes[k].next == if k + 1 == i then At(nodes, i + 1) else At(nodes, k + 1)
    requires forall k {:trigger nodes[k].prev} :: 0 <= k < |nodes| && k != i ==>
      nodes[k].prev == if k == i + 1 then At(nodes, i - 1) else At(nodes, k - 1)
    ensures List(list, nodes[..i] + nodes[i + 1..], cells[..i] + cells[i + 1..])
  {
    ghost var nodes', cells' := nodes[..i] + nodes[i + 1..], cells[..i] + cells[i + 1..];
    forall j | 0 <= j < |nodes'|
      ensures nodes'[j].Held() == cells'[j] && nodes'[j].next == At(nodes', j + 1) && nodes'[j].prev == At(nodes', j - 1)
    {
      var k := if j < i then j else j + 1;
      assert nodes'[j] == nodes[k] && cells'[j] == cells[k];
    }
  }

  /** ufa_list_reverse: in place; the old last node is the new first. */
  method Reverse<T>(list: Node?<T>, ghost nodes: seq<Node<T>>, ghost cells: seq<Cell<T>>) returns (last: Node?<T>)
    requires List(list, nodes, cells)
    modifies nodes
    ensures List(last, Reversed(nodes), Reversed(cells)) && last == At(nodes, |nodes| - 1)
  {
    var next := list;
    last := list;
    ghost var i := 0;
    while next != null
      invariant 0 <= i <= |nodes| && next == At(nodes, i)
      invariant last == if i == |nodes| then At(nodes, |nodes| - 1) else list
      invariant forall j {:trigger nodes[j].next} :: 0 <= j < |nodes| ==> nodes[j].next == At(nodes, if j < i then j - 1 else j + 1)
      invariant forall j {:trigger nodes[j].prev} :: 0 <= j < |nodes| ==> nodes[j].prev == At(nodes, if j < i then j + 1 else j - 1)
      invariant forall j {:trigger cells[j]} :: 0 <= j < |nodes| ==> nodes[j].Held() == cells[j]
      decreases |nodes| - i
    {
      assert next == nodes[i] && nodes[i].next == At(nodes, i + 1);
      var next_next := next.next;
      if next.next == null {
        last := next;
      }
      var aux := next.next;
      next.next := next.prev;
      next.prev := aux;
      next := next_next;
      i := i + 1;
    }
    ReversedList(last, nodes, cells);
  }

  lemma {:induction false} ReversedList<T>(last: Node?<T>, nodes: seq<Node<T>>, cells: seq<Cell<T>>)
    requires Distinct(nodes) && Holds(nodes, cells) && last == At(nodes, |nodes| - 1)
    requires forall j {:trigger nodes[j].next} :: 0 <= j < |nodes| ==> nodes[j].next == At(nodes, j - 1)
    requires forall j {:trigger nodes[j].prev} :: 0 <= j < |nodes| ==> nodes[j].prev == At(nodes, j + 1)
    ensures List(last, Reversed(nodes), Reversed(cells))
  {
    var n := |nodes|;
    forall i | 0 <= i < n
      ensures Reversed(nodes)[i] == nodes[n - 1 - i] && Reversed(cells)[i] == cells[n - 1 - i]
    {
      ReversedAt(nodes, i);
      ReversedAt(cells, i);
    }
    forall i | 0 <= i < n
      ensures At(nodes, i) == At(Reversed(nodes), n - 1 - i)
    {
      ReversedAt(nodes, n - 1 - i);
    }
  }

  function Copied<T>(cells: seq<Cell<T>>, copy: T -> T, free_func: bool): (r: seq<Cell<T>>)
    ensures |r| == |cells| && forall i :: 0 <= i < |cells| ==> r[i] == Cell(copy(cells[i].data), free_func)
  {
    seq(|cells|, i requires 0 <= i < |cells| => Cell(copy(cells[i].data), free_func))
  }

  /** ufa_list_clone: new nodes with the copied data in the same order; `copy` is the identity when there is no copy
      function. The list itself is left alone. */
  method Clone<T>(list: Node?<T>, copy: T -> T, free_func: bool, ghost nodes: seq<Node<T>>, ghost cells: seq<Cell<T>>)
      returns (r: Node?<T>, ghost nodes': seq<Node<T>>)
    requires List(list, nodes, cells)
    ensures List(r, nodes', Copied(cells, copy, free_func)) && fresh(nodes')
  {
    var new_list: Node?<T> := null;
    nodes' := [];
    ghost var copied := [];
    var i := list;
    ghost var k := 0;
    while i != null
      invariant k <= |nodes| && i == At(nodes, k)
      invariant List(new_list, nodes', copied) && |copied| == k && fresh(nodes')
      invariant forall j :: 0 <= j < k ==> copied[j] == Cell(copy(cells[k - 1 - j].data), free_func)
      decreases |nodes| - k
    {
      assert i.Held() == cells[k] && i.next == At(nodes, k + 1);
      var p := copy(i.data);
      new_list := Prepend(new_list, p, free_func, nodes', copied);
      nodes', copied := [new_list] + nodes', [Cell(p, free_func)] + copied;
      i := i.next;
      k := k + 1;
    }
    forall j | 0 <= j < k
      ensures Reversed(copied)[j] == Copied(cells, copy, free_func)[j]
    {
      ReversedAt(copied, j);
    }
    assert Reversed(copied) == Copied(cells, copy, free_func);
    ghost var was := nodes';
    r := Reverse(new_list, nodes', copied);
    nodes' := Reversed(nodes');
    forall j | 0 <= j < |nodes'|
      ensures nodes'[j] == was[|was| - 1 - j]
    {
      ReversedAt(was, j);
    }
  }

  // The data that a list frees: what its own cells free, or all of it when there is a function for the others.
  function Freed<T>(cells: seq<Cell<T>>, all: bool): seq<T> {
    if cells == [] then []
    else (if cells[0].owned || all then [cells[0].data] else []) + Freed(cells[1..], all)
  }

  /** ufa_list_free, and ufa_list_free_full when there is a function for the cells without one. */
  method Free<T>(list: Node?<T>, all: bool, ghost nodes: seq<Node<T>>, ghost cells: seq<Cell<T>>) returns (freed: seq<T>)
    requires List(list, nodes, cells)
    ensures freed == Freed(cells, all)
  {
    freed := [];
    var l := list;
    ghost var k := 0;
    while l != null
      invariant k <= |nodes| && l == At(nodes, k) && freed + Freed(cells[k..], all) == Freed(cells, all)
      decreases |nodes| - k
    {
      assert l.Held() == cells[k] && l.next == At(nodes, k + 1);
      assert cells[k..][0] == cells[k] && cells[k..][1..] == cells[k + 1..];
      if l.free_func || all {
        freed := freed + [l.data];
      }
      l := l.next;
      k := k + 1;
    }
  }
}
