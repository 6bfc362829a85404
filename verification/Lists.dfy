/** The singly linked lists of the server. struct Header and struct Route have one shape: two
    owned strings, plain data, and the successor. */
module Lists {
  import opened Memory

  class Node<T> {
    const first: Block
    const second: Block
    const data: T
    var next: Node?<T>

    constructor (first: Block, second: Block, data: T)
      ensures this.first == first && this.second == second && this.data == data && next == null
    {
      this.first, this.second, this.data := first, second, data;
      next := null;
    }
  }

  /** head leads through the given nodes, in order and without repetition, to NULL. */
  ghost predicate IsChain<T>(head: Node?<T>, nodes: seq<Node<T>>)
    reads nodes
  {
    && (nodes == [] <==> head == null)
    && (nodes != [] ==> head == nodes[0] && nodes[|nodes| - 1].next == null)
    && (forall i | 0 <= i < |nodes| - 1 :: nodes[i].next == nodes[i + 1])
    && (forall i, j | 0 <= i < j < |nodes| :: nodes[i] != nodes[j])
  }

  ghost function NodeBlocks<T>(n: Node<T>): set<object> {
    {n, n.first, n.second}
  }

  /** Everything a list owns. */
  ghost function Blocks<T>(nodes: seq<Node<T>>): set<object> {
    if nodes == [] then {} else NodeBlocks(nodes[0]) + Blocks(nodes[1..])
  }

  /** No block serves twice. */
  ghost predicate Separate<T>(nodes: seq<Node<T>>) {
    nodes != [] ==>
      && nodes[0].first != nodes[0].second
      && NodeBlocks(nodes[0]) !! Blocks(nodes[1..])
      && Separate(nodes[1..])
  }

  ghost predicate Owned<T>(head: Node?<T>, nodes: seq<Node<T>>, live: set<object>)
    reads nodes
  {
    IsChain(head, nodes) && Separate(nodes) && Blocks(nodes) <= live
  }

  lemma {:induction false} Extended<T>(nodes: seq<Node<T>>, entry: Node<T>)
    requires Separate(nodes)
    requires entry.first != entry.second
    requires NodeBlocks(entry) !! Blocks(nodes)
    ensures Separate(nodes + [entry])
    ensures Blocks(nodes + [entry]) == Blocks(nodes) + NodeBlocks(entry)
  {
    if nodes == [] {
      assert nodes + [entry] == [entry];
      assert [entry][1..] == [];
    } else {
      Extended(nodes[1..], entry);
      assert (nodes + [entry])[1..] == nodes[1..] + [entry];
    }
  }

  lemma {:induction false} NodesAreBlocks<T>(nodes: seq<Node<T>>)
    ensures forall i | 0 <= i < |nodes| :: nodes[i] in Blocks(nodes)
  {
    if nodes != [] {
      NodesAreBlocks(nodes[1..]);
      assert forall i | 1 <= i < |nodes| :: nodes[i] == nodes[1..][i - 1];
    }
  }

  lemma ChainTail<T>(head: Node<T>, nodes: seq<Node<T>>)
    requires IsChain(head, nodes)
    ensures nodes != [] && head == nodes[0] && IsChain(head.next, nodes[1..])
  {
    assert |nodes| > 1 ==> nodes[0].next == nodes[0 + 1];
  }

  lemma ChainEnd<T>(head: Node?<T>, nodes: seq<Node<T>>)
    requires IsChain(head, nodes)
    ensures head == null <==> nodes == []
  {
  }

  /** The append loop of requestAddHeader, responseSetHeader and routerSetHdl: walk to the
      node without successor and hang the new node there. */
  method Append<T>(head: Node?<T>, ghost nodes: seq<Node<T>>, entry: Node<T>) returns (newHead: Node<T>)
    requires IsChain(head, nodes)
    requires entry !in nodes && entry.next == null
    modifies nodes
    ensures IsChain(newHead, nodes + [entry])
  {
    if head == null {
      return entry;
    }
    var ptr: Node<T> := head;
    ghost var k := 0;
    while ptr.next != null
      invariant 0 <= k < |nodes| && ptr == nodes[k]
      invariant k < |nodes| - 1 ==> ptr.next == nodes[k + 1]
      decreases |nodes| - k
    {
      ptr := ptr.next;
      k := k + 1;
    }
    ptr.next := entry;
    newHead := head;
    ghost var longer := nodes + [entry];
    forall i | 0 <= i < |longer| - 1
      ensures longer[i].next == longer[i + 1]
    {
      assert longer[i] == nodes[i];
      assert i < k ==> nodes[i] != ptr && nodes[i].next == nodes[i + 1];
    }
  }

  /** malloc the node and copies of its two strings, and append it. */
  method AddEntry<T>(head: Node?<T>, ghost nodes: seq<Node<T>>, heap: Heap, first: string, second: string, data: T)
    returns (newHead: Node<T>, entry: Node<T>)
    requires Owned(head, nodes, heap.live)
    modifies nodes, heap
    ensures Owned(newHead, nodes + [entry], heap.live)
    ensures entry.first.text == first && entry.second.text == second && entry.data == data
    ensures Blocks(nodes + [entry]) == Blocks(nodes) + NodeBlocks(entry)
    ensures fresh(NodeBlocks(entry)) && NodeBlocks(entry) !! old(heap.live)
    ensures heap.live == old(heap.live) + NodeBlocks(entry)
  {
    entry := NewEntry(heap, first, second, data);
    NodesAreBlocks(nodes);
    Extended(nodes, entry);
    newHead := Append(head, nodes, entry);
  }

  method NewEntry<T>(heap: Heap, first: string, second: string, data: T) returns (entry: Node<T>)
    modifies heap
    ensures entry.first.text == first && entry.second.text == second && entry.data == data && entry.next == null
    ensures entry.first != entry.second
    ensures fresh(NodeBlocks(entry)) && NodeBlocks(entry) !! old(heap.live)
    ensures heap.live == old(heap.live) + NodeBlocks(entry)
  {
    var firstCopy := heap.Copy(first);
    var secondCopy := heap.Copy(second);
    entry := new Node(firstCopy, secondCopy, data);
    heap.live := heap.live + {entry};
  }

  /** The freeing loop of requestDestroy, responseDestroy and routerDestroy: every node and
      string once. */
  method DestroyList<T>(head: Node?<T>, ghost nodes: seq<Node<T>>, heap: Heap)
    requires Owned(head, nodes, heap.live)
    modifies heap
    ensures heap.live == old(heap.live) - Blocks(nodes)
  {
    var node := head;
    ghost var left := nodes;
    while node != null
      invariant Owned(node, left, heap.live)
      invariant heap.live - Blocks(left) == old(heap.live) - Blocks(nodes)
      decreases |left|
    {
      var temp: Node<T> := node;
      node := node.next;
      ChainTail(temp, left);
      heap.Free(temp.first);
      heap.Free(temp.second);
      heap.Free(temp);
      left := left[1..];
    }
  }
}
