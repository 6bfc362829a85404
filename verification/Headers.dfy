/** The header lists of requests and responses. */
module Headers {
  import opened Memory
  import opened Lists

  datatype HeaderText = HeaderText(name: string, value: string)

  /** "name: value", as both sides of a connection print it. */
  function HeaderLineText(h: HeaderText): string {
    h.name + ":" + (" " + h.value)
  }

  function HeaderLines(hs: seq<HeaderText>): seq<string> {
    if hs == [] then [] else [HeaderLineText(hs[0])] + HeaderLines(hs[1..])
  }

  /** struct Header: first is the name, second the value. */
  type Header = Node<()>
  type HeaderPtr = Node?<()>

  function TextOf(h: Header): HeaderText {
    HeaderText(h.first.text, h.second.text)
  }

  ghost function Texts(nodes: seq<Header>): (ts: seq<HeaderText>)
    ensures |ts| == |nodes|
  {
    if nodes == [] then [] else [TextOf(nodes[0])] + Texts(nodes[1..])
  }

  lemma {:induction false} TextsExtended(nodes: seq<Header>, entry: Header)
    ensures Texts(nodes + [entry]) == Texts(nodes) + [TextOf(entry)]
  {
    if nodes == [] {
      assert nodes + [entry] == [entry];
      assert [entry][1..] == [];
    } else {
      TextsExtended(nodes[1..], entry);
      assert (nodes + [entry])[1..] == nodes[1..] + [entry];
    }
  }

  method AddHeader(head: HeaderPtr, ghost nodes: seq<Header>, heap: Heap, name: string, value: string)
    returns (newHead: Header, entry: Header)
    requires Owned(head, nodes, heap.live)
    modifies nodes, heap
    ensures Owned(newHead, nodes + [entry], heap.live)
    ensures Texts(nodes + [entry]) == Texts(nodes) + [HeaderText(name, value)]
    ensures Blocks(nodes + [entry]) == Blocks(nodes) + NodeBlocks(entry)
    ensures fresh(NodeBlocks(entry)) && NodeBlocks(entry) !! old(heap.live)
    ensures heap.live == old(heap.live) + NodeBlocks(entry)
  {
    hide Owned, Blocks, NodeBlocks;
    newHead, entry := AddEntry(head, nodes, heap, name, value, ());
    TextsExtended(nodes, entry);
  }
}
