/** malloc and free as a ledger of live blocks. */
module Memory {

  /** A malloc'ed block holding a C string or a body; written once, before it is shared. */
  class Block {
    const text: seq<char>

    constructor (text: seq<char>)
      ensures this.text == text
    {
      this.text := text;
    }
  }

  /** The blocks obtained from malloc and not yet freed. Free demands a live block, so a
      verified caller frees nothing twice and nothing it does not own. */
  class Heap {
    ghost var live: set<object>

    constructor ()
      ensures live == {}
    {
      live := {};
    }

    /** p = malloc(...); strcpy/memcpy(p, text) */
    method Copy(text: seq<char>) returns (p: Block)
      modifies this
      ensures fresh(p) && p !in old(live) && p.text == text
      ensures live == old(live) + {p}
    {
      p := new Block(text);
      live := live + {p};
    }

    ghost method Free(p: object)
      requires p in live
      modifies this
      ensures live == old(live) - {p}
    {
      live := live - {p};
    }
  }

  function Opt(p: Block?): (s: set<object>) {
    if p == null then {} else {p}
  }
}
