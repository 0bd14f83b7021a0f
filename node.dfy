/** One vertex of the reduced word tree. The word, depth and sibling-order
    index are fixed when the node is made; only the list of children grows,
    and only the tree builder appends to it. */
module Nodes {
  import FreeGroup

  /** The last char of a word; the NUL char for the empty word. */
  function LastCharOf(w: string): char {
    if |w| == 0 then '\0' else w[|w| - 1]
  }

  class Node {
    const word: string
    const depth: int
    const orderIndex: int
    var children: seq<Node>

    constructor (word: string, depth: int, orderIndex: int)
      ensures this.word == word && this.depth == depth && this.orderIndex == orderIndex
      ensures children == []
    {
      this.word := word;
      this.depth := depth;
      this.orderIndex := orderIndex;
      children := [];
    }

    /** The edge symbol that led to this node; the NUL char for the root. */
    function LastChar(): (c: char)
      ensures |word| == 0 ==> c == '\0'
      ensures |word| > 0 ==> c == word[|word| - 1]
      ensures FreeGroup.IsWord(word) ==> (c == '\0' <==> word == [])
      ensures word == [] ==> forall s :: !FreeGroup.IsInversePair(c, s)
    {
      LastCharOf(word)
    }
  }
}
