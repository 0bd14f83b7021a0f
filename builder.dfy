/** The breadth-first builder of the reduced word tree: a queue of nodes, a
    dictionary from word to node, the non-backtracking rule and a duplicate
    guard on insertion. */
module TreeBuilder {
  import opened FreeGroup
  import opened Nodes
  import opened WordTree

  /** The words of a sequence of nodes, in order. */
  function WordsOf(ns: seq<Node>): (ws: seq<string>)
    ensures |ws| == |ns|
    ensures forall i :: 0 <= i < |ns| ==> ws[i] == ns[i].word
  {
    seq(|ns|, i requires 0 <= i < |ns| => ns[i].word)
  }

  /** The node carries the word, depth and index the builder gives `w`. */
  predicate Labelled(n: Node, w: string) {
    n.word == w && n.depth == |w| && n.orderIndex == OrderIndexOf(w)
  }

  /** The children a node of word `w` ends up with when the depth bound is `depth`. */
  function ExpectedChildren(w: string, depth: int): seq<string> {
    if |w| < depth then Extensions(w) else []
  }

  /** The words of `a + b` are the words of `a`, then those of `b`. */
  lemma WordsOfConcat(a: seq<Node>, b: seq<Node>)
    ensures WordsOf(a + b) == WordsOf(a) + WordsOf(b)
  {
  }

  /** The dictionary after adding the nodes `ns` in order, each under its word. */
  function Insert(m: map<string, Node>, ns: seq<Node>): (r: map<string, Node>)
    ensures forall x :: x in m ==> x in r
    decreases |ns|
  {
    if |ns| == 0 then m else Insert(m, ns[..|ns| - 1])[ns[|ns| - 1].word := ns[|ns| - 1]]
  }

  lemma InsertSnoc(m: map<string, Node>, ns: seq<Node>, n: Node)
    ensures Insert(m, ns + [n]) == Insert(m, ns)[n.word := n]
  {
    assert (ns + [n])[..|ns|] == ns;
  }

  /** The keys after insertion are the old keys and the inserted words. */
  lemma {:induction false} InsertKeys(m: map<string, Node>, ns: seq<Node>, x: string)
    ensures x in Insert(m, ns) <==> x in m || x in WordsOf(ns)
    decreases |ns|
  {
    if |ns| > 0 {
      var init := ns[..|ns| - 1];
      InsertKeys(m, init, x);
      assert WordsOf(ns) == WordsOf(init) + [ns[|ns| - 1].word];
    }
  }

  /** An entry whose word is not inserted keeps its node. */
  lemma {:induction false} InsertKeeps(m: map<string, Node>, ns: seq<Node>, x: string)
    requires x in m && x !in WordsOf(ns)
    ensures Insert(m, ns)[x] == m[x]
    decreases |ns|
  {
    if |ns| > 0 {
      var init := ns[..|ns| - 1];
      assert WordsOf(ns) == WordsOf(init) + [ns[|ns| - 1].word];
      InsertKeeps(m, init, x);
    }
  }

  /** With distinct words, each inserted word maps to its own node. */
  lemma {:induction false} InsertFinds(m: map<string, Node>, ns: seq<Node>, j: int)
    requires Distinct(WordsOf(ns)) && 0 <= j < |ns|
    ensures ns[j].word in Insert(m, ns) && Insert(m, ns)[ns[j].word] == ns[j]
    decreases |ns|
  {
    var init := ns[..|ns| - 1];
    var last := ns[|ns| - 1];
    if j < |ns| - 1 {
      assert WordsOf(ns) == WordsOf(init) + [last.word];
      assert WordsOf(init)[j] != last.word by {
        assert WordsOf(ns)[j] != WordsOf(ns)[|ns| - 1];
      }
      assert Distinct(WordsOf(init)) by {
        forall i, k | 0 <= i < k < |init| ensures WordsOf(init)[i] != WordsOf(init)[k] {
          assert WordsOf(ns)[i] != WordsOf(ns)[k];
        }
      }
      InsertFinds(m, init, j);
    }
  }

  /** The facts the builder needs about adding the children `kids` of `w`. */
  lemma InsertChildren(m: map<string, Node>, kids: seq<Node>, w: string)
    requires WordsOf(kids) == Extensions(w)
    ensures forall x :: x in Insert(m, kids) <==> x in m || x in Extensions(w)
    ensures forall x :: x in m && x !in Extensions(w) ==> Insert(m, kids)[x] == m[x]
    ensures forall j :: 0 <= j < |kids| ==> kids[j].word in Insert(m, kids) && Insert(m, kids)[kids[j].word] == kids[j]
  {
    forall x ensures x in Insert(m, kids) <==> x in m || x in Extensions(w) {
      InsertKeys(m, kids, x);
    }
    forall x | x in m && x !in Extensions(w) ensures Insert(m, kids)[x] == m[x] {
      InsertKeeps(m, kids, x);
    }
    ExtensionsDistinct(w);
    forall j | 0 <= j < |kids| ensures kids[j].word in Insert(m, kids) && Insert(m, kids)[kids[j].word] == kids[j] {
      InsertFinds(m, kids, j);
    }
  }

  /** Every queued node is the dictionary's node for its word. */
  ghost predicate Queued(nodes: map<string, Node>, q: seq<Node>) {
    forall i :: 0 <= i < |q| ==> q[i].word in nodes && nodes[q[i].word] == q[i]
  }

  /** Dequeuing keeps `Queued`; the head is the dictionary's node for its word. */
  lemma QueuedTail(nodes: map<string, Node>, q: seq<Node>)
    requires Queued(nodes, q) && |q| > 0
    ensures q[0].word in nodes && nodes[q[0].word] == q[0] && Queued(nodes, q[1..])
  {
    forall i | 0 <= i < |q| - 1 ensures q[1..][i].word in nodes && nodes[q[1..][i].word] == q[1..][i] {
      assert q[1..][i] == q[i + 1];
    }
  }

  /** Enqueuing the children of `w` as they are inserted keeps `Queued`. */
  lemma QueuedExpand(nodes: map<string, Node>, w: string, q: seq<Node>, kids: seq<Node>)
    requires Queued(nodes, q)
    requires WordsOf(kids) == Extensions(w)
    requires forall x :: x in Extensions(w) ==> x !in nodes
    ensures Queued(Insert(nodes, kids), q + kids)
  {
    InsertChildren(nodes, kids, w);
    var q' := q + kids;
    forall i | 0 <= i < |q'| ensures q'[i].word in Insert(nodes, kids) && Insert(nodes, kids)[q'[i].word] == q'[i] {
      if i >= |q| {
        assert q'[i] == kids[i - |q|];
      }
    }
  }

  /** The part of the builder's loop invariant that is about words only:
      `Entries` and `Pending`. */
  ghost predicate Frontier(nodes: map<string, Node>, qw: seq<string>, done: set<string>, depth: int) {
    Entries(nodes, done, depth) && Pending(nodes, qw, done)
  }

  /** Every dictionary entry is labelled and belongs to the tree, and every
      entry's parent has been expanded (is in `done`). */
  ghost predicate Entries(nodes: map<string, Node>, done: set<string>, depth: int) {
    (forall x :: x in nodes ==> Labelled(nodes[x], x) && InTree(x, depth)) &&
    done <= nodes.Keys &&
    (forall x {:trigger Parent(x)} :: x in nodes && x != [] ==> Parent(x) in done)
  }

  /** The queue holds distinct entries not yet expanded, and every entry is
      either expanded or queued. */
  ghost predicate Pending(nodes: map<string, Node>, qw: seq<string>, done: set<string>) {
    (forall i :: 0 <= i < |qw| ==> qw[i] in nodes && qw[i] !in done) &&
    Distinct(qw) &&
    (forall x :: x in nodes ==> x in done || x in qw)
  }

  /** The word one symbol shorter: the parent in the tree. */
  function Parent(x: string): string
    requires x != []
  {
    x[..|x| - 1]
  }

  /** The word at the head of the queue has no child in the dictionary yet. */
  lemma ChildrenAbsent(nodes: map<string, Node>, w: string, qw: seq<string>, done: set<string>, depth: int)
    requires Frontier(nodes, [w] + qw, done, depth)
    ensures w in nodes && w !in done
    ensures forall x :: x in Extensions(w) ==> x !in nodes && x != [] && Parent(x) == w
  {
    assert ([w] + qw)[0] == w;
    assert w in nodes && w !in done;
    forall x | x in Extensions(w) ensures x !in nodes && x != [] && Parent(x) == w {
      ExtensionsMembers(w, x);
      assert x != [] && Parent(x) == w;
    }
  }

  /** Dequeuing a word at the depth bound: it is expanded with no children. */
  lemma FrontierSkip(nodes: map<string, Node>, w: string, qw: seq<string>, done: set<string>, depth: int)
    requires Frontier(nodes, [w] + qw, done, depth)
    ensures Frontier(nodes, qw, done + {w}, depth)
  {
    PendingSkip(nodes, w, qw, done);
  }

  /** Dequeuing `w` and marking it expanded keeps `Pending`. */
  lemma PendingSkip(nodes: map<string, Node>, w: string, qw: seq<string>, done: set<string>)
    requires Pending(nodes, [w] + qw, done)
    ensures w in nodes && w !in done && w !in qw
    ensures Pending(nodes, qw, done + {w})
  {
    assert ([w] + qw)[0] == w;
    assert forall i :: 0 <= i < |qw| ==> qw[i] == ([w] + qw)[i + 1];
  }

  /** Inserting the children of `w`, an entry below the depth bound, and
      marking `w` expanded keeps `Entries`. */
  lemma EntriesExpand(nodes: map<string, Node>, w: string, kids: seq<Node>, done: set<string>, depth: int)
    requires Entries(nodes, done, depth) && w in nodes && |w| < depth
    requires WordsOf(kids) == Extensions(w)
    requires forall j :: 0 <= j < |kids| ==> Labelled(kids[j], kids[j].word)
    requires forall x :: x in Extensions(w) ==> x !in nodes && x != [] && Parent(x) == w
    ensures Entries(Insert(nodes, kids), done + {w}, depth)
  {
    EntriesLabelled(nodes, w, kids, depth);
    EntriesParents(nodes, w, kids, done);
  }

  /** The inserted children are labelled tree words, one symbol longer than `w`. */
  lemma EntriesLabelled(nodes: map<string, Node>, w: string, kids: seq<Node>, depth: int)
    requires forall x :: x in nodes ==> Labelled(nodes[x], x) && InTree(x, depth)
    requires w in nodes && |w| < depth
    requires WordsOf(kids) == Extensions(w)
    requires forall j :: 0 <= j < |kids| ==> Labelled(kids[j], kids[j].word)
    requires forall x :: x in Extensions(w) ==> x !in nodes
    ensures forall x :: x in Insert(nodes, kids) ==> Labelled(Insert(nodes, kids)[x], x) && InTree(x, depth)
  {
    InsertChildren(nodes, kids, w);
    var nodes' := Insert(nodes, kids);
    forall x | x in nodes' ensures Labelled(nodes'[x], x) && InTree(x, depth) {
      if x in Extensions(w) {
        var j :| 0 <= j < |kids| && WordsOf(kids)[j] == x;
        ExtensionsAreTreeWords(w, x);
      }
    }
  }

  /** The parent of every inserted child is `w`, which is now expanded. */
  lemma EntriesParents(nodes: map<string, Node>, w: string, kids: seq<Node>, done: set<string>)
    requires forall x {:trigger Parent(x)} :: x in nodes && x != [] ==> Parent(x) in done
    requires WordsOf(kids) == Extensions(w)
    requires forall x :: x in Extensions(w) ==> x != [] && Parent(x) == w
    ensures forall x {:trigger Parent(x)} :: x in Insert(nodes, kids) && x != [] ==> Parent(x) in done + {w}
  {
    forall x | x in Insert(nodes, kids) && x != [] ensures Parent(x) in done + {w} {
      InsertKeys(nodes, kids, x);
    }
  }

  /** Dequeuing `w` and enqueuing its children, which are inserted, keeps
      `Pending`. */
  lemma PendingExpand(nodes: map<string, Node>, w: string, kids: seq<Node>, qw: seq<string>, done: set<string>)
    requires Pending(nodes, [w] + qw, done) && done <= nodes.Keys
    requires WordsOf(kids) == Extensions(w)
    requires forall x :: x in Extensions(w) ==> x !in nodes
    ensures Pending(Insert(nodes, kids), qw + Extensions(w), done + {w})
  {
    PendingSkip(nodes, w, qw, done);
    InsertChildren(nodes, kids, w);
    var nodes', qw' := Insert(nodes, kids), qw + Extensions(w);
    forall i | 0 <= i < |qw'| ensures qw'[i] in nodes' && qw'[i] !in done + {w} {
      if i >= |qw| {
        assert qw'[i] in Extensions(w);
      }
    }
    ExtensionsDistinct(w);
    DistinctConcat(qw, Extensions(w));
  }

  /** Dequeuing a word below the depth bound and adding its children to the
      dictionary and to the back of the queue keeps `Frontier`. */
  lemma FrontierExpand(nodes: map<string, Node>, w: string, kids: seq<Node>,
                       qw: seq<string>, done: set<string>, depth: int)
    requires Frontier(nodes, [w] + qw, done, depth)
    requires |w| < depth
    requires WordsOf(kids) == Extensions(w)
    requires forall j :: 0 <= j < |kids| ==> Labelled(kids[j], kids[j].word)
    ensures Frontier(Insert(nodes, kids), qw + Extensions(w), done + {w}, depth)
  {
    ChildrenAbsent(nodes, w, qw, done, depth);
    EntriesExpand(nodes, w, kids, done, depth);
    PendingExpand(nodes, w, kids, qw, done);

  }

  /** The part of the builder's loop invariant that is about the nodes'
      children: an entry not yet expanded has none, an expanded entry has
      exactly the children its word calls for, and each child is the node the
      dictionary holds for the child's word. */
  ghost predicate Links(nodes: map<string, Node>, done: set<string>, depth: int)
    reads nodes.Values
  {
    (forall w :: w in nodes && w !in done ==> nodes[w].children == []) &&
    (forall w :: w in done && w in nodes ==> WordsOf(nodes[w].children) == ExpectedChildren(w, depth)) &&
    (forall w, i :: w in done && w in nodes && 0 <= i < |nodes[w].children| ==>
       nodes[w].children[i].word in nodes && nodes[nodes[w].children[i].word] == nodes[w].children[i])
  }

  /** Dequeuing a word at the depth bound keeps `Links`: it has no children. */
  lemma LinksSkip(nodes: map<string, Node>, w: string, done: set<string>, depth: int)
    requires Links(nodes, done, depth)
    requires w in nodes && w !in done && |w| >= depth
    ensures Links(nodes, done + {w}, depth)
  {
  }

  /** The index of a child word is the next order index of its parent's. */
  lemma ChildIndex(w: string, c: char)
    ensures OrderIndexOf(w + [c]) == NextOrderIndex(OrderIndexOf(w), c)
  {
    assert (w + [c])[..|w|] == w;
  }

  /** The child word for the `i`-th symbol is not yet in the dictionary
      when the children for the earlier symbols have been inserted. */
  lemma ChildWordAbsent(nodes: map<string, Node>, kids: seq<Node>, w: string, i: int)
    requires 0 <= i < |Alphabet| && !IsInversePair(LastCharOf(w), Alphabet[i])
    requires WordsOf(kids) == ExtendBy(w, Alphabet[..i])
    requires forall x :: x in Extensions(w) ==> x !in nodes
    ensures w + [Alphabet[i]] !in Insert(nodes, kids)
  {
    var c, x := Alphabet[i], w + [Alphabet[i]];
    assert x[..|w|] == w && x[|w|] == c;
    assert c !in Alphabet[..i] by {
      assert forall j :: 0 <= j < i ==> Alphabet[j] != Alphabet[i];
    }
    ExtendByMembers(w, Alphabet[..i], x);
    ExtendByMembers(w, Alphabet, x);
    InsertKeys(nodes, kids, x);
  }

  /** After the edge symbols `Alphabet[..i]` have been tried for the word
      `w`: `kids` are the children made so far, each labelled and childless,
      and they have been inserted into the dictionary and enqueued. */
  ghost predicate Tried(w: string, i: int, nodes: map<string, Node>, q: seq<Node>,
                        nodes': map<string, Node>, kids: seq<Node>, q': seq<Node>)
    requires 0 <= i <= |Alphabet|
    reads kids
  {
    WordsOf(kids) == ExtendBy(w, Alphabet[..i]) && nodes' == Insert(nodes, kids) && q' == q + kids &&
    forall j :: 0 <= j < |kids| ==> Labelled(kids[j], kids[j].word) && kids[j].children == []
  }

  /** Once every edge symbol has been tried, the children are all the extensions of `w`. */
  lemma TriedAll(w: string, nodes: map<string, Node>, q: seq<Node>,
                 nodes': map<string, Node>, kids: seq<Node>, q': seq<Node>)
    requires Tried(w, |Alphabet|, nodes, q, nodes', kids, q')
    ensures WordsOf(kids) == Extensions(w) && nodes' == Insert(nodes, kids) && q' == q + kids
    ensures forall j :: 0 <= j < |kids| ==> Labelled(kids[j], kids[j].word) && kids[j].children == []
  {
    assert Alphabet[..|Alphabet|] == Alphabet;
  }

  /** `kids'` is `kids` plus one new labelled, childless node of word `x`,
      which has been inserted into the dictionary and enqueued. */
  ghost predicate Appended(x: string, nodes: map<string, Node>, kids: seq<Node>, q: seq<Node>,
                           nodes': map<string, Node>, kids': seq<Node>, q': seq<Node>)
    reads kids'
  {
    |kids'| == |kids| + 1 && kids' == kids + [kids'[|kids|]] &&
    kids'[|kids|].word == x && Labelled(kids'[|kids|], x) && kids'[|kids|].children == [] &&
    nodes' == nodes[x := kids'[|kids|]] && q' == q + [kids'[|kids|]]
  }

  /** Trying an edge symbol that cancels the last symbol of `w` changes nothing. */
  lemma TriedSkip(w: string, i: int, nodes: map<string, Node>, q: seq<Node>,
                  nodes1: map<string, Node>, kids1: seq<Node>, q1: seq<Node>)
    requires 0 <= i < |Alphabet| && Tried(w, i, nodes, q, nodes1, kids1, q1)
    requires Keep(w, Alphabet[i]) == []
    ensures Tried(w, i + 1, nodes, q, nodes1, kids1, q1)
  {
    assert Alphabet[..i + 1] == Alphabet[..i] + [Alphabet[i]];
    ExtendBySnoc(w, Alphabet[..i], Alphabet[i]);
    assert ExtendBy(w, Alphabet[..i + 1]) == ExtendBy(w, Alphabet[..i]) + [];
  }

  /** Trying any other edge symbol appends its child to `Tried`. */
  lemma TriedAppend(w: string, i: int, nodes: map<string, Node>, q: seq<Node>,
                    nodes1: map<string, Node>, kids1: seq<Node>, q1: seq<Node>,
                    nodes2: map<string, Node>, kids2: seq<Node>, q2: seq<Node>)
    requires 0 <= i < |Alphabet| && Tried(w, i, nodes, q, nodes1, kids1, q1)
    requires Keep(w, Alphabet[i]) != []
    requires Appended(w + [Alphabet[i]], nodes1, kids1, q1, nodes2, kids2, q2)
    ensures Tried(w, i + 1, nodes, q, nodes2, kids2, q2)
  {
    var c, child := Alphabet[i], kids2[|kids1|];
    assert WordsOf(kids2) == ExtendBy(w, Alphabet[..i + 1]) by {
      assert Alphabet[..i + 1] == Alphabet[..i] + [c];
      ExtendBySnoc(w, Alphabet[..i], c);
      WordsOfConcat(kids1, [child]);
      assert WordsOf([child]) == [w + [c]];
    }
    assert nodes2 == Insert(nodes, kids2) by {
      InsertSnoc(nodes, kids1, child);
    }
    assert q2 == q + kids2 by {
      assert q2 == (q + kids1) + [child];
    }
    forall j | 0 <= j < |kids2| ensures Labelled(kids2[j], kids2[j].word) && kids2[j].children == [] {
      if j < |kids1| {
        assert kids2[j] == kids1[j];
      }
    }
  }

  /** One round of the builder's inner loop, for the edge symbol `c`: unless
      `c` cancels the last symbol of `cur`, makes the child node and inserts
      it into the dictionary; if the insertion succeeds the child is appended
      to the children `kids` and enqueued, and if the word was already there
      nothing changes and `refused` is 1. */
  method TryEdge(cur: Node, c: char, nodes: map<string, Node>, kids: seq<Node>, q: seq<Node>)
      returns (nodes': map<string, Node>, kids': seq<Node>, q': seq<Node>, ghost refused: int)
    requires Labelled(cur, cur.word)
    ensures Keep(cur.word, c) == [] || cur.word + [c] in nodes ==> nodes' == nodes && kids' == kids && q' == q
    ensures refused == (if Keep(cur.word, c) != [] && cur.word + [c] in nodes then 1 else 0)
    ensures Keep(cur.word, c) != [] && cur.word + [c] !in nodes ==>
              Appended(cur.word + [c], nodes, kids, q, nodes', kids', q') && fresh(kids'[|kids|])
  {
    nodes', kids', q', refused := nodes, kids, q, 0;
    if IsInversePair(cur.LastChar(), c) {
      return;
    }
    var childWord := cur.word + [c];
    var child := new Node(childWord, cur.depth + 1, NextOrderIndex(cur.orderIndex, c));
    ChildIndex(cur.word, c);
    if childWord in nodes {
      refused := 1;
      return;
    }
    nodes' := nodes[childWord := child];
    kids' := kids + [child];
    q' := q + [child];
  }

  /** The round for the `i`-th edge symbol, seen from the loop: it extends
      `Tried` by one symbol and refuses nothing, because no extension of
      `cur` was in the dictionary `nodes` the loop started from. */
  method TrySymbol(cur: Node, i: int, ghost nodes: map<string, Node>, ghost q: seq<Node>,
                   nodes': map<string, Node>, kids: seq<Node>, q': seq<Node>)
      returns (nodes'': map<string, Node>, kids': seq<Node>, q'': seq<Node>, ghost refused: int)
    requires 0 <= i < |Alphabet| && Labelled(cur, cur.word)
    requires forall x :: x in Extensions(cur.word) ==> x !in nodes
    requires Tried(cur.word, i, nodes, q, nodes', kids, q')
    ensures Tried(cur.word, i + 1, nodes, q, nodes'', kids', q'')
    ensures forall n :: n in kids' ==> n in kids || fresh(n)
    ensures refused == 0
  {
    var w, c := cur.word, Alphabet[i];
    if Keep(w, c) != [] {
      ChildWordAbsent(nodes, kids, w, i);
    }
    nodes'', kids', q'', refused := TryEdge(cur, c, nodes', kids, q');
    if Keep(w, c) == [] {
      TriedSkip(w, i, nodes, q, nodes', kids, q');
    } else {
      TriedAppend(w, i, nodes, q, nodes', kids, q', nodes'', kids', q'');
    }
  }

  /** The inner loop of the builder for one dequeued node `cur`: tries the
      edge symbols a, A, b, B in that order and gives `cur` the children it
      made. No insertion is refused, because no child word is in the
      dictionary yet. */
  method AddChildren(cur: Node, nodes: map<string, Node>, q: seq<Node>)
      returns (nodes': map<string, Node>, q': seq<Node>, ghost refused: int)
    requires Labelled(cur, cur.word) && cur.children == []
    requires forall x :: x in Extensions(cur.word) ==> x !in nodes
    modifies cur
    ensures WordsOf(cur.children) == Extensions(cur.word)
    ensures forall j :: 0 <= j < |cur.children| ==>
              Labelled(cur.children[j], cur.children[j].word) && fresh(cur.children[j]) && cur.children[j].children == []
    ensures nodes' == Insert(nodes, cur.children)
    ensures q' == q + cur.children
    ensures refused == 0
  {
    var w := cur.word;
    var kids: seq<Node> := [];
    nodes', q', refused := nodes, q, 0;
    for i := 0 to |Alphabet|
      invariant Tried(w, i, nodes, q, nodes', kids, q')
      invariant forall n :: n in kids ==> fresh(n)
      invariant refused == 0
    {
      nodes', kids, q', refused := TrySymbol(cur, i, nodes, q, nodes', kids, q');
    }
    TriedAll(w, nodes, q, nodes', kids, q');
    forall j | 0 <= j < |kids| ensures fresh(kids[j]) {
      assert kids[j] in kids;
    }
    cur.children := kids;
  }

  /** When the queue is empty every entry has been expanded, and the
      dictionary holds exactly the tree: each word of the tree (a parent
      below the depth bound has all its extensions as children) and nothing
      else. */
  lemma BuiltTree(nodes: map<string, Node>, done: set<string>, depth: int)
    requires "" in nodes && Frontier(nodes, [], done, depth) && Links(nodes, done, depth)
    ensures nodes[""].depth == 0 && nodes[""].orderIndex == 0
    ensures forall w :: w in nodes <==> InTree(w, depth)
    ensures nodes.Keys == TreeWords(depth) && |nodes| == TreeSize(depth)
    ensures forall w :: w in nodes ==> Labelled(nodes[w], w)
    ensures forall w :: w in nodes ==> WordsOf(nodes[w].children) == ExpectedChildren(w, depth)
    ensures forall w, i :: w in nodes && 0 <= i < |nodes[w].children| ==>
              nodes[w].children[i].word in nodes && nodes[nodes[w].children[i].word] == nodes[w].children[i]
  {
    assert done == nodes.Keys;
    assert Labelled(nodes[""], "");
    BuiltKeys(nodes, depth);
  }

  /** A dictionary of tree words holding the root, in which every entry
      below the depth bound has all its extensions as children, holds
      exactly the tree. */
  lemma BuiltKeys(nodes: map<string, Node>, depth: int)
    requires "" in nodes && forall w :: w in nodes ==> InTree(w, depth)
    requires forall w :: w in nodes ==> WordsOf(nodes[w].children) == ExpectedChildren(w, depth)
    requires forall w, i :: w in nodes && 0 <= i < |nodes[w].children| ==> nodes[w].children[i].word in nodes
    ensures nodes.Keys == TreeWords(depth)
  {
    forall w, x | w in nodes && |w| < depth && x in Extensions(w) ensures x in nodes {
      var k :| 0 <= k < |nodes[w].children| && WordsOf(nodes[w].children)[k] == x;
    }
    forall x | InTree(x, depth) ensures x in nodes {
      ClosedSetHoldsTree(nodes.Keys, depth, x);
    }
  }

  /** One expansion step of the builder: `AddChildren` on the dequeued
      node `cur`, together with the fact that it keeps `Links` (every other
      node is left as it was). */
  method ExpandNode(cur: Node, nodes: map<string, Node>, q: seq<Node>, ghost done: set<string>, depth: int)
      returns (nodes': map<string, Node>, q': seq<Node>, ghost refused: int)
    requires Links(nodes, done, depth) && done <= nodes.Keys
    requires cur.word in nodes && nodes[cur.word] == cur && cur.word !in done && |cur.word| < depth
    requires forall w :: w in nodes ==> Labelled(nodes[w], w)
    requires forall x :: x in Extensions(cur.word) ==> x !in nodes
    modifies cur
    ensures Links(nodes', done + {cur.word}, depth)
    ensures WordsOf(cur.children) == Extensions(cur.word)
    ensures forall j :: 0 <= j < |cur.children| ==>
              Labelled(cur.children[j], cur.children[j].word) && fresh(cur.children[j])
    ensures nodes' == Insert(nodes, cur.children)
    ensures q' == q + cur.children
    ensures refused == 0
  {
    nodes', q', refused := AddChildren(cur, nodes, q);
    var kids := cur.children;
    InsertChildren(nodes, kids, cur.word);
    forall w | w in nodes' && w !in done + {cur.word} ensures nodes'[w].children == [] {
      if w in nodes {
        assert nodes[w] != cur;
      } else {
        var j :| 0 <= j < |kids| && WordsOf(kids)[j] == w;
      }
    }
    forall w | w in done + {cur.word} && w in nodes'
      ensures WordsOf(nodes'[w].children) == ExpectedChildren(w, depth)
    {
      if w != cur.word {
        assert nodes[w] != cur;
      }
    }
    forall w, i | w in done + {cur.word} && w in nodes' && 0 <= i < |nodes'[w].children|
      ensures nodes'[w].children[i].word in nodes' && nodes'[nodes'[w].children[i].word] == nodes'[w].children[i]
    {
      if w != cur.word {
        assert nodes[w] != cur;
        assert nodes'[w].children == old(nodes[w].children);
        var y := nodes'[w].children[i].word;
        assert y in nodes && nodes[y] == nodes'[w].children[i];
        assert y !in Extensions(cur.word);
      }
    }
  }

  /** The builder's loop invariant. */
  ghost predicate Building(nodes: map<string, Node>, q: seq<Node>, done: set<string>, depth: int)
    reads nodes.Values
  {
    "" in nodes && Frontier(nodes, WordsOf(q), done, depth) && Links(nodes, done, depth) && Queued(nodes, q)
  }

  /** The head of the queue is an entry that has not been expanded, none of
      its extensions is an entry yet, and the rest of the queue is still queued. */
  lemma HeadOfQueue(nodes: map<string, Node>, q: seq<Node>, done: set<string>, depth: int)
    requires |q| > 0 && Building(nodes, q, done, depth)
    ensures WordsOf(q) == [q[0].word] + WordsOf(q[1..])
    ensures q[0].word in nodes && nodes[q[0].word] == q[0] && q[0].word !in done && Queued(nodes, q[1..])
    ensures forall x :: x in Extensions(q[0].word) ==> x !in nodes && x != [] && Parent(x) == q[0].word
  {
    var cur, tail := q[0], q[1..];
    assert q == [cur] + tail;
    WordsOfConcat([cur], tail);
    assert WordsOf([cur]) == [cur.word];
    ChildrenAbsent(nodes, cur.word, WordsOf(tail), done, depth);
    QueuedTail(nodes, q);
  }

  /** Dequeuing a node at the depth bound only marks it as expanded. */
  lemma SkipHead(nodes: map<string, Node>, q: seq<Node>, done: set<string>, depth: int)
    requires |q| > 0 && Building(nodes, q, done, depth) && q[0].depth >= depth
    ensures Building(nodes, q[1..], done + {q[0].word}, depth)
  {
    var w := q[0].word;
    HeadOfQueue(nodes, q, done, depth);
    FrontierSkip(nodes, w, WordsOf(q[1..]), done, depth);
    LinksSkip(nodes, w, done, depth);
  }

  /** One round of the builder's loop: dequeue the head node, and unless it
      is at the depth bound give it its children and enqueue them. */
  method ExpandHead(nodes: map<string, Node>, q: seq<Node>, ghost done: set<string>, depth: int)
      returns (nodes': map<string, Node>, q': seq<Node>, ghost done': set<string>, ghost refused: int)
    requires |q| > 0 && Building(nodes, q, done, depth)
    modifies q[0]
    ensures Building(nodes', q', done', depth)
    ensures q[0].word !in done && InTree(q[0].word, depth) && done' == done + {q[0].word}
    ensures |q'| >= |q| - 1 && q'[..|q| - 1] == q[1..]
    ensures forall i :: |q| - 1 <= i < |q'| ==> fresh(q'[i])
    ensures refused == 0
  {
    var cur := q[0];
    q' := q[1..];
    ghost var w := cur.word;
    HeadOfQueue(nodes, q, done, depth);
    done' := done + {w};
    refused := 0;
    if cur.depth >= depth {
      SkipHead(nodes, q, done, depth);
      nodes' := nodes;
      return;
    }
    var tail := q';
    nodes', q', refused := ExpandNode(cur, nodes, tail, done, depth);
    WordsOfConcat(tail, cur.children);
    FrontierExpand(nodes, w, cur.children, WordsOf(tail), done, depth);
    QueuedExpand(nodes, w, tail, cur.children);
    assert q'[..|tail|] == tail;
  }

  /** Builds the tree of all reduced words up to `depth` symbols.
      `rejected` counts the insertions the duplicate guard refused: none. */
  method BuildReducedWordTree(depth: int) returns (nodes: map<string, Node>, ghost rejected: int)
    ensures "" in nodes && nodes[""].depth == 0 && nodes[""].orderIndex == 0
    ensures forall w :: w in nodes <==> InTree(w, depth)
    ensures nodes.Keys == TreeWords(depth) && |nodes| == TreeSize(depth)
    ensures forall w :: w in nodes ==> Labelled(nodes[w], w)
    ensures forall w :: w in nodes ==> WordsOf(nodes[w].children) == ExpectedChildren(w, depth)
    ensures forall w, i :: w in nodes && 0 <= i < |nodes[w].children| ==>
              nodes[w].children[i].word in nodes && nodes[nodes[w].children[i].word] == nodes[w].children[i]
    ensures rejected == 0
  {
    var root := new Node("", 0, 0);
    nodes := map[root.word := root];
    rejected := 0;
    var q := [root];
    ghost var done: set<string> := {};
    assert WordsOf(q)[0] == "";

    while |q| > 0
      invariant Building(nodes, q, done, depth)
      invariant forall i :: 0 <= i < |q| ==> fresh(q[i])
      invariant rejected == 0
      decreases TreeWords(depth) - done
    {
      ghost var refused, q0 := 0, q;
      nodes, q, done, refused := ExpandHead(nodes, q, done, depth);
      rejected := rejected + refused;
      forall i | 0 <= i < |q| ensures fresh(q[i]) {
        if i < |q0| - 1 {
          assert q[i] == q[..|q0| - 1][i] == q0[i + 1];
        }
      }
    }
    BuiltTree(nodes, done, depth);
  }
}
