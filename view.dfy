/** The state the word-tree view keeps between key presses: the scene
    counter, the depth bound and the tree built for that bound. Drawing,
    layout and the autoplay flag are left out. */
module View {
  import opened Nodes
  import opened WordTree
  import TreeBuilder

  /** Number of scenes; the counter runs over 0 .. SceneCount - 1. */
  const SceneCount := 5
  const MinDepth := 1
  const MaxDepth := 7
  const InitialDepth := 4

  /** The scene after `s`: the counter moves up by one and wraps from the last scene to the first. */
  function NextSceneOf(s: int): (r: int)
    requires 0 <= s < SceneCount
    ensures 0 <= r < SceneCount
    ensures s < SceneCount - 1 ==> r == s + 1
    ensures s == SceneCount - 1 ==> r == 0
  {
    (s + 1) % SceneCount
  }

  /** The scene before `s`: the counter moves down by one and wraps from the first scene to the last. */
  function PrevSceneOf(s: int): (r: int)
    requires 0 <= s < SceneCount
    ensures 0 <= r < SceneCount
    ensures s > 0 ==> r == s - 1
    ensures s == 0 ==> r == SceneCount - 1
  {
    (s + 4) % SceneCount
  }

  /** Stepping forward and stepping back undo each other. */
  lemma SceneStepsUndo(s: int)
    requires 0 <= s < SceneCount
    ensures PrevSceneOf(NextSceneOf(s)) == s
    ensures NextSceneOf(PrevSceneOf(s)) == s
  {
  }

  /** Five steps forward come back to the starting scene, and no fewer do. */
  lemma SceneCycle(s: int)
    requires 0 <= s < SceneCount
    ensures NextSceneOf(NextSceneOf(NextSceneOf(NextSceneOf(NextSceneOf(s))))) == s
    ensures NextSceneOf(s) != s
  {
  }

  /** The depth after asking for a change of `d`: the sum, clamped to MinDepth .. MaxDepth. */
  function ClampDepth(depth: int, d: int): (r: int)
    ensures MinDepth <= r <= MaxDepth
    ensures MinDepth <= depth + d <= MaxDepth ==> r == depth + d
    ensures depth + d < MinDepth ==> r == MinDepth
    ensures depth + d > MaxDepth ==> r == MaxDepth
  {
    var s := depth + d;
    if s < MinDepth then MinDepth else if s > MaxDepth then MaxDepth else s
  }

  /** A change that stays in range is undone by the opposite change, and a
      change of zero leaves an in-range depth alone. */
  lemma ClampDepthUndo(depth: int, d: int)
    requires MinDepth <= depth <= MaxDepth
    ensures ClampDepth(depth, 0) == depth
    ensures MinDepth <= depth + d <= MaxDepth ==> ClampDepth(ClampDepth(depth, d), -d) == depth
  {
  }

  /** The tree size grows with the depth bound. */
  lemma {:induction false} TreeSizeMonotone(i: int, j: int)
    requires i <= j
    ensures TreeSize(i) <= TreeSize(j)
    decreases j - i
  {
    if i < j {
      TreeSizeMonotone(i, j - 1);
    }
  }

  /** Every depth the view can hold gives a tree of 5 to 4373 nodes. */
  lemma ViewTreeSize(depth: int)
    requires MinDepth <= depth <= MaxDepth
    ensures 5 <= TreeSize(depth) <= 4373
  {
    TreeSizeMonotone(MinDepth, depth);
    TreeSizeMonotone(depth, MaxDepth);
    TreeSizeExamples();
  }

  /** `nodes` holds exactly the tree words for `depth`, as many as the
      closed form counts, each under its own word. */
  ghost predicate Labels(nodes: map<string, Node>, depth: int) {
    (forall w :: w in nodes <==> InTree(w, depth)) && |nodes| == TreeSize(depth) &&
    forall w :: w in nodes ==> TreeBuilder.Labelled(nodes[w], w)
  }

  /** Every node's children carry the words one symbol below it, and each
      child is the very node the dictionary holds for its word. */
  ghost predicate ChildrenLinked(nodes: map<string, Node>, depth: int)
    reads nodes.Values
  {
    (forall w :: w in nodes ==> TreeBuilder.WordsOf(nodes[w].children) == TreeBuilder.ExpectedChildren(w, depth)) &&
    forall w, i :: w in nodes && 0 <= i < |nodes[w].children| ==>
      nodes[w].children[i].word in nodes && nodes[nodes[w].children[i].word] == nodes[w].children[i]
  }

  /** The rebuild step of the view: the tree for `depth`, seen through the
      two predicates the view keeps. */
  method Build(depth: int) returns (nodes: map<string, Node>)
    ensures Labels(nodes, depth) && ChildrenLinked(nodes, depth)
  {
    ghost var rejected;
    nodes, rejected := TreeBuilder.BuildReducedWordTree(depth);
  }

  class WordTreeView {
    var depth: int
    var scene: int
    var nodes: map<string, Node>

    /** The counters are in range and `nodes` is the tree for the current depth. */
    ghost predicate Valid()
      reads this
    {
      0 <= scene < SceneCount && MinDepth <= depth <= MaxDepth && Labels(nodes, depth)
    }

    /** The children lists of the current tree are linked. */
    ghost predicate Linked()
      reads this, nodes.Values
    {
      ChildrenLinked(nodes, depth)
    }

    /** The view starts in the first scene with the tree of depth 4. */
    constructor ()
      ensures Valid() && Linked()
      ensures scene == 0 && depth == InitialDepth && |nodes| == TreeSize(InitialDepth)
    {
      depth, scene, nodes := InitialDepth, 0, map[];
      new;
      var built := Build(depth);
      nodes := built;
    }

    method NextScene()
      requires Valid() && Linked()
      modifies this
      ensures Valid() && Linked()
      ensures scene == NextSceneOf(old(scene))
      ensures depth == old(depth) && nodes == old(nodes)
    {
      scene := (scene + 1) % SceneCount;
    }

    method PrevScene()
      requires Valid() && Linked()
      modifies this
      ensures Valid() && Linked()
      ensures scene == PrevSceneOf(old(scene))
      ensures depth == old(depth) && nodes == old(nodes)
    {
      scene := (scene + 4) % SceneCount;
    }

    /** Moves the depth bound by `d`, clamped to 1 .. 7, and rebuilds the tree. */
    method ChangeDepth(d: int)
      requires Valid() && Linked()
      modifies this
      ensures Valid() && Linked()
      ensures depth == ClampDepth(old(depth), d) && scene == old(scene)
      ensures |nodes| == TreeSize(depth)
    {
      var d' := ClampDepth(depth, d);
      var built := Build(d');
      depth, nodes := d', built;
    }
  }
}
