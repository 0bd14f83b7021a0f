# Banach–Tarski word tree, modelled in Dafny

The animation draws the Cayley tree of the free group F2 on the generators a
and b. A and B stand for their inverses. Five scenes colour the nodes: first
by the partition F2 = A ∪ B (words by their first letter), then by the two
translated cosets aA and bB, which together cover the tree again. This
project models the word logic behind that view:

- the cancellation test and the one-pass stack reduction of words;
- the membership tests for A, B, aA and bB;
- the breadth-first builder that creates the tree of reduced words up to a
  depth bound, with its sibling-order index;
- the scene and depth counters of the view;
- the choice of colour category per scene.

Modules, one per file:

- `FreeGroup` (`free_group.dfy`): `IsInversePair`, the reduction pass
  `Reduce`, and `InA`, `InB`, `InaA`, `InbB`.
  - `Reduce` is an imperative method over a character buffer. It is proved
    equal to `Reduction`, a left fold of one push-or-pop step.
  - Everything else about reduction is proved about `Reduction`: it is
    reduced, no longer than its input, idempotent, and cancels inverse pairs
    anywhere.
- `Nodes` (`node.dfy`): the tree node class.
  - `word`, `depth` and `orderIndex` are immutable.
  - `children` is the one mutable field.
- `WordTree` (`word_tree.dfy`): the specification of the tree.
  - The children of a word, the sibling-order index, and the levels of the
    tree in breadth-first order.
  - The node count `TreeSize(d) = 1 + Σ 4·3^(k-1) = 2·3^d − 1`.
  - `TreeWords`, the set of reduced words of length at most the bound.
- `TreeBuilder` (`builder.dfy`): the builder as an imperative method.
  - It keeps a queue (`seq<Node>`) and a dictionary (`map<string, Node>`),
    and appends children to the nodes it dequeues.
  - Loop invariants relate the state to the specification. Its
    postcondition is that the dictionary is exactly the tree, with the
    right labels and child links, and that the duplicate guard never fires.
- `Scenes` (`scenes.dfy`): the scene switch of the colour choice, as a map
  from (word, scene) to a category. RGB values are dropped.
- `View` (`view.dfy`): the view's state as a class with the fields `depth`,
  `scene` and `nodes`, with `NextScene`, `PrevScene` and `ChangeDepth`.

The word "ab" lies in only one of the two cosets:
- `In_aA("ab")` reduces "Aab" to "b", which is not in A.
- So "ab" lies only in bB, and scene 5 colours it as bB (`Scenes.SceneExamplesAb`).
- The words scene 5 shows as both, on reduced words, are exactly those
  characterised by `Scenes.SceneFourBoth`: "", "a", "A", any word starting
  with A or B, and others.

Scene numbers in the model count from 0, as the counter `_scene` does. The
status line shows them as 1 to 5.

## Model

| member | source | states |
|---|---|---|
| FreeGroup.IsInversePair | WordTreeView.cs:244-248 | two chars cancel only when both are alphabet symbols and they differ |
| FreeGroup.InverseSymmetric | WordTreeView.cs:244-248 | x cancels y exactly when y cancels x |
| FreeGroup.InverseUnique | WordTreeView.cs:244-248 | a symbol has one inverse: two chars that both cancel c are equal |
| FreeGroup.Reduce | WordTreeView.cs:283-295 | the buffer pass (pop on cancellation, push otherwise) returns the same word as the left fold `Reduction` |
| FreeGroup.StepKeepsReduced | WordTreeView.cs:289-292 | one push-or-pop step keeps a reduced buffer reduced |
| FreeGroup.ReduceFromKeepsReduced | WordTreeView.cs:288-292 | the pass started from a reduced buffer leaves a reduced buffer |
| FreeGroup.ReductionIsReduced | WordTreeView.cs:283-295 | the result of the reduction has no two adjacent symbols that cancel |
| FreeGroup.ReduceFromLength | WordTreeView.cs:288-292 | the buffer never grows by more than the chars read |
| FreeGroup.ReductionLength | WordTreeView.cs:283-295 | the reduced word is no longer than the input |
| FreeGroup.ReduceFromKeepsWords | WordTreeView.cs:288-292 | the pass over alphabet words keeps only alphabet symbols in the buffer |
| FreeGroup.ReductionKeepsWords | WordTreeView.cs:283-295 | reducing an alphabet word gives an alphabet word |
| FreeGroup.ReductionOfReduced | WordTreeView.cs:283-295 | a word that is already reduced comes back unchanged |
| FreeGroup.ReductionIdempotent | WordTreeView.cs:283-295 | reducing twice is reducing once |
| FreeGroup.ReduceFromAppend | WordTreeView.cs:288-292 | the pass over u + v is the pass over v continued from the buffer left by u |
| FreeGroup.StepThenInverse | WordTreeView.cs:289-292 | on a reduced buffer, pushing c and then reading its inverse restores the buffer |
| FreeGroup.ReductionCancels | WordTreeView.cs:283-295 | an adjacent inverse pair anywhere in the input does not change the result |
| FreeGroup.PrependToReduced | WordTreeView.cs:273-274 | reducing one symbol followed by a reduced word cancels the word's first symbol if it is the inverse, and otherwise keeps both |
| FreeGroup.TranslateThenInverse | WordTreeView.cs:271-281 | multiplying a reduced word by a generator and then by its inverse gives the word back |
| FreeGroup.InA | WordTreeView.cs:256-261 | A holds the identity (the empty word), and a non-empty word is in A exactly when it starts with the generator a or with the symbol that cancels a |
| FreeGroup.InB | WordTreeView.cs:263-269 | B never meets A, and every word that is empty or starts with an alphabet symbol is in exactly one of A and B |
| FreeGroup.Partition | WordTreeView.cs:256-269 | A and B never overlap; between them they hold every word that is empty or starts with an alphabet symbol |
| FreeGroup.InaA | WordTreeView.cs:271-275 | on reduced words, aA misses exactly the words a·x with x non-empty and not starting with a |
| FreeGroup.InbB | WordTreeView.cs:277-281 | on reduced words, bB misses exactly "b" and the words b·x with x not starting with b |
| FreeGroup.CosetsCover | WordTreeView.cs:271-281 | every reduced word lies in aA or in bB |
| FreeGroup.CosetaAIsTranslate | WordTreeView.cs:271-275 | aA is the translate a·A: a·x is in aA exactly when x is in A, and a·(A·y) = y |
| FreeGroup.CosetbBIsTranslate | WordTreeView.cs:277-281 | bB is the translate b·B in the same sense |
| FreeGroup.CosetExamples | WordTreeView.cs:271-281 | A·a reduces to "", so "a" is in aA; A·ab reduces to "b", so "ab" is not in aA; "ab" is in bB |
| Nodes.Node.constructor | Node.cs:5-15 | word, depth and order index are the given values, and the children list starts empty |
| Nodes.Node.LastChar | Node.cs:13 | the NUL char for the empty word and the final symbol otherwise; on alphabet words NUL only for the root, which then cancels nothing |
| WordTree.ExtendBySnoc | WordTreeView.cs:228-232 | trying one more edge symbol adds exactly the child for that symbol, if it does not cancel |
| WordTree.ExtendByMembers | WordTreeView.cs:228-232 | a child made from a list of edge symbols is the word plus one symbol of the list that does not cancel the last one |
| WordTree.ExtensionsMembers | WordTreeView.cs:228-232 | the children of w are exactly w plus a symbol that does not cancel w's last symbol |
| WordTree.ExtendByDistinct | WordTreeView.cs:228-232 | distinct edge symbols give distinct children |
| WordTree.ExtensionsDistinct | WordTreeView.cs:228-232 | no child word is made twice |
| WordTree.ExtensionsUnfold | WordTreeView.cs:228 | the symbols are tried in the order a, A, b, B |
| WordTree.ExtensionsCount | WordTreeView.cs:228-232 | the root gets 4 children and every other alphabet word 3 |
| WordTree.WordSnoc | WordTreeView.cs:232 | a word plus a symbol is an alphabet word exactly when the word is one and the symbol is a generator |
| WordTree.ReducedSnoc | WordTreeView.cs:230-232 | appending a symbol keeps a word reduced exactly when the symbol does not cancel its last one |
| WordTree.ExtensionsAreTreeWords | WordTreeView.cs:230-233 | a child of a reduced alphabet word is a reduced alphabet word, one symbol longer, with the parent as prefix |
| WordTree.Rank | WordTreeView.cs:252 | the edge rank is in 0..3 and names the symbol's place in a, A, b, B |
| WordTree.NextOrderIndex | WordTreeView.cs:250-254 | the child index lies strictly above 4·parent and at most 4·parent + 4 |
| WordTree.NextOrderIndexDecodes | WordTreeView.cs:250-254 | the parent index and the edge rank can be read back from the child index |
| WordTree.SiblingOrder | WordTreeView.cs:250-254 | siblings get strictly increasing indices in the order a, A, b, B |
| WordTree.OrderIndexOf | WordTreeView.cs:218-233 | the index the builder gives a word: 0 for the root, positive for every other word |
| WordTree.OrderIndexInjective | WordTreeView.cs:250-254 | distinct alphabet words get distinct order indices |
| WordTree.ExtendByRanked | WordTreeView.cs:228-232 | children made from edge symbols of increasing rank end in symbols of increasing rank |
| WordTree.ExtensionsOrdered | WordTreeView.cs:228-233 | the children list of a word is sorted by order index |
| WordTree.TreeSizeClosedForm | WordTreeView.cs:215-242 | the node count 1 + Σ 4·3^(k-1) equals 2·3^d − 1 |
| WordTree.TreeSizeExamples | WordTreeView.cs:215-242 | 5 nodes at depth 1, 17 at depth 2, 4373 at depth 7 |
| WordTree.ExpandMembers | WordTreeView.cs:224-238 | expanding a level holds exactly the children of its words |
| WordTree.ReducedWordSnoc | WordTreeView.cs:230-232 | a non-empty word is a reduced alphabet word exactly when its parent is one and it is a child of the parent |
| WordTree.LevelMembers | WordTreeView.cs:224-239 | breadth-first level n holds exactly the reduced alphabet words of length n |
| WordTree.LevelSound | WordTreeView.cs:224-239 | every word of level n is a reduced alphabet word of length n |
| WordTree.LevelComplete | WordTreeView.cs:224-239 | every reduced alphabet word of length n is in level n |
| WordTree.ExpandDistinct | WordTreeView.cs:224-238 | expanding a level of distinct words makes no word twice |
| WordTree.LevelDistinct | WordTreeView.cs:224-239 | no level holds a word twice |
| WordTree.ExpandLength | WordTreeView.cs:228-238 | a level of non-root alphabet words has three times as many children |
| WordTree.LevelLength | WordTreeView.cs:224-239 | level 0 has one word and level n has 4·3^(n-1) |
| WordTree.DistinctCard | WordTreeView.cs:217 | a list without repeats has as many elements as its set |
| WordTree.LevelsMembers | WordTreeView.cs:224-239 | levels 0..d together hold exactly the reduced alphabet words of length at most d |
| WordTree.LevelsLength | WordTreeView.cs:224-239 | levels 0..d together have TreeSize(d) words |
| WordTree.LevelExact | WordTreeView.cs:224-239 | every word of level d has length d |
| WordTree.LevelsShorter | WordTreeView.cs:224-239 | every word of levels 0..d has length at most d |
| WordTree.LevelsDistinct | WordTreeView.cs:224-239 | no word appears twice in levels 0..d |
| WordTree.TreeWords | WordTreeView.cs:215-242 | the tree's word set is the reduced alphabet words of length at most the bound, and it has TreeSize(depth) elements |
| WordTree.ClosedSetHoldsTree | WordTreeView.cs:224-239 | a set that holds the root and every child of its words below the bound holds every tree word |
| TreeBuilder.WordsOfConcat | WordTreeView.cs:236-237 | the words of two joined lists are the two word lists joined |
| TreeBuilder.Insert | WordTreeView.cs:234 | inserting nodes one by one never removes a key |
| TreeBuilder.InsertSnoc | WordTreeView.cs:234 | inserting one more node sets its word to that node |
| TreeBuilder.InsertKeys | WordTreeView.cs:234 | the keys after the insertions are the old keys and the inserted words |
| TreeBuilder.InsertKeeps | WordTreeView.cs:234 | an old key not inserted again keeps its node |
| TreeBuilder.InsertFinds | WordTreeView.cs:234 | with distinct words, each inserted node is found under its own word |
| TreeBuilder.InsertChildren | WordTreeView.cs:234-236 | inserting the children of w adds exactly w's extensions, keeps every other entry, and finds each child under its word |
| TreeBuilder.QueuedTail | WordTreeView.cs:226 | the dequeued node is the dictionary's node for its word, and so is every node left in the queue |
| TreeBuilder.QueuedExpand | WordTreeView.cs:234-237 | after inserting and enqueuing the children, every queued node is still the dictionary's node for its word |
| TreeBuilder.ChildrenAbsent | WordTreeView.cs:226-234 | when a node is dequeued, none of its extensions is in the dictionary yet, so TryAdd will not refuse one |
| TreeBuilder.FrontierSkip | WordTreeView.cs:227 | dequeuing a node at the depth bound keeps the frontier invariant, with the node counted as expanded |
| TreeBuilder.PendingSkip | WordTreeView.cs:226-227 | the dequeued word is an unexpanded entry that does not occur again in the queue |
| TreeBuilder.EntriesExpand | WordTreeView.cs:228-238 | after the children are inserted, every entry is labelled and a tree word, and every entry's parent is expanded |
| TreeBuilder.EntriesLabelled | WordTreeView.cs:233-234 | the inserted children are labelled tree words |
| TreeBuilder.EntriesParents | WordTreeView.cs:232-234 | every inserted child's parent is the node just expanded |
| TreeBuilder.PendingExpand | WordTreeView.cs:234-237 | after the children are enqueued, the queue holds distinct unexpanded entries and every entry is expanded or queued |
| TreeBuilder.FrontierExpand | WordTreeView.cs:228-238 | expanding the dequeued node keeps the frontier invariant |
| TreeBuilder.LinksSkip | WordTreeView.cs:227 | a node at the depth bound is expanded with no children, keeping the link invariant |
| TreeBuilder.ChildIndex | WordTreeView.cs:233 | the index the builder gives a child is NextOrderIndex of its parent's index and the edge |
| TreeBuilder.ChildWordAbsent | WordTreeView.cs:232-234 | the child word being tried is not in the dictionary yet |
| TreeBuilder.TriedAll | WordTreeView.cs:228-238 | after all four symbols the children made are exactly the word's extensions, inserted and enqueued |
| TreeBuilder.TriedSkip | WordTreeView.cs:230 | a cancelling symbol is skipped and changes nothing |
| TreeBuilder.TriedAppend | WordTreeView.cs:232-237 | any other symbol adds its child to the dictionary, the children and the queue |
| TreeBuilder.TryEdge | WordTreeView.cs:230-237 | one round of the inner loop: skip a cancelling symbol; otherwise make the labelled child, leave everything unchanged if TryAdd refuses, and otherwise insert, append and enqueue it |
| TreeBuilder.TrySymbol | WordTreeView.cs:228-238 | the round for the i-th symbol extends the children by that symbol's child, if any, and TryAdd refuses nothing |
| TreeBuilder.AddChildren | WordTreeView.cs:228-238 | the inner loop gives the node exactly its extensions as new, labelled, childless children, in a, A, b, B order, inserts and enqueues them, and never has TryAdd refuse |
| TreeBuilder.BuiltTree | WordTreeView.cs:224-241 | when the queue is empty, the dictionary is exactly the tree, with labelled entries, the expected children and child links into the dictionary |
| TreeBuilder.BuiltKeys | WordTreeView.cs:224-241 | a dictionary that holds the root, only tree words, and all children below the bound has exactly the tree's words as keys |
| TreeBuilder.ExpandNode | WordTreeView.cs:228-238 | expanding a dequeued node below the bound gives it its children and keeps every expanded node linked to its children in the dictionary |
| TreeBuilder.HeadOfQueue | WordTreeView.cs:226 | the head of the queue is an unexpanded entry whose extensions are not entries yet |
| TreeBuilder.SkipHead | WordTreeView.cs:227 | dequeuing a node at the depth bound keeps the builder's invariant |
| TreeBuilder.ExpandHead | WordTreeView.cs:224-239 | one round of the outer loop keeps the builder's invariant, marks the dequeued tree word as expanded, and only appends new nodes behind the rest of the queue |
| TreeBuilder.BuildReducedWordTree | WordTreeView.cs:215-242 | the root "" has depth 0 and index 0; the keys are exactly the reduced alphabet words of length at most depth; there are 2·3^depth − 1 of them; each node carries its key, its length as depth and its order index; children are exactly the extensions below the bound and are the dictionary's nodes; TryAdd never refuses |
| Scenes.Classify | WordTreeView.cs:119-191 | scene 1 colours A and B; scenes 2 and 3 colour aA and bB and dim the rest; scene 4 shows Both exactly for aA ∩ bB, and otherwise aA, bB or dimmed; scene 0 and unknown scenes stay neutral |
| Scenes.SceneOnePartition | WordTreeView.cs:133-144 | in scene 1 every alphabet word is coloured A or B, as A exactly when it is empty or starts with a or A |
| Scenes.SceneFourCovers | WordTreeView.cs:167-187 | scene 4 never dims a reduced word |
| Scenes.SceneFourBoth | WordTreeView.cs:167-172 | the reduced words scene 4 shows in both cosets: "", words starting with A or B, "a" and a·a…, and b·b… |
| Scenes.SceneExamplesAb | WordTreeView.cs:119-191 | "ab" is bB in scene 4, dimmed in scene 2 and bB in scene 3 |
| Scenes.SceneExamplesBoth | WordTreeView.cs:167-187 | "", "a" and "A" are Both in scene 4; "bA" is aA only |
| View.NextSceneOf | WordTreeView.cs:44-48 | the next scene stays in 0..4, is one up, and wraps 4 to 0 |
| View.PrevSceneOf | WordTreeView.cs:50-54 | the previous scene stays in 0..4, is one down, and wraps 0 to 4 |
| View.SceneStepsUndo | WordTreeView.cs:44-54 | next and previous scene undo each other |
| View.SceneCycle | WordTreeView.cs:44-48 | five steps forward come back to the same scene, and one step never does |
| View.ClampDepth | WordTreeView.cs:64 | the new depth is the sum clamped to 1..7 |
| View.ClampDepthUndo | WordTreeView.cs:62-67 | a change of 0 keeps the depth, and an in-range change is undone by its opposite |
| View.TreeSizeMonotone | WordTreeView.cs:62-73 | a larger depth bound never gives fewer nodes |
| View.ViewTreeSize | WordTreeView.cs:62-73 | every depth the view allows gives a tree of 5 to 4373 nodes |
| View.Build | WordTreeView.cs:69-73 | rebuilding gives exactly the tree for the depth, with its node count and labels; each node's children carry the expected words and are the dictionary's own nodes for those words |
| View.WordTreeView.constructor | WordTreeView.cs:19-34 | the view starts in scene 0 with the tree of depth 4, which has TreeSize(4) nodes (161), labelled, with each child the dictionary's own node for its word |
| View.WordTreeView.NextScene | WordTreeView.cs:44-48 | advances the scene as NextSceneOf and keeps the depth, the tree and the view's invariant |
| View.WordTreeView.PrevScene | WordTreeView.cs:50-54 | moves the scene back as PrevSceneOf and keeps the depth, the tree and the view's invariant |
| View.WordTreeView.ChangeDepth | WordTreeView.cs:62-67 | clamps the new depth to 1..7, keeps the scene, and replaces the tree with the tree for the new depth: its node count and labels, and children that carry the expected words and are the dictionary's own nodes |

## Left out

- Layout and drawing are not modelled, because they are floating-point geometry and WPF rendering: `LayoutNodes`, `OnRender`, `DrawNode`, `DrawBottomRight`, `Darken`, `Mix` and the node's `Pos`. The grouping by depth and the ordering by `OrderIndex` that layout relies on appear only as the tree's labels (`depth == |word|`, `WordTree.OrderIndexInjective`, `WordTree.ExtensionsOrdered`).
- The RGB colours of `ColorsFor` are left out; only the category each scene selects is modelled. `Neutral` is the default fill and `Dimmed` is the light grey of scenes 2 to 4.
- `ToggleAutoplay`, the `AutoPlay` flag, `InvalidateVisual` calls, the static style constructor and the event hookups are UI plumbing with no word logic.
- MainWindow.xaml.cs is not part of this model. It holds the timer and the key-to-method dispatch.
- View.WordTreeView.constructor and View.WordTreeView.ChangeDepth: the `LayoutNodes` call inside `Build` is not modelled.
- View.ClampDepth: the C# sum `_depth + d` is a 32-bit addition that could overflow for |d| near 2^31. The model adds unbounded integers.
- WordTree.NextOrderIndex: computed with unbounded integers, so 32-bit wrap-around is not modelled. Within the view's depths (at most 7) every index is at most 21844, so none occurs.
- View.NextSceneOf and View.PrevSceneOf use Dafny's `%`, which is Euclidean, where C# `%` truncates toward zero. The two agree because the counter is never negative (`Valid`).
- FreeGroup.InaA and FreeGroup.InbB reduce with the function `Reduction`, since functions cannot call methods. `FreeGroup.Reduce` is proved to return the same word.
- TreeBuilder.AddChildren: the source adds each child to `cur.Children` as soon as `TryAdd` succeeds. The model collects the children in a local sequence and assigns the list once after the four symbols. Nothing reads the list in between, so the final state is the same, but the intermediate states of the list are not modelled.
- TreeBuilder.BuildReducedWordTree: the .NET `Dictionary` and `Queue` become a Dafny `map` and `seq`, so the enumeration order of `Dictionary.Values`, which only drawing uses, is not modelled. The builder's `rejected` counter is a ghost output that counts refused `TryAdd` calls.
