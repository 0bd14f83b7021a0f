/** The reduced word tree as a mathematical object: which children a node gets
    (the non-backtracking rule over the generation order a, A, b, B), the
    sibling-order index, the levels of the tree and its size. */
module WordTree {
  import opened FreeGroup
  import opened Nodes

  /** The generation order of edge symbols. */
  const Alphabet: string := "aAbB"

  // ---------------------------------------------------------------------------
  // Children of a word: the non-backtracking rule
  // ---------------------------------------------------------------------------

  /** The child along edge `c`, unless `c` would cancel the word's last symbol. */
  function Keep(w: string, c: char): seq<string> {
    if IsInversePair(LastCharOf(w), c) then [] else [w + [c]]
  }

  /** The children a node gets when the edge symbols `cs` are tried in order. */
  function ExtendBy(w: string, cs: string): seq<string>
    decreases |cs|
  {
    if |cs| == 0 then [] else ExtendBy(w, cs[..|cs| - 1]) + Keep(w, cs[|cs| - 1])
  }

  lemma ExtendBySnoc(w: string, cs: string, c: char)
    ensures ExtendBy(w, cs + [c]) == ExtendBy(w, cs) + Keep(w, c)
  {
    assert (cs + [c])[..|cs|] == cs;
  }

  /** The children of `w`, in generation order. */
  function Extensions(w: string): seq<string> {
    ExtendBy(w, Alphabet)
  }

  predicate Distinct<T(==)>(s: seq<T>) {
    forall i, j :: 0 <= i < j < |s| ==> s[i] != s[j]
  }

  /** A child is the word plus one edge symbol from `cs` that does not cancel its last symbol. */
  lemma {:induction false} ExtendByMembers(w: string, cs: string, x: string)
    ensures x in ExtendBy(w, cs) <==>
            |x| == |w| + 1 && x[..|w|] == w && x[|w|] in cs && !IsInversePair(LastCharOf(w), x[|w|])
    decreases |cs|
  {
    if |cs| > 0 {
      var init := cs[..|cs| - 1];
      ExtendByMembers(w, init, x);
      assert forall c :: c in cs <==> c in init || c == cs[|cs| - 1] by {
        assert cs == init + [cs[|cs| - 1]];
      }
      if |x| == |w| + 1 && x[..|w|] == w {
        assert x == w + [x[|w|]];
      }
    }
  }

  /** `x` is `w` followed by one symbol that does not cancel the last symbol of `w`. */
  predicate Extends(w: string, x: string) {
    |x| == |w| + 1 && x[..|w|] == w && IsSymbol(x[|w|]) && !IsInversePair(LastCharOf(w), x[|w|])
  }

  /** Membership in Extensions, in the terms of the free group. */
  lemma ExtensionsMembers(w: string, x: string)
    ensures x in Extensions(w) <==> Extends(w, x)
  {
    ExtendByMembers(w, Alphabet, x);
  }

  lemma {:induction false} ExtendByDistinct(w: string, cs: string)
    requires Distinct(cs)
    ensures Distinct(ExtendBy(w, cs))
    decreases |cs|
  {
    if |cs| > 0 {
      var init := cs[..|cs| - 1];
      ExtendByDistinct(w, init);
      var c := cs[|cs| - 1];
      ExtendByMembers(w, init, w + [c]);
      assert (w + [c])[..|w|] == w;
    }
  }

  /** Siblings carry distinct words. */
  lemma ExtensionsDistinct(w: string)
    ensures Distinct(Extensions(w))
  {
    ExtendByDistinct(w, Alphabet);
  }

  /** Extensions tries a, A, b, B in this order. */
  lemma ExtensionsUnfold(w: string)
    ensures Extensions(w) == Keep(w, 'a') + Keep(w, 'A') + Keep(w, 'b') + Keep(w, 'B')
  {
    assert Alphabet[..3] == "aAb";
    assert "aAb"[..2] == "aA";
    assert "aA"[..1] == "a";
    assert "a"[..0] == "";
  }

  /** The root has four children, every other node of an alphabet word three. */
  lemma ExtensionsCount(w: string)
    requires IsWord(w)
    ensures |Extensions(w)| == if w == [] then 4 else 3
  {
    ExtensionsUnfold(w);
  }

  /** Appending a symbol keeps a word reduced exactly when the symbol does not cancel the last one. */
  lemma WordSnoc(w: string, c: char)
    ensures IsWord(w + [c]) <==> IsWord(w) && IsSymbol(c)
  {
    var x := w + [c];
    assert x[|w|] == c;
    assert forall i :: 0 <= i < |w| ==> x[i] == w[i];
  }

  lemma ReducedSnoc(w: string, c: char)
    ensures IsReduced(w + [c]) <==> IsReduced(w) && !IsInversePair(LastCharOf(w), c)
  {
    var x := w + [c];
    if IsReduced(x) {
      forall i | 0 < i < |w| ensures !IsInversePair(w[i - 1], w[i]) {
        assert x[i - 1] == w[i - 1] && x[i] == w[i];
      }
      if |w| > 0 {
        assert x[|w| - 1] == w[|w| - 1] && x[|w|] == c;
      }
    }
  }

  /** The children of a reduced alphabet word are reduced alphabet words one symbol longer. */
  lemma ExtensionsAreTreeWords(w: string, x: string)
    requires IsWord(w) && IsReduced(w) && x in Extensions(w)
    ensures IsWord(x) && IsReduced(x) && |x| == |w| + 1 && x[..|w|] == w
  {
    ExtensionsMembers(w, x);
    assert x == w + [x[|w|]];
    ReducedSnoc(w, x[|w|]);
  }

  // ---------------------------------------------------------------------------
  // Sibling-order index
  // ---------------------------------------------------------------------------

  /** Rank of an edge symbol (a=0, A=1, b=2, B=3); any other char ranks as a. */
  function Rank(c: char): (r: int)
    ensures 0 <= r < 4
    ensures IsSymbol(c) ==> Alphabet[r] == c
  {
    match c
    case 'a' => 0
    case 'A' => 1
    case 'b' => 2
    case 'B' => 3
    case _ => 0
  }

  /** The child's index: four slots per parent, one per edge symbol. */
  function NextOrderIndex(parentOrder: int, edge: char): (r: int)
    ensures 4 * parentOrder < r <= 4 * parentOrder + 4
  {
    parentOrder * 4 + Rank(edge) + 1
  }

  /** The parent's index and the edge symbol's rank can be read back from a child's index. */
  lemma NextOrderIndexDecodes(parentOrder: int, edge: char)
    ensures (NextOrderIndex(parentOrder, edge) - 1) / 4 == parentOrder
    ensures (NextOrderIndex(parentOrder, edge) - 1) % 4 == Rank(edge)
  {
  }

  /** Siblings are numbered in generation order. */
  lemma SiblingOrder(p: int)
    ensures NextOrderIndex(p, 'a') < NextOrderIndex(p, 'A') < NextOrderIndex(p, 'b') < NextOrderIndex(p, 'B')
  {
  }

  /** The index the builder gives the node of `w`: the root has 0, a child
      gets NextOrderIndex of its parent's index and its edge symbol. */
  function OrderIndexOf(w: string): (r: int)
    ensures r >= 0
    ensures w != [] ==> r > 0
    decreases |w|
  {
    if |w| == 0 then 0 else NextOrderIndex(OrderIndexOf(w[..|w| - 1]), w[|w| - 1])
  }

  /** Distinct alphabet words get distinct indices. */
  lemma {:induction false} OrderIndexInjective(u: string, v: string)
    requires IsWord(u) && IsWord(v)
    requires OrderIndexOf(u) == OrderIndexOf(v)
    ensures u == v
    decreases |u|
  {
    if |u| > 0 && |v| > 0 {
      var u', v' := u[..|u| - 1], v[..|v| - 1];
      var cu, cv := u[|u| - 1], v[|v| - 1];
      NextOrderIndexDecodes(OrderIndexOf(u'), cu);
      NextOrderIndexDecodes(OrderIndexOf(v'), cv);
      assert OrderIndexOf(u') == (OrderIndexOf(u) - 1) / 4 == OrderIndexOf(v');
      assert Rank(cu) == (OrderIndexOf(u) - 1) % 4 == Rank(cv);
      assert cu == cv;
      OrderIndexInjective(u', v');
      assert u == u' + [cu] && v == v' + [cv];
    }
  }

  lemma {:induction false} ExtendByRanked(w: string, cs: string)
    requires forall i, j :: 0 <= i < j < |cs| ==> Rank(cs[i]) < Rank(cs[j])
    ensures forall i, j :: 0 <= i < j < |ExtendBy(w, cs)| ==>
              Rank(LastCharOf(ExtendBy(w, cs)[i])) < Rank(LastCharOf(ExtendBy(w, cs)[j]))
    decreases |cs|
  {
    if |cs| > 0 {
      var init, c := cs[..|cs| - 1], cs[|cs| - 1];
      ExtendByRanked(w, init);
      var e, e' := ExtendBy(w, cs), ExtendBy(w, init);
      forall i, j | 0 <= i < j < |e| ensures Rank(LastCharOf(e[i])) < Rank(LastCharOf(e[j])) {
        if j >= |e'| {
          assert e[j] == w + [c];
          assert e[i] == e'[i];
          ExtendByMembers(w, init, e'[i]);
          var k :| 0 <= k < |init| && init[k] == e'[i][|w|];
          assert LastCharOf(e'[i]) == init[k] && init[k] == cs[k];
        }
      }
    }
  }

  /** The children of a word, in generation order, have strictly increasing indices. */
  lemma ExtensionsOrdered(w: string)
    ensures forall i, j :: 0 <= i < j < |Extensions(w)| ==>
              OrderIndexOf(Extensions(w)[i]) < OrderIndexOf(Extensions(w)[j])
  {
    ExtendByRanked(w, Alphabet);
    var e := Extensions(w);
    forall i | 0 <= i < |e| ensures OrderIndexOf(e[i]) == 4 * OrderIndexOf(w) + Rank(LastCharOf(e[i])) + 1 {
      ExtensionsMembers(w, e[i]);
      assert e[i][..|e[i]| - 1] == w;
    }
  }

  // ---------------------------------------------------------------------------
  // Levels and size of the tree
  // ---------------------------------------------------------------------------

  /** The children of all of `ws`, parent by parent. */
  function Expand(ws: seq<string>): seq<string> {
    if |ws| == 0 then [] else Extensions(ws[0]) + Expand(ws[1..])
  }

  /** The words at distance n from the root, in breadth-first order. */
  function Level(n: nat): seq<string> {
    if n == 0 then [[]] else Expand(Level(n - 1))
  }

  function Pow3(k: nat): nat {
    if k == 0 then 1 else 3 * Pow3(k - 1)
  }

  /** 1 + sum over k = 1..d of 4 * 3^(k-1): the number of reduced words of length at most d. */
  function TreeSize(d: int): nat {
    if d <= 0 then 1 else TreeSize(d - 1) + 4 * Pow3(d - 1)
  }

  /** The sum has the closed form 2 * 3^d - 1. */
  lemma {:induction false} TreeSizeClosedForm(d: nat)
    ensures TreeSize(d) == 2 * Pow3(d) - 1
  {
    if d > 0 {
      TreeSizeClosedForm(d - 1);
    }
  }

  lemma TreeSizeExamples()
    ensures TreeSize(1) == 5 && TreeSize(2) == 17 && TreeSize(7) == 4373
  {
  }

  lemma {:induction false} ExpandMembers(ws: seq<string>, x: string)
    ensures x in Expand(ws) <==> |x| >= 1 && x[..|x| - 1] in ws && Extends(x[..|x| - 1], x)
    decreases |ws|
  {
    if |ws| > 0 {
      var head, tail := ws[0], ws[1..];
      assert Expand(ws) == Extensions(head) + Expand(tail);
      ExpandMembers(tail, x);
      ExtensionsMembers(head, x);
      if |x| >= 1 {
        var p := x[..|x| - 1];
        assert p in ws <==> p == head || p in tail by {
          assert ws == [head] + tail;
        }
      }
    }
  }

  /** A non-empty word is a reduced alphabet word exactly when its parent
      (the word without its last symbol) is one and the word extends it. */
  lemma ReducedWordSnoc(x: string)
    requires |x| >= 1
    ensures IsWord(x) && IsReduced(x) <==>
            IsWord(x[..|x| - 1]) && IsReduced(x[..|x| - 1]) && Extends(x[..|x| - 1], x)
  {
    var p, c := x[..|x| - 1], x[|x| - 1];
    assert x == p + [c];
    ReducedSnoc(p, c);
    WordSnoc(p, c);
  }

  /** Level n holds exactly the reduced alphabet words of length n. */
  lemma LevelMembers(n: nat, x: string)
    ensures x in Level(n) <==> IsWord(x) && IsReduced(x) && |x| == n
  {
    if x in Level(n) {
      LevelSound(n, x);
    }
    if IsWord(x) && IsReduced(x) && |x| == n {
      LevelComplete(n, x);
    }
  }

  /** Every word of a level is a reduced alphabet word of that length. */
  lemma {:induction false} LevelSound(n: nat, x: string)
    requires x in Level(n)
    ensures IsWord(x) && IsReduced(x) && |x| == n
  {
    if n > 0 {
      ExpandMembers(Level(n - 1), x);
      var p := x[..|x| - 1];
      LevelSound(n - 1, p);
      ReducedWordSnoc(x);
    }
  }

  /** Every reduced alphabet word of length n is in level n. */
  lemma {:induction false} LevelComplete(n: nat, x: string)
    requires IsWord(x) && IsReduced(x) && |x| == n
    ensures x in Level(n)
  {
    if n > 0 {
      var p := x[..|x| - 1];
      ReducedWordSnoc(x);
      LevelComplete(n - 1, p);
      ExpandMembers(Level(n - 1), x);
    }
  }

  lemma {:induction false} DistinctConcat<T>(a: seq<T>, b: seq<T>)
    requires Distinct(a) && Distinct(b)
    requires forall x :: x in a ==> x !in b
    ensures Distinct(a + b)
  {
    forall i, j | 0 <= i < j < |a + b| ensures (a + b)[i] != (a + b)[j] {
      if j < |a| {
      } else if i >= |a| {
        assert (a + b)[i] == b[i - |a|] && (a + b)[j] == b[j - |a|];
      } else {
        assert (a + b)[i] in a && (a + b)[j] in b;
      }
    }
  }

  lemma {:induction false} ExpandDistinct(ws: seq<string>)
    requires Distinct(ws)
    ensures Distinct(Expand(ws))
    decreases |ws|
  {
    if |ws| > 0 {
      ExpandDistinct(ws[1..]);
      ExtensionsDistinct(ws[0]);
      forall x | x in Extensions(ws[0]) ensures x !in Expand(ws[1..]) {
        ExtensionsMembers(ws[0], x);
        ExpandMembers(ws[1..], x);
        assert x[..|x| - 1] == ws[0];
      }
      DistinctConcat(Extensions(ws[0]), Expand(ws[1..]));
    }
  }

  /** No word occurs twice in a level. */
  lemma {:induction false} LevelDistinct(n: nat)
    ensures Distinct(Level(n))
  {
    if n > 0 {
      LevelDistinct(n - 1);
      ExpandDistinct(Level(n - 1));
    }
  }

  lemma {:induction false} ExpandLength(ws: seq<string>)
    requires forall i :: 0 <= i < |ws| ==> IsWord(ws[i]) && ws[i] != []
    ensures |Expand(ws)| == 3 * |ws|
    decreases |ws|
  {
    if |ws| > 0 {
      ExtensionsCount(ws[0]);
      ExpandLength(ws[1..]);
    }
  }

  /** Level 0 holds the root, level k >= 1 holds 4 * 3^(k-1) words. */
  lemma {:induction false} LevelLength(n: nat)
    ensures |Level(n)| == if n == 0 then 1 else 4 * Pow3(n - 1)
  {
    if n == 1 {
      ExtensionsCount([]);
    } else if n > 1 {
      LevelLength(n - 1);
      var prev := Level(n - 1);
      forall i | 0 <= i < |prev| ensures IsWord(prev[i]) && prev[i] != [] {
        LevelMembers(n - 1, prev[i]);
      }
      ExpandLength(Level(n - 1));
    }
  }

  function Elements(s: seq<string>): (r: set<string>)
    ensures forall x :: x in r <==> x in s
  {
    set x | x in s
  }

  lemma {:induction false} DistinctCard(s: seq<string>)
    requires Distinct(s)
    ensures |Elements(s)| == |s|
    decreases |s|
  {
    if |s| > 0 {
      DistinctCard(s[1..]);
      assert Elements(s) == {s[0]} + Elements(s[1..]);
      assert s[0] !in Elements(s[1..]);
    }
  }

  /** The words of levels 0 to d, level by level. */
  function Levels(d: nat): seq<string> {
    if d == 0 then Level(0) else Levels(d - 1) + Level(d)
  }

  lemma {:induction false} LevelsMembers(d: nat, x: string)
    ensures x in Levels(d) <==> IsWord(x) && IsReduced(x) && |x| <= d
  {
    LevelMembers(d, x);
    if d > 0 {
      LevelsMembers(d - 1, x);
    }
  }

  lemma {:induction false} LevelsLength(d: nat)
    ensures |Levels(d)| == TreeSize(d)
  {
    LevelLength(d);
    if d > 0 {
      LevelsLength(d - 1);
    }
  }

  lemma LevelExact(d: nat, x: string)
    requires x in Level(d)
    ensures |x| == d
  {
    LevelMembers(d, x);
  }

  lemma LevelsShorter(d: nat, x: string)
    requires x in Levels(d)
    ensures |x| <= d
  {
    LevelsMembers(d, x);
  }

  lemma {:induction false} LevelsDistinct(d: nat)
    ensures Distinct(Levels(d))
  {
    LevelDistinct(d);
    if d > 0 {
      LevelsDistinct(d - 1);
      var prev, here := Levels(d - 1), Level(d);
      forall x | x in prev ensures x !in here {
        LevelsShorter(d - 1, x);
        if x in here {
          LevelExact(d, x);
        }
      }
      DistinctConcat(prev, here);
    }
  }

  /** The depth bound the builder actually applies: the root is always present. */
  function Bound(depth: int): nat {
    if depth < 0 then 0 else depth
  }

  /** Words the tree built for `depth` must hold. */
  predicate InTree(w: string, depth: int) {
    IsWord(w) && IsReduced(w) && |w| <= Bound(depth)
  }

  /** The word set of the tree built for `depth`: the reduced alphabet words
      no longer than the bound, 1 + sum of 4 * 3^(k-1) of them. */
  function TreeWords(depth: int): (t: set<string>)
    ensures forall x :: x in t <==> InTree(x, depth)
    ensures |t| == TreeSize(depth)
  {
    var all := Levels(Bound(depth));
    LevelsLength(Bound(depth));
    LevelsDistinct(Bound(depth));
    DistinctCard(all);
    assert TreeSize(depth) == TreeSize(Bound(depth));
    forall x ensures x in all <==> InTree(x, depth) {
      LevelsMembers(Bound(depth), x);
    }
    Elements(all)
  }

  /** A set of words that holds the root and, for every word shorter than the
      bound, all of its children, holds every word of the tree. */
  lemma {:induction false} ClosedSetHoldsTree(keys: set<string>, depth: int, x: string)
    requires [] in keys
    requires forall w, y :: w in keys && |w| < depth && y in Extensions(w) ==> y in keys
    requires InTree(x, depth)
    ensures x in keys
    decreases |x|
  {
    if |x| > 0 {
      var p := x[..|x| - 1];
      assert IsWord(p);
      ReducedSnoc(p, x[|x| - 1]);
      assert x == p + [x[|x| - 1]];
      ClosedSetHoldsTree(keys, depth, p);
      ExtensionsMembers(p, x);
    }
  }
}
