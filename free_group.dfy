/** Free-group word algebra over the alphabet {a, A, b, B}, where A and B are
    the inverses of a and b: the inverse-pair test, free reduction by a single
    left-to-right stack pass, and the membership predicates of the paradoxical
    decomposition (A, B and the translated cosets aA, bB).
    Words are C# strings, modelled as `string` (any char may occur). */
module FreeGroup {

  /** True when `next` cancels `prev` (a with A, b with B, in either order). */
  function IsInversePair(prev: char, next: char): (r: bool)
    ensures r ==> IsSymbol(prev) && IsSymbol(next) && prev != next
  {
    (prev == 'a' && next == 'A') || (prev == 'A' && next == 'a') ||
    (prev == 'b' && next == 'B') || (prev == 'B' && next == 'b')
  }

  /** Cancellation is symmetric. */
  lemma InverseSymmetric(x: char, y: char)
    ensures IsInversePair(x, y) <==> IsInversePair(y, x)
  {
  }

  /** Each symbol has exactly one inverse. */
  lemma InverseUnique(x: char, c: char, y: char)
    requires IsInversePair(x, c) && IsInversePair(c, y)
    ensures x == y
  {
  }

  predicate IsSymbol(c: char) {
    c == 'a' || c == 'A' || c == 'b' || c == 'B'
  }

  /** A word over the four-letter alphabet. */
  predicate IsWord(w: string) {
    forall i :: 0 <= i < |w| ==> IsSymbol(w[i])
  }

  /** No two adjacent symbols cancel. */
  predicate IsReduced(w: string) {
    forall i :: 0 < i < |w| ==> !IsInversePair(w[i - 1], w[i])
  }

  // ---------------------------------------------------------------------------
  // Reduction: the specification of the stack pass
  // ---------------------------------------------------------------------------

  /** One step of the pass: pop the top of `buf` when `c` cancels it, push otherwise. */
  function Step(buf: string, c: char): string {
    if |buf| > 0 && IsInversePair(buf[|buf| - 1], c) then buf[..|buf| - 1] else buf + [c]
  }

  /** The pass over `w`, started from the buffer contents `buf`. */
  function ReduceFrom(buf: string, w: string): string
    decreases |w|
  {
    if |w| == 0 then buf else Step(ReduceFrom(buf, w[..|w| - 1]), w[|w| - 1])
  }

  /** The word the pass leaves in its buffer when started empty. */
  function Reduction(w: string): string {
    ReduceFrom([], w)
  }

  /** The stack pass of the source: a buffer of |w| chars and a length that
      moves down on cancellation and up on a push. */
  method Reduce(w: string) returns (r: string)
    ensures r == Reduction(w)
  {
    var buffer := new char[|w|];
    var len := 0;
    for i := 0 to |w|
      invariant len <= i
      invariant buffer[..len] == Reduction(w[..i])
    {
      var c := w[i];
      assert w[..i + 1][..i] == w[..i];
      if len > 0 && IsInversePair(buffer[len - 1], c) {
        len := len - 1;
      } else {
        buffer[len] := c;
        len := len + 1;
      }
    }
    assert w[..|w|] == w;
    r := buffer[..len];
  }

  // ---------------------------------------------------------------------------
  // Properties of Reduction
  // ---------------------------------------------------------------------------

  lemma StepKeepsReduced(buf: string, c: char)
    requires IsReduced(buf)
    ensures IsReduced(Step(buf, c))
  {
  }

  lemma {:induction false} ReduceFromKeepsReduced(buf: string, w: string)
    requires IsReduced(buf)
    ensures IsReduced(ReduceFrom(buf, w))
    decreases |w|
  {
    if |w| > 0 {
      ReduceFromKeepsReduced(buf, w[..|w| - 1]);
      StepKeepsReduced(ReduceFrom(buf, w[..|w| - 1]), w[|w| - 1]);
    }
  }

  /** The output never holds two adjacent symbols that cancel. */
  lemma ReductionIsReduced(w: string)
    ensures IsReduced(Reduction(w))
  {
    ReduceFromKeepsReduced([], w);
  }

  lemma {:induction false} ReduceFromLength(buf: string, w: string)
    ensures |ReduceFrom(buf, w)| <= |buf| + |w|
    decreases |w|
  {
    if |w| > 0 {
      ReduceFromLength(buf, w[..|w| - 1]);
    }
  }

  /** Reduction never makes a word longer. */
  lemma ReductionLength(w: string)
    ensures |Reduction(w)| <= |w|
  {
    ReduceFromLength([], w);
  }

  lemma {:induction false} ReduceFromKeepsWords(buf: string, w: string)
    requires IsWord(buf) && IsWord(w)
    ensures IsWord(ReduceFrom(buf, w))
    decreases |w|
  {
    if |w| > 0 {
      ReduceFromKeepsWords(buf, w[..|w| - 1]);
    }
  }

  /** Reduction only removes symbols: an alphabet word stays one. */
  lemma ReductionKeepsWords(w: string)
    requires IsWord(w)
    ensures IsWord(Reduction(w))
  {
    ReduceFromKeepsWords([], w);
  }

  /** A reduced word comes back unchanged. */
  lemma {:induction false} ReductionOfReduced(w: string)
    requires IsReduced(w)
    ensures Reduction(w) == w
    decreases |w|
  {
    if |w| > 0 {
      var init := w[..|w| - 1];
      assert IsReduced(init) by {
        forall i | 0 < i < |init| ensures !IsInversePair(init[i - 1], init[i]) {
          assert init[i - 1] == w[i - 1] && init[i] == w[i];
        }
      }
      ReductionOfReduced(init);
      assert init + [w[|w| - 1]] == w;
    }
  }

  /** Reduction is idempotent. */
  lemma ReductionIdempotent(w: string)
    ensures Reduction(Reduction(w)) == Reduction(w)
  {
    ReductionIsReduced(w);
    ReductionOfReduced(Reduction(w));
  }

  /** Running the pass over u + v is running it over u, then over v. */
  lemma {:induction false} ReduceFromAppend(buf: string, u: string, v: string)
    ensures ReduceFrom(buf, u + v) == ReduceFrom(ReduceFrom(buf, u), v)
    decreases |v|
  {
    if |v| == 0 {
      assert u + v == u;
    } else {
      var v' := v[..|v| - 1];
      assert (u + v)[..|u + v| - 1] == u + v';
      assert (u + v)[|u + v| - 1] == v[|v| - 1];
      ReduceFromAppend(buf, u, v');
    }
  }

  /** Pushing a symbol and then its inverse onto a reduced buffer leaves the buffer as it was. */
  lemma StepThenInverse(s: string, c: char, c': char)
    requires IsReduced(s) && IsInversePair(c, c')
    ensures Step(Step(s, c), c') == s
  {
    if |s| > 0 && IsInversePair(s[|s| - 1], c) {
      var t := s[..|s| - 1];
      InverseUnique(s[|s| - 1], c, c');
      if |t| > 0 {
        assert !IsInversePair(s[|s| - 2], s[|s| - 1]);
      }
      assert t + [c'] == s;
    } else {
      assert (s + [c])[..|s|] == s;
    }
  }

  /** Reduction computes the free-group normal form: cancelling one adjacent
      inverse pair anywhere in the input does not change the result. */
  lemma ReductionCancels(u: string, c: char, c': char, v: string)
    requires IsInversePair(c, c')
    ensures Reduction(u + [c, c'] + v) == Reduction(u + v)
  {
    var uc := u + [c, c'];
    assert uc[..|uc| - 1] == u + [c];
    assert (u + [c])[..|u|] == u;
    assert ReduceFrom([], uc) == Step(Step(Reduction(u), c), c');
    ReductionIsReduced(u);
    StepThenInverse(Reduction(u), c, c');
    ReduceFromAppend([], uc, v);
    ReduceFromAppend([], u, v);
  }

  /** Prepending one symbol to a reduced word either cancels its first symbol or stays reduced. */
  lemma PrependToReduced(c: char, x: string)
    requires IsReduced(x)
    ensures Reduction([c] + x) ==
            if |x| > 0 && IsInversePair(c, x[0]) then x[1..] else [c] + x
  {
    if |x| > 0 && IsInversePair(c, x[0]) {
      assert [c] + x == [] + [c, x[0]] + x[1..];
      ReductionCancels([], c, x[0], x[1..]);
      assert [] + x[1..] == x[1..];
      ReductionOfReduced(x[1..]);
    } else {
      var y := [c] + x;
      assert IsReduced(y) by {
        forall i | 0 < i < |y| ensures !IsInversePair(y[i - 1], y[i]) {
          if i > 1 { assert y[i - 1] == x[i - 2] && y[i] == x[i - 1]; }
        }
      }
      ReductionOfReduced(y);
    }
  }

  /** Translating a reduced word by a symbol and then by its inverse gives the word back. */
  lemma TranslateThenInverse(g: char, g': char, x: string)
    requires IsInversePair(g, g') && IsReduced(x)
    ensures Reduction([g'] + Reduction([g] + x)) == x
  {
    PrependToReduced(g, x);
    if |x| > 0 && IsInversePair(g, x[0]) {
      InverseUnique(g', g, x[0]);
      var t := x[1..];
      assert IsReduced(t);
      if |t| > 0 {
        assert !IsInversePair(x[0], x[1]);
      }
      PrependToReduced(g', t);
      assert [g'] + t == x;
    } else {
      assert [g'] + ([g] + x) == [] + [g', g] + x;
      ReductionCancels([], g', g, x);
      assert [] + x == x;
      ReductionOfReduced(x);
    }
  }

  // ---------------------------------------------------------------------------
  // Membership predicates
  // ---------------------------------------------------------------------------

  /** Part A of the partition: the empty word (identity) and words starting
      with the generator a or with its inverse. */
  function InA(w: string): (r: bool)
    ensures w == [] ==> r
    ensures w != [] ==> (r <==> w[0] == 'a' || IsInversePair('a', w[0]))
  {
    if |w| == 0 then true else
    var c := w[0];
    c == 'a' || c == 'A'
  }

  /** Part B of the partition: words starting with b or B. */
  function InB(w: string): (r: bool)
    ensures r ==> !InA(w)
    ensures w == [] || IsSymbol(w[0]) ==> (r <==> !InA(w))
  {
    if |w| == 0 then false else
    var c := w[0];
    c == 'b' || c == 'B'
  }

  /** A and B never overlap, and together they hold every word that is empty
      or starts with an alphabet symbol (so every alphabet word). */
  lemma Partition(w: string)
    ensures !(InA(w) && InB(w))
    ensures InA(w) || InB(w) <==> w == [] || IsSymbol(w[0])
  {
  }

  /** Membership in the translated coset aA: remove a leading a by prepending
      its inverse A. On a reduced word, aA misses exactly the words that start
      with a followed by a symbol other than a. */
  function InaA(w: string): (r: bool)
    ensures IsReduced(w) ==> (r <==> !(|w| >= 2 && w[0] == 'a' && w[1] != 'a'))
  {
    if IsReduced(w) then
      PrependToReduced('A', w);
      assert |w| >= 2 && w[0] == 'a' ==> w[1..][0] == w[1] && !IsInversePair(w[0], w[1]);
      InA(Reduction("A" + w))
    else
      InA(Reduction("A" + w))
  }

  /** Membership in the translated coset bB: remove a leading b by prepending
      its inverse B. On a reduced word, bB misses exactly "b" and the words
      that start with b followed by a symbol other than b. */
  function InbB(w: string): (r: bool)
    ensures IsReduced(w) ==> (r <==> !(|w| >= 1 && w[0] == 'b' && (|w| == 1 || w[1] != 'b')))
  {
    if IsReduced(w) then
      PrependToReduced('B', w);
      assert |w| >= 2 && w[0] == 'b' ==> w[1..][0] == w[1] && !IsInversePair(w[0], w[1]);
      InB(Reduction("B" + w))
    else
      InB(Reduction("B" + w))
  }

  /** The crux of the paradox: the two translated cosets together cover every reduced word. */
  lemma CosetsCover(w: string)
    requires IsReduced(w)
    ensures InaA(w) || InbB(w)
  {
  }

  /** aA is the translate a·A: for a reduced x, a·x is in aA exactly when x is in A,
      and every reduced y is a·(A·y). */
  lemma CosetaAIsTranslate(x: string)
    requires IsReduced(x)
    ensures InaA(Reduction("a" + x)) == InA(x)
    ensures Reduction("a" + Reduction("A" + x)) == x
  {
    TranslateThenInverse('a', 'A', x);
    TranslateThenInverse('A', 'a', x);
  }

  /** bB is the translate b·B, in the same sense. */
  lemma CosetbBIsTranslate(x: string)
    requires IsReduced(x)
    ensures InbB(Reduction("b" + x)) == InB(x)
    ensures Reduction("b" + Reduction("B" + x)) == x
  {
    TranslateThenInverse('b', 'B', x);
    TranslateThenInverse('B', 'b', x);
  }

  /** Worked cases: A·a cancels, so "a" is in aA; A·ab reduces to "b", so "ab" is in bB only. */
  lemma CosetExamples()
    ensures Reduction("Aa") == "" && InaA("a")
    ensures Reduction("Aab") == "b" && !InaA("ab")
    ensures InbB("ab")
  {
    assert "A" + "a" == ['A'] + "a" == "Aa";
    assert "A" + "ab" == ['A'] + "ab" == "Aab";
    PrependToReduced('A', "a");
    PrependToReduced('A', "ab");
    assert "a"[1..] == "";
    assert "ab"[1..] == "b";
    assert IsReduced("ab") by {
      assert !IsInversePair('a', 'b');
    }
  }
}
