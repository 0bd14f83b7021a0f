/** The colour category of a node in each of the five scenes of the
    animation, with the colours themselves left out: only which group a word
    is drawn as belonging to is modelled. */
module Scenes {
  import opened FreeGroup

  /** Neutral is the default node fill; Dimmed is the light grey fill that
      scenes 2 to 4 give to non-members. */
  datatype Category = Neutral | Dimmed | PartA | PartB | CosetaA | CosetbB | Both

  /** The category the scene switch selects for the word `w` in scene `scene`
      (scene numbers count from 0, as the counter does). */
  function Classify(w: string, scene: int): (c: Category)
    ensures c == PartA <==> scene == 1 && InA(w)
    ensures c == PartB <==> scene == 1 && InB(w)
    ensures c == Both <==> scene == 4 && InaA(w) && InbB(w)
    ensures c == CosetaA ==> InaA(w) && (scene == 2 || scene == 4)
    ensures c == CosetbB ==> InbB(w) && (scene == 3 || scene == 4)
    ensures c == Dimmed <==>
      (scene == 2 && !InaA(w)) || (scene == 3 && !InbB(w)) || (scene == 4 && !InaA(w) && !InbB(w))
    ensures c == Neutral <==> !(1 <= scene <= 4) || (scene == 1 && !InA(w) && !InB(w))
  {
    if scene == 1 then
      if InA(w) then PartA else if InB(w) then PartB else Neutral
    else if scene == 2 then
      if InaA(w) then CosetaA else Dimmed
    else if scene == 3 then
      if InbB(w) then CosetbB else Dimmed
    else if scene == 4 then
      if InaA(w) && InbB(w) then Both
      else if InaA(w) then CosetaA
      else if InbB(w) then CosetbB
      else Dimmed
    else
      Neutral
  }

  /** In scene 1 every alphabet word is coloured by exactly one part of the
      partition F2 = A + B, and the empty word goes to A. */
  lemma SceneOnePartition(w: string)
    requires IsWord(w)
    ensures Classify(w, 1) == PartA || Classify(w, 1) == PartB
    ensures Classify(w, 1) == PartA <==> w == [] || w[0] == 'a' || w[0] == 'A'
    ensures Classify([], 1) == PartA
  {
    if w != [] {
      assert IsSymbol(w[0]);
    }
  }

  /** Scene 4 never dims a reduced word: the cosets aA and bB cover the tree. */
  lemma SceneFourCovers(w: string)
    requires IsReduced(w)
    ensures Classify(w, 4) in {Both, CosetaA, CosetbB}
  {
    CosetsCover(w);
  }

  /** The reduced words scene 4 shows in both cosets: the empty word, words
      starting with A or B, a alone or followed by a, and b followed by b. */
  lemma SceneFourBoth(w: string)
    requires IsWord(w) && IsReduced(w)
    ensures Classify(w, 4) == Both <==>
      w == [] || w[0] == 'A' || w[0] == 'B' ||
      (w[0] == 'a' && (|w| == 1 || w[1] == 'a')) ||
      (w[0] == 'b' && |w| >= 2 && w[1] == 'b')
  {
    if |w| >= 2 && (w[0] == 'a' || w[0] == 'b') {
      assert !IsInversePair(w[0], w[1]);
    }
    if w != [] {
      assert IsSymbol(w[0]);
    }
  }

  /** Worked case: "ab" is in bB only, so scene 4 shows it as bB, scene 2
      dims it and scene 3 colours it bB. */
  lemma SceneExamplesAb()
    ensures Classify("ab", 4) == CosetbB
    ensures Classify("ab", 2) == Dimmed
    ensures Classify("ab", 3) == CosetbB
  {
    CosetExamples();
  }

  /** Worked cases: "", "a" and "A" are in both cosets, and "bA" is in aA only. */
  lemma SceneExamplesBoth()
    ensures Classify("", 4) == Both && Classify("a", 4) == Both && Classify("A", 4) == Both
    ensures Classify("bA", 4) == CosetaA
  {
    assert IsReduced("") && IsReduced("a") && IsReduced("A");
    assert IsReduced("bA") by {
      assert !IsInversePair('b', 'A');
    }
  }
}
