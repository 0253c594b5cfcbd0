/** The replace strategy: every matched position becomes the mask rune. */
module Masking {
  import opened Vocabulary
  import opened Intervals
  import opened NaiveSearch
  import opened SearchMeaning

  /** Rewriting happens on the original when it is as long as the normalised text, else on the latter. */
  function Target(original: Runes, normalized: Runes): Runes {
    if |original| == |normalized| then original else normalized
  }

  function Masked(target: Runes, matches: seq<MatchItem>, mask: char): (out: Runes)
    ensures |out| == |target|
    ensures forall k | 0 <= k < |target| :: out[k] == if Covered(matches, k) then mask else target[k]
  {
    seq(|target|, k requires 0 <= k < |target| => if Covered(matches, k) then mask else target[k])
  }

  method ReplaceMatches(original: Runes, normalized: Runes, matches: seq<MatchItem>, mask: char)
      returns (out: Runes)
    requires forall m <- matches :: 0 <= m.position
    ensures out == if matches == [] then original else Masked(Target(original, normalized), matches, mask)
  {
    if |matches| == 0 {
      return original;
    }
    var sorted := SortByPosition(matches);
    SameMembers(matches, sorted);
    var masked := new bool[|normalized|](_ => false);
    for x := 0 to |sorted|
      invariant forall k | 0 <= k < masked.Length :: masked[k] == Covered(sorted[..x], k)
    {
      var m := sorted[x];
      var i := m.position;
      while i < m.endPos && i < masked.Length
        invariant m.position <= i
        invariant forall k | 0 <= k < masked.Length ::
          masked[k] == (Covered(sorted[..x], k) || (m.position <= k < m.endPos && k < i))
      {
        masked[i] := true;
        i := i + 1;
      }
      assert sorted[..x + 1] == sorted[..x] + [m];
      CoveredBySnoc(sorted[..x], m);
    }
    assert sorted[..|sorted|] == sorted;
    if |original| == |normalized| {
      out := Overwrite(original, masked, mask);
    } else {
      out := Overwrite(normalized, masked, mask);
    }
    assert out == Masked(Target(original, normalized), matches, mask);
  }

  lemma CoveredBySnoc(matches: seq<MatchItem>, m: MatchItem)
    ensures forall k :: Covered(matches + [m], k) <==> Covered(matches, k) || m.position <= k < m.endPos
  {
    forall k ensures Covered(matches + [m], k) <==> Covered(matches, k) || m.position <= k < m.endPos {
      CoveredSnoc(matches, m, k);
    }
  }

  /** Writes the runes one by one, the masked ones as `mask`. */
  method Overwrite(runes: Runes, masked: array<bool>, mask: char) returns (out: Runes)
    requires |runes| == masked.Length
    ensures |out| == |runes|
    ensures forall k | 0 <= k < |runes| :: out[k] == if masked[k] then mask else runes[k]
  {
    out := "";
    for i := 0 to |runes|
      invariant |out| == i
      invariant forall k | 0 <= k < i :: out[k] == if masked[k] then mask else runes[k]
    {
      if masked[i] {
        out := out + [mask];
      } else {
        out := out + [runes[i]];
      }
    }
  }

  // ---- Masking the automaton's own hits ----

  /** A masked position lies in a real occurrence, and every position of an occurrence is masked. */
  lemma MaskedExactlyOccurrences(words: seq<Word>, text: Runes, p: int)
    ensures Covered(Search(words, text), p) <==> exists k, j, i :: Occurs(words, text, k, j, i) && j <= p < i
  {
    if Covered(Search(words, text), p) {
      var m :| m in Search(words, text) && m.position <= p < m.endPos;
      HitsAreOccurrences(words, text, m);
      var k, j, i :| Occurs(words, text, k, j, i) && m == ItemAt(MetaOf(words[k]), i);
      assert Occurs(words, text, k, j, i) && j <= p < i;
    }
    forall k, j, i | Occurs(words, text, k, j, i) && j <= p < i
      ensures Covered(Search(words, text), p)
    {
      HitsAreOccurrences(words, text, ItemAt(MetaOf(words[k]), i));
    }
  }

  /** `image` is `text` with every masked rune replaced by `mask` and the others unchanged. */
  ghost predicate MaskImage(words: seq<Word>, text: Runes, image: Runes, mask: char) {
    && |image| == |text|
    && forall p | 0 <= p < |text| :: image[p] == if Covered(Search(words, text), p) then mask else text[p]
  }

  /** Whatever occurs after masking makes use of a rune that masking put there. */
  lemma LeftoverUsesMask(words: seq<Word>, text: Runes, image: Runes, mask: char, k: int, j: int, i: int)
    requires MaskImage(words, text, image, mask) && Occurs(words, image, k, j, i)
    ensures exists p :: j <= p < i && Covered(Search(words, text), p) && words[k].runes[p - j] == mask
  {
    if forall p | j <= p < i :: !Covered(Search(words, text), p) {
      assert image[j..i] == text[j..i];
      assert Occurs(words, text, k, j, i);
      MaskedExactlyOccurrences(words, text, j);
      assert false;
    }
    var p :| j <= p < i && Covered(Search(words, text), p);
    assert words[k].runes[p - j] == image[j..i][p - j] == mask;
  }

  /** Censoring is complete when no word contains the mask rune. */
  lemma CensoringIsComplete(words: seq<Word>, text: Runes, image: Runes, mask: char)
    requires MaskImage(words, text, image, mask)
    requires forall w <- words :: mask !in w.runes
    ensures Search(words, image) == []
  {
    if Search(words, image) != [] {
      var m := Search(words, image)[0];
      HitsAreOccurrences(words, image, m);
      var k, j, i :| Occurs(words, image, k, j, i) && m == ItemAt(MetaOf(words[k]), i);
      LeftoverUsesMask(words, text, image, mask, k, j, i);
      assert false;
    }
  }

  /** Censoring is complete and minimal on the normalised text. */
  lemma CensoringNormalized(words: seq<Word>, text: Runes, mask: char)
    requires forall w <- words :: mask !in w.runes
    ensures Search(words, Masked(text, Search(words, text), mask)) == []
    ensures forall p | 0 <= p < |text| && Masked(text, Search(words, text), mask)[p] != text[p] ::
              exists k, j, i :: Occurs(words, text, k, j, i) && j <= p < i
  {
    CensoringIsComplete(words, text, Masked(text, Search(words, text), mask), mask);
    forall p | 0 <= p < |text| && Masked(text, Search(words, text), mask)[p] != text[p]
      ensures exists k, j, i :: Occurs(words, text, k, j, i) && j <= p < i
    {
      MaskedExactlyOccurrences(words, text, p);
    }
  }

  /** On this text normalisation acts rune by rune, as `f`. */
  ghost predicate RuneByRune(normalize: Normalizer, f: char -> char, text: Runes) {
    |normalize(text)| == |text| && forall k | 0 <= k < |text| :: normalize(text)[k] == f(text[k])
  }

  /** On the equal-length branch the original is rewritten. If normalisation acts rune by rune on the
      original and on the result, and no word contains the normalised mask, the normal form of the result
      is clean, and every position that changed lies in a real occurrence. */
  lemma CensoringOriginal(normalize: Normalizer, f: char -> char, words: seq<Word>, original: Runes, mask: char)
    requires RuneByRune(normalize, f, original)
    requires RuneByRune(normalize, f, Masked(original, Search(words, normalize(original)), mask))
    requires forall w <- words :: f(mask) !in w.runes
    ensures var normalized := normalize(original);
            var out := Masked(Target(original, normalized), Search(words, normalized), mask);
            && |out| == |original| && Search(words, normalize(out)) == []
            && forall p | 0 <= p < |original| && out[p] != original[p] ::
                 exists k, j, i :: Occurs(words, normalized, k, j, i) && j <= p < i
  {
    var normalized := normalize(original);
    var out := Masked(original, Search(words, normalized), mask);
    CensoringIsComplete(words, normalized, normalize(out), f(mask));
    forall p | 0 <= p < |original| && out[p] != original[p]
      ensures exists k, j, i :: Occurs(words, normalized, k, j, i) && j <= p < i
    {
      MaskedExactlyOccurrences(words, normalized, p);
    }
  }

  /** `w` with its mask runes replaced by `c`. */
  function Disguise(w: Runes, mask: char, c: char): (text: Runes)
    ensures |text| == |w| && forall k | 0 <= k < |w| :: text[k] == if w[k] == mask then c else w[k]
  {
    seq(|w|, k requires 0 <= k < |w| => if w[k] == mask then c else w[k])
  }

  /** The disguised word turns back into the word when its hits are masked. */
  lemma DisguiseMasked(w: Word, mask: char, c: char)
    requires c !in w.runes && mask in w.runes
    ensures var words, text := [w, Word([c], w.entry)], Disguise(w.runes, mask, c);
            Masked(text, Search(words, text), mask) == w.runes
  {
    var words, text := [w, Word([c], w.entry)], Disguise(w.runes, mask, c);
    var out := Masked(text, Search(words, text), mask);
    forall p | 0 <= p < |text| ensures out[p] == w.runes[p] {
      DisguiseCovered(w, mask, c, p);
    }
    assert out == w.runes;
  }

  lemma DisguiseCovered(w: Word, mask: char, c: char, p: nat)
    requires c !in w.runes && mask in w.runes && p < |w.runes|
    ensures var words, text := [w, Word([c], w.entry)], Disguise(w.runes, mask, c);
            Covered(Search(words, text), p) <==> w.runes[p] == mask
  {
    hide Search, Covered;
    var words, text := [w, Word([c], w.entry)], Disguise(w.runes, mask, c);
    var x :| 0 <= x < |w.runes| && w.runes[x] == mask;
    assert text[x] == c;
    MaskedExactlyOccurrences(words, text, p);
    if text[p] == c {
      assert Occurs(words, text, 1, p, p + 1);
    }
    forall k, j, i | Occurs(words, text, k, j, i) && j <= p < i ensures text[p] == c {
      assert text[p] == text[j..i][p - j];
    }
  }

  /** A word without the mask rune never survives, whatever else is in the dictionary; one with it
      survives in some text beside the one-rune word of any rune `c` that it does not contain. What a
      given dictionary does is the subject of module MaskRuns. */
  lemma MaskRuneDecides(w: Word, mask: char, c: char)
    requires c !in w.runes && c != mask
    ensures mask !in w.runes <==>
            forall text :: var words := [w, Word([c], w.entry)];
                           Search(words, Masked(text, Search(words, text), mask)) == []
  {
    var words := [w, Word([c], w.entry)];
    if mask !in w.runes {
      forall text ensures Search(words, Masked(text, Search(words, text), mask)) == [] {
        CensoringNormalized(words, text, mask);
      }
    } else {
      DisguiseMasked(w, mask, c);
      var text, out := Disguise(w.runes, mask, c), w.runes;
      assert out[0..|out|] == out;
      assert Occurs(words, out, 0, 0, |out|);
      HitsAreOccurrences(words, out, ItemAt(MetaOf(words[0]), |out|));
      assert Search(words, Masked(text, Search(words, text), mask)) != [];
    }
  }
}
