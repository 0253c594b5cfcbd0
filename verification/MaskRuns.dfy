/** When masking leaves something to find although it used the automaton's own hits: only words that
    contain the mask rune can survive, and whether they do depends on where their mask runes stand. */
module MaskRuns {
  import opened Vocabulary
  import opened NaiveSearch
  import opened SearchMeaning
  import opened Intervals
  import opened Masking

  /** Masking the hits of this dictionary leaves nothing to find, in any text. */
  ghost predicate Censors(words: seq<Word>, mask: char) {
    forall text :: Search(words, Masked(text, Search(words, text), mask)) == []
  }

  predicate IsRun(s: Runes, mask: char, x: int, n: nat) {
    0 <= x && x + n <= |s| && forall k | x <= k < x + n :: s[k] == mask
  }

  ghost predicate HasRun(s: Runes, mask: char, n: nat) {
    exists x :: IsRun(s, mask, x, n)
  }

  /** Exactly `a` mask runes at either end. */
  predicate FramedWord(s: Runes, mask: char, a: nat) {
    && 2 * a < |s| && s[a] != mask && s[|s| - 1 - a] != mask
    && (forall k | 0 <= k < a :: s[k] == mask)
    && (forall k | |s| - a <= k < |s| :: s[k] == mask)
  }

  /** All words have the same number of mask runes at either end, and no word holds so many mask runes
      in a row that a word would fit in. */
  ghost predicate Framed(words: seq<Word>, mask: char, a: nat) {
    && (forall w <- words :: w.runes == [] || FramedWord(w.runes, mask, a))
    && forall u <- words, w <- words :: u.runes == [] || !HasRun(w.runes, mask, |u.runes|)
  }

  // ---- A framed dictionary ----

  /** A masked rune inside a word that seems to survive was a mask rune before. */
  lemma MaskWasThere(words: seq<Word>, text: Runes, image: Runes, mask: char, a: nat, k: int, j: int, i: int, q: int)
    requires MaskImage(words, text, image, mask) && Framed(words, mask, a)
    requires Occurs(words, image, k, j, i) && j <= q < i && Covered(Search(words, text), q)
    ensures text[q] == mask
  {
    hide Search, Covered, Framed;
    MaskedExactlyOccurrences(words, text, q);
    var l, o, e :| Occurs(words, text, l, o, e) && o <= q < e;
    forall p | o <= p < e ensures image[p] == mask {
      MaskedExactlyOccurrences(words, text, p);
    }
    FramesOf(words, mask, a, words[l], words[k], o - j);
    FrameOfHit(words[k].runes, words[l].runes, image, text, mask, a, j, i, o, e, q);
  }

  /** The hit `u` lies over a mask rune of `w`, and what it covers is masked: so it covers none but mask
      runes of `w`, and then it does so with its own. */
  lemma FrameOfHit(w: Runes, u: Runes, image: Runes, text: Runes, mask: char, a: nat,
                   j: int, i: int, o: int, e: int, q: int)
    requires |image| == |text| && 0 <= j <= q < i <= |text| && 0 <= o <= q < e <= |text|
    requires image[j..i] == w && text[o..e] == u && forall p | o <= p < e :: image[p] == mask
    requires FramedWord(w, mask, a) && FramedWord(u, mask, a) && !IsRun(w, mask, o - j, |u|)
    ensures text[q] == mask
  {
    assert w[a] == image[j + a] && w[|w| - 1 - a] == image[i - 1 - a];
    if q < j + a {
      assert text[q] == u[q - o];
    } else if q > i - 1 - a {
      assert text[q] == u[q - o];
    } else {
      assert false;
    }
  }

  lemma FramesOf(words: seq<Word>, mask: char, a: nat, u: Word, w: Word, x: int)
    requires Framed(words, mask, a) && u in words && w in words && u.runes != [] && w.runes != []
    ensures FramedWord(u.runes, mask, a) && FramedWord(w.runes, mask, a) && !IsRun(w.runes, mask, x, |u.runes|)
  {
  }

  /** Masking is complete for every framed dictionary; without mask runes every dictionary is framed. */
  lemma FramedCensors(words: seq<Word>, mask: char, a: nat)
    requires Framed(words, mask, a)
    ensures Censors(words, mask)
  {
    hide Search, Covered, Framed;
    forall text ensures Search(words, Masked(text, Search(words, text), mask)) == [] {
      var image := Masked(text, Search(words, text), mask);
      if Search(words, image) != [] {
        var m := Search(words, image)[0];
        HitsAreOccurrences(words, image, m);
        var k, j, i :| Occurs(words, image, k, j, i) && m == ItemAt(MetaOf(words[k]), i);
        NothingSurvives(words, text, image, mask, a, k, j, i);
        assert false;
      }
    }
  }

  lemma NothingSurvives(words: seq<Word>, text: Runes, image: Runes, mask: char, a: nat, k: int, j: int, i: int)
    requires MaskImage(words, text, image, mask) && Framed(words, mask, a)
    ensures !Occurs(words, image, k, j, i)
  {
    hide Search, Covered, HasRun;
    if Occurs(words, image, k, j, i) {
      assert words[k] in words && FramedWord(words[k].runes, mask, a);
      forall q | j <= q < i ensures text[q] == image[q] {
        if Covered(Search(words, text), q) {
          MaskWasThere(words, text, image, mask, a, k, j, i, q);
        }
      }
      assert text[j..i] == image[j..i];
      assert image[j + a] == image[j..i][a] != mask;
      assert Occurs(words, text, k, j, i);
      MaskedExactlyOccurrences(words, text, j + a);
      assert false;
    }
  }

  lemma MasklessIsFramed(words: seq<Word>, mask: char)
    requires forall w <- words :: mask !in w.runes
    ensures Framed(words, mask, 0)
  {
    forall u <- words, w <- words | u.runes != [] ensures !HasRun(w.runes, mask, |u.runes|) {
      forall x ensures !IsRun(w.runes, mask, x, |u.runes|) {
        assert 0 <= x && x + |u.runes| <= |w.runes| ==> w.runes[x] in w.runes;
      }
    }
  }

  // ---- One word: the exact condition ----

  function Leading(s: Runes, mask: char): (n: nat)
    ensures n <= |s| && forall k | 0 <= k < n :: s[k] == mask
    ensures n < |s| ==> s[n] != mask
  {
    if s == [] || s[0] != mask then 0 else 1 + Leading(s[1..], mask)
  }

  function Trailing(s: Runes, mask: char): (n: nat)
    ensures n <= |s| && forall k | |s| - n <= k < |s| :: s[k] == mask
    ensures n < |s| ==> s[|s| - 1 - n] != mask
  {
    if s == [] || Last(s) != mask then 0 else 1 + Trailing(Init(s), mask)
  }

  predicate FoundAt(text: Runes, w: Runes, p: int) {
    0 <= p && p + |w| <= |text| && text[p..p + |w|] == w
  }

  lemma Differs(text: Runes, w: Runes, p: int, k: int)
    requires 0 <= k < |w| && 0 <= p && p + |w| <= |text| && text[p + k] != w[k]
    ensures !FoundAt(text, w, p)
  {
    assert text[p..p + |w|][k] == text[p + k];
  }

  lemma NotFoundPast(text: Runes, w: Runes, p: int)
    requires p + |w| > |text|
    ensures !FoundAt(text, w, p)
  {
  }

  /** The word itself, then the word without its leading mask runes: only the first copy is a hit. */
  lemma OnlyFirstCopy(w: Runes, mask: char, p: nat)
    requires Trailing(w, mask) < Leading(w, mask) < |w| && p >= 1
    ensures !FoundAt(w + w[Leading(w, mask)..], w, p)
  {
    hide Leading, Trailing, FoundAt;
    var n, a, z := |w|, Leading(w, mask), Trailing(w, mask);
    var text := w + w[a..];
    if p + n > |text| {
      NotFoundPast(text, w, p);
    } else {
      if p <= z {
        Differs(text, w, p, n - p);
      } else if p < n - a && w[a + p - 1 - z] == mask {
        Differs(text, w, p, n - 1 - z);
      } else {
        Differs(text, w, p, a - 1 - z);
      }
    }
  }

  /** Mirrored: the word without its trailing mask runes, then the word itself. */
  lemma OnlySecondCopy(w: Runes, mask: char, p: nat)
    requires Leading(w, mask) < Trailing(w, mask) < |w| && p < |w| - Trailing(w, mask)
    ensures !FoundAt(w[..|w| - Trailing(w, mask)] + w, w, p)
  {
    hide Leading, Trailing, FoundAt;
    var n, a, z := |w|, Leading(w, mask), Trailing(w, mask);
    var d := n - z;
    var text := w[..d] + w;
    if d - p <= a {
      Differs(text, w, p, d - p - 1);
    } else if w[p + a] == mask {
      Differs(text, w, p, a);
    } else {
      Differs(text, w, p, d + a);
    }
  }

  lemma CoveredByOnly(w: Word, text: Runes, from: nat, k: int)
    requires w.runes != [] && forall p :: FoundAt(text, w.runes, p) <==> p == from
    ensures Covered(Search([w], text), k) <==> from <= k < from + |w.runes|
  {
    hide Search, Covered;
    MaskedExactlyOccurrences([w], text, k);
    assert FoundAt(text, w.runes, from);
    assert Occurs([w], text, 0, from, from + |w.runes|);
    forall l, j, i | Occurs([w], text, l, j, i) ensures j == from && i == from + |w.runes| {
      assert FoundAt(text, w.runes, j);
    }
  }

  /** A text in which the only hit is at `from`, and whose image holds the word at `at`. */
  lemma Survives(w: Word, mask: char, text: Runes, from: nat, at: nat)
    requires w.runes != [] && at + |w.runes| <= |text|
    requires forall p :: FoundAt(text, w.runes, p) <==> p == from
    requires forall x | 0 <= x < |w.runes| ::
               w.runes[x] == if from <= at + x < from + |w.runes| then mask else text[at + x]
    ensures !Censors([w], mask)
  {
    hide Search, Covered;
    var words, n := [w], |w.runes|;
    var image := Masked(text, Search(words, text), mask);
    forall x | 0 <= x < n ensures image[at..at + n][x] == w.runes[x] {
      CoveredByOnly(w, text, from, at + x);
    }
    assert image[at..at + n] == w.runes;
    assert Occurs(words, image, 0, at, at + n);
    HitsAreOccurrences(words, image, ItemAt(MetaOf(w), at + n));
    assert Search(words, image) != [];
  }

  /** For a dictionary of one word: masking is complete exactly when the word is empty, or has a rune
      other than the mask and as many mask runes at its end as at its start. */
  lemma OneWordCensorsIff(w: Word, mask: char)
    ensures Censors([w], mask) <==>
            w.runes == [] || (Leading(w.runes, mask) < |w.runes| && Leading(w.runes, mask) == Trailing(w.runes, mask))
  {
    hide Search, Covered, Censors;
    var s := w.runes;
    var n, a, z := |s|, Leading(s, mask), Trailing(s, mask);
    if s == [] || (a < n && a == z) {
      OneWordFramed(w, mask);
      FramedCensors([w], mask, a);
    } else if a == n {
      MasksSurvive(w, mask);
    } else if z < a {
      FirstCopySurvives(w, mask);
    } else {
      SecondCopySurvives(w, mask);
    }
  }

  lemma OneWordFramed(w: Word, mask: char)
    requires var s := w.runes; s == [] || Leading(s, mask) == Trailing(s, mask) < |s|
    ensures Framed([w], mask, Leading(w.runes, mask))
  {
    var s := w.runes;
    var a := Leading(s, mask);
    if s != [] {
      assert s[a] != mask && s[|s| - 1 - a] != mask;
      forall x ensures !IsRun(s, mask, x, |s|) {
        assert x == 0 ==> s[a] != mask;
      }
    }
  }

  lemma MasksSurvive(w: Word, mask: char)
    requires w.runes != [] && Leading(w.runes, mask) == |w.runes|
    ensures !Censors([w], mask)
  {
    hide Censors;
    assert FoundAt(w.runes, w.runes, 0);
    Survives(w, mask, w.runes, 0, 0);
  }

  lemma FirstCopySurvives(w: Word, mask: char)
    requires Trailing(w.runes, mask) < Leading(w.runes, mask) < |w.runes|
    ensures !Censors([w], mask)
  {
    hide Censors;
    var s := w.runes;
    var n, a := |s|, Leading(s, mask);
    var text := s + s[a..];
    forall p ensures FoundAt(text, s, p) <==> p == 0 {
      if p >= 1 {
        OnlyFirstCopy(s, mask, p);
      }
    }
    hide FoundAt;
    Survives(w, mask, text, 0, n - a);
  }

  lemma SecondCopySurvives(w: Word, mask: char)
    requires Leading(w.runes, mask) < Trailing(w.runes, mask) < |w.runes|
    ensures !Censors([w], mask)
  {
    hide Censors;
    var s := w.runes;
    var n, d := |s|, |s| - Trailing(s, mask);
    var text := s[..d] + s;
    forall p ensures FoundAt(text, s, p) <==> p == d {
      if 0 <= p < d {
        OnlySecondCopy(s, mask, p);
      }
    }
    hide FoundAt;
    Survives(w, mask, text, d, 0);
  }

  /** A mask rune inside a word does no harm by itself. */
  lemma MaskInsideIsHarmless(entry: WordEntry)
    ensures Censors([Word("a*b", entry)], '*')
  {
    OneWordCensorsIff(Word("a*b", entry), '*');
  }
}
