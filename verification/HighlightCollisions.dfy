/** A text without hits is returned as it is. When can it be mistaken for the highlighted form of
    another text? */
module HighlightCollisions {
  import opened Vocabulary
  import opened NaiveSearch
  import opened SearchMeaning
  import opened Intervals
  import opened Masking
  import opened Highlighting

  /** `out` is what highlighting returns for a text with hits. */
  ghost predicate IsHighlight(normalize: Normalizer, words: seq<Word>, original: Runes, out: string) {
    var normalized := normalize(original);
    && Search(words, normalized) != []
    && IsRendered(out, Target(original, normalized), UnionOf(Search(words, normalized)))
  }

  /** It reads as some text with marks, and printing that text again gives it back. */
  ghost predicate ReadsAsHighlight(out: string) {
    var d := Decode(out, 0, None);
    && d.Some? && d.value.ivs != []
    && Within(d.value.ivs, 0, |d.value.runes|) && IsRendered(out, d.value.runes, d.value.ivs)
  }

  lemma RenderedReadsBack(t: Runes, ivs: seq<Interval>, out: string)
    requires Within(ivs, 0, |t|) && IsRendered(out, t, ivs)
    ensures Decode(out, 0, None) == Some(Marked(t, ivs))
  {
    hide Decode, Render;
    DecodeRender(t, 0, ivs);
    assert t[0..] == t;
  }

  /** Which strings the printer can produce at all: those that survive decoding and printing. */
  lemma PrintedIff(out: string)
    ensures (exists t, ivs :: ivs != [] && Within(ivs, 0, |t|) && IsRendered(out, t, ivs)) <==> ReadsAsHighlight(out)
  {
    hide Decode, Render, Within;
    if t, ivs :| ivs != [] && Within(ivs, 0, |t|) && IsRendered(out, t, ivs) {
      RenderedReadsBack(t, ivs, out);
    }
    if ReadsAsHighlight(out) {
      var d := Decode(out, 0, None).value;
      assert Within(d.ivs, 0, |d.runes|) && IsRendered(out, d.runes, d.ivs);
    }
  }

  /** `t` is the normal form of a text of another length, and so the text that would be rewritten. */
  ghost predicate Resized(normalize: Normalizer, t: Runes) {
    exists original :: |normalize(original)| != |original| && normalize(original) == t
  }

  /** Under one dictionary: a string is the highlighted form of some text exactly when it reads as a text
      with marks, printing gives it back, and the marks are where the dictionary has its hits. A text
      without hits is returned unchanged, so this also says when it collides. */
  lemma CollidesIff(normalize: Normalizer, words: seq<Word>, out: string)
    ensures (exists original :: IsHighlight(normalize, words, original, out)) <==>
      && ReadsAsHighlight(out)
      && var d := Decode(out, 0, None).value;
         || (|normalize(d.runes)| == |d.runes| && UnionOf(Search(words, normalize(d.runes))) == d.ivs)
         || (Resized(normalize, d.runes) && UnionOf(Search(words, d.runes)) == d.ivs)
  {
    hide Decode, Render, Search, Within;
    if original :| IsHighlight(normalize, words, original, out) {
      HighlightReadsBack(normalize, words, original, out);
    }
    if ReadsAsHighlight(out) {
      var d := Decode(out, 0, None).value;
      if |normalize(d.runes)| == |d.runes| && UnionOf(Search(words, normalize(d.runes))) == d.ivs {
        assert IsHighlight(normalize, words, d.runes, out);
      }
      if Resized(normalize, d.runes) && UnionOf(Search(words, d.runes)) == d.ivs {
        var original :| |normalize(original)| != |original| && normalize(original) == d.runes;
        assert IsHighlight(normalize, words, original, out);
      }
    }
  }

  lemma HighlightReadsBack(normalize: Normalizer, words: seq<Word>, original: Runes, out: string)
    requires IsHighlight(normalize, words, original, out)
    ensures var normalized := normalize(original);
            && ReadsAsHighlight(out)
            && Decode(out, 0, None) == Some(Marked(Target(original, normalized), UnionOf(Search(words, normalized))))
  {
    hide Decode, Render, Search, Within, UnionOf;
    var normalized := normalize(original);
    HitsCovered(words, normalized);
    RenderedReadsBack(Target(original, normalized), UnionOf(Search(words, normalized)), out);
  }

  lemma HitsCovered(words: seq<Word>, text: Runes)
    ensures var ivs := UnionOf(Search(words, text));
            Canonical(ivs, Search(words, text)) && Within(ivs, 0, |text|) && (Search(words, text) != [] <==> ivs != [])
  {
    hide Search;
    EndsWithin(words, text);
    UnionIsCanonical(Search(words, text), UnionOf(Search(words, text)));
    HitsWithin(words, text, UnionOf(Search(words, text)));
  }

  // ---- A dictionary without special runes never collides ----

  lemma {:induction false} EscapePlain(s: Runes)
    requires forall c <- s :: !Special(c)
    ensures EscapeAll(s) == s
  {
    if s != [] {
      assert s[0] in s && s == [s[0]] + s[1..];
      EscapePlain(s[1..]);
    }
  }

  /** Positions covered one after the other lie in one interval. */
  lemma {:induction false} OneInterval(ivs: seq<Interval>, j: int, i: int) returns (a: nat)
    requires Separated(ivs) && j < i && forall k | j <= k < i :: CoveredBy(ivs, k)
    ensures a < |ivs| && ivs[a].start <= j && i <= ivs[a].end
    decreases i - j
  {
    assert CoveredBy(ivs, i - 1);
    var iv :| iv in ivs && iv.start <= i - 1 < iv.end;
    a :| 0 <= a < |ivs| && ivs[a] == iv;
    if j < i - 1 {
      var b := OneInterval(ivs, j, i - 1);
    }
  }

  lemma PrintedFirst(target: Runes, idx: nat, ivs: seq<Interval>) returns (pre: string, post: string)
    requires ivs != [] && forall iv <- ivs :: 0 <= iv.start && 0 <= iv.end
    requires ivs[0].start <= ivs[0].end <= |target|
    ensures Render(target, idx, ivs) == pre + EscapeAll(target[ivs[0].start..ivs[0].end]) + post
    ensures post == CLOSE + Render(target, ivs[0].end, ivs[1..])
  {
    hide EscapeAll, Slice, Render;
    var plain, rest := EscapeAll(Slice(target, idx, ivs[0].start)), Render(target, ivs[0].end, ivs[1..]);
    pre, post := plain + OPEN, CLOSE + rest;
    RenderFirst(target, idx, ivs);
    SliceInside(target, ivs[0].start, ivs[0].end);
    Regroup(plain, OPEN, EscapeAll(target[ivs[0].start..ivs[0].end]), CLOSE, rest);
  }

  /** What is inside a mark is printed in one piece. */
  lemma {:induction false} PrintedInOnePiece(target: Runes, idx: nat, ivs: seq<Interval>, a: nat)
    returns (pre: string, post: string)
    requires Within(ivs, idx, |target|) && a < |ivs| && forall iv <- ivs :: 0 <= iv.start && 0 <= iv.end
    ensures 0 <= ivs[a].start <= ivs[a].end <= |target|
    ensures Render(target, idx, ivs) == pre + EscapeAll(target[ivs[a].start..ivs[a].end]) + post
    decreases |ivs|
  {
    hide EscapeAll, Within, Render, Slice;
    WithinTail(ivs, idx, |target|);
    var head, tail := PrintedFirst(target, idx, ivs);
    if a == 0 {
      pre, post := head, tail;
    } else {
      var marked := EscapeAll(target[ivs[0].start..ivs[0].end]);
      var before, after := PrintedInOnePiece(target, ivs[0].end, ivs[1..], a - 1);
      pre, post := head + marked + CLOSE + before, after;
    }
  }

  /** A hit whose runes need no escaping is printed as it is. */
  lemma HitIsPrinted(target: Runes, ivs: seq<Interval>, j: int, i: int, out: string) returns (p: nat)
    requires Within(ivs, 0, |target|) && IsRendered(out, target, ivs)
    requires 0 <= j < i <= |target| && forall k | j <= k < i :: CoveredBy(ivs, k)
    requires forall k | j <= k < i :: !Special(target[k])
    ensures p + (i - j) <= |out| && out[p..p + (i - j)] == target[j..i]
  {
    hide EscapeAll, Render;
    var a := OneInterval(ivs, j, i);
    var pre, post := PrintedInOnePiece(target, 0, ivs, a);
    var left, hit, right := target[ivs[a].start..j], target[j..i], target[i..ivs[a].end];
    assert target[ivs[a].start..ivs[a].end] == left + (hit + right);
    EscapeConcat(left, hit + right);
    EscapeConcat(hit, right);
    EscapePlain(hit);
    p := |pre| + |EscapeAll(left)|;
    assert out == pre + EscapeAll(left) + hit + (EscapeAll(right) + post);
  }

  /** If no word contains a special rune, highlighted text still holds a hit wherever normalisation acts
      rune by rune and keeps the special runes special: it is never a text without hits. */
  lemma NoCollisionWithoutSpecials(normalize: Normalizer, f: char -> char, words: seq<Word>,
                                   original: Runes, out: string)
    requires IsHighlight(normalize, words, original, out)
    requires forall w <- words, c <- w.runes :: !Special(c)
    requires forall c | Special(c) :: Special(f(c))
    requires var normalized := normalize(original);
             forall k | 0 <= k < |normalized| :: normalized[k] == f(Target(original, normalized)[k])
    requires RuneByRune(normalize, f, out)
    ensures Search(words, normalize(out)) != []
  {
    hide Search, UnionOf, Render, Covered, CoveredBy, Special;
    var normalized := normalize(original);
    var target, ivs := Target(original, normalized), UnionOf(Search(words, normalized));
    HitsCovered(words, normalized);
    HitsAreOccurrences(words, normalized, Search(words, normalized)[0]);
    var k, j, i :| Occurs(words, normalized, k, j, i);
    forall x | j <= x < i ensures CoveredBy(ivs, x) && !Special(target[x]) {
      MaskedExactlyOccurrences(words, normalized, x);
      assert normalized[x] == normalized[j..i][x - j];
      assert words[k] in words && normalized[x] in words[k].runes;
    }
    var p := HitIsPrinted(target, ivs, j, i, out);
    var found := normalize(out)[p..p + (i - j)];
    forall x | 0 <= x < i - j ensures found[x] == words[k].runes[x] {
      assert out[p..p + (i - j)][x] == target[j..i][x];
      assert normalized[j..i][x] == f(target[j + x]);
    }
    assert found == words[k].runes;
    assert Occurs(words, normalize(out), k, p, p + (i - j));
    HitsAreOccurrences(words, normalize(out), ItemAt(MetaOf(words[k]), p + (i - j)));
  }

  /** Composes a greater-than sign and a following solidus overlay into one rune, as NFKC does. */
  function Composed(s: Runes): Runes {
    if |s| >= 2 && s[0] == '>' && s[1] == '\U{0338}' then ['\U{226F}'] + Composed(s[2..])
    else if s == [] then [] else [s[0]] + Composed(s[1..])
  }

  lemma {:induction false} ComposedPlain(s: Runes)
    requires forall k | 0 <= k < |s| :: s[k] != '\U{0338}'
    ensures Composed(s) == s
  {
    if s != [] {
      ComposedPlain(s[1..]);
      assert s == [s[0]] + s[1..];
    }
  }

  lemma {:induction false} ComposedAfterSign(a: Runes, b: Runes)
    requires forall k | 0 <= k < |a| :: a[k] != '\U{0338}'
    requires forall k | 0 <= k < |b| :: b[k] != '\U{0338}'
    ensures Composed(a + ['>', '\U{0338}'] + b) == a + ['\U{226F}'] + b
  {
    var s := a + ['>', '\U{0338}'] + b;
    if a == [] {
      assert s[2..] == b;
      ComposedPlain(b);
    } else {
      assert s[1..] == a[1..] + ['>', '\U{0338}'] + b;
      ComposedAfterSign(a[1..], b);
      assert s[1] != '\U{0338}';
      assert a == [a[0]] + a[1..];
    }
  }

  /** The combining long solidus overlay. */
  const OVERLAY: Runes := "\U{0338}"

  /** The condition on normalisation is needed: a word that composes with the tag before it is not special,
      yet its highlighted form is a text without hits. */
  lemma CompositionCollides(entry: WordEntry)
    ensures var words, text, out := [Word(OVERLAY, entry)], OVERLAY, "<mark>" + OVERLAY + "</mark>";
      && !Special(OVERLAY[0]) && Composed(text) == text
      && IsHighlight(Composed, words, text, out) && Search(words, Composed(out)) == []
  {
    assert Composed(OVERLAY) == OVERLAY && !Special(OVERLAY[0]) && OVERLAY == [OVERLAY[0]];
    hide Search, IsHighlight, Composed, Special;
    OneRuneHighlight(Composed, [Word(OVERLAY, entry)], OVERLAY);
    MarkComposes();
    NotFound([Word(OVERLAY, entry)], OVERLAY[0], Composed("<mark>" + OVERLAY + "</mark>"));
  }

  lemma MarkComposes()
    ensures var normalized := Composed("<mark>" + OVERLAY + "</mark>");
            forall k | 0 <= k < |normalized| :: normalized[k] != OVERLAY[0]
  {
    hide Composed;
    ComposedAfterSign("<mark", "</mark>");
    assert "<mark>" + OVERLAY + "</mark>" == "<mark" + ['>', '\U{0338}'] + "</mark>";
  }

  lemma NotFound(words: seq<Word>, c: char, text: Runes)
    requires |words| == 1 && words[0].runes == [c] && forall k | 0 <= k < |text| :: text[k] != c
    ensures Search(words, text) == []
  {
    hide Search;
    if Search(words, text) != [] {
      HitsAreOccurrences(words, text, Search(words, text)[0]);
      assert false;
    }
  }

  lemma OneRuneHighlight(normalize: Normalizer, words: seq<Word>, text: Runes)
    requires |words| == 1 && words[0].runes == text && |text| == 1 && normalize(text) == text && !Special(text[0])
    ensures IsHighlight(normalize, words, text, "<mark>" + text + "</mark>")
  {
    hide Search, Render, UnionOf;
    OverlayIsHit(words, text);
    OverlayIsPrinted(text);
  }

  lemma OverlayIsHit(words: seq<Word>, text: Runes)
    requires |words| == 1 && words[0].runes == text && |text| == 1
    ensures Search(words, text) != [] && UnionOf(Search(words, text)) == [Interval(0, 1)]
  {
    hide Search, UnionOf, Covered;
    HitsCovered(words, text);
    assert text[0..1] == text;
    assert Occurs(words, text, 0, 0, 1);
    forall k ensures CoveredBy([Interval(0, 1)], k) <==> Covered(Search(words, text), k) {
      MaskedExactlyOccurrences(words, text, k);
    }
    SeparatedIsUnique(UnionOf(Search(words, text)), [Interval(0, 1)]);
  }

  lemma OverlayIsPrinted(text: Runes)
    requires |text| == 1 && !Special(text[0])
    ensures Render(text, 0, [Interval(0, 1)]) == "<mark>" + text + "</mark>"
  {
    hide EscapeAll;
    EscapePlain(text);
    SliceInside(text, 0, 1);
    SliceEmpty(text, 0);
    SliceEmpty(text, 1);
    hide Slice;
    assert text[0..1] == text && Render(text, 1, []) == "";
  }

  // ---- A collision ----

  lemma DoubledAmp(out: string, x: int)
    requires out == "<mark>&amp;&amp;</mark>" && 0 <= x < |out| - 1 && out[x] == '&'
    ensures out[x + 1] == 'a'
  {
  }

  /** With the one word "&&", the text "&&" is highlighted as a text that has no hit itself. */
  lemma Collides(entry: WordEntry)
    ensures var words, out := [Word("&&", entry)], "<mark>&amp;&amp;</mark>";
            IsHighlight(t => t, words, "&&", out) && Search(words, out) == []
  {
    hide Search;
    var words, out := [Word("&&", entry)], "<mark>&amp;&amp;</mark>";
    var normalize: Normalizer := t => t;
    assert "&&"[0..2] == "&&";
    assert Occurs(words, "&&", 0, 0, 2);
    HitsCovered(words, "&&");
    AmpIsCovered(words);
    AmpIsPrinted();
    if Search(words, out) != [] {
      HitsAreOccurrences(words, out, Search(words, out)[0]);
      var k, j, i :| Occurs(words, out, k, j, i);
      assert out[j] == out[j..i][0] && out[j + 1] == out[j..i][1];
      DoubledAmp(out, j);
      assert false;
    }
  }

  lemma AmpEscaped()
    ensures EscapeAll("&&") == "&amp;&amp;"
  {
    assert "&&"[1..] == "&" && "&"[1..] == "";
    assert EscapeAll("&") == "&amp;" + EscapeAll("");
  }

  lemma AmpIsPrinted()
    ensures Render("&&", 0, [Interval(0, 2)]) == "<mark>&amp;&amp;</mark>"
  {
    hide EscapeAll;
    AmpEscaped();
    SliceInside("&&", 0, 2);
    SliceEmpty("&&", 0);
    SliceEmpty("&&", 2);
    hide Slice;
    assert "&&"[0..2] == "&&" && Render("&&", 2, []) == "";
  }

  lemma AmpIsCovered(words: seq<Word>)
    requires exists entry :: words == [Word("&&", entry)]
    ensures UnionOf(Search(words, "&&")) == [Interval(0, 2)]
    ensures Search(words, "&&") != []
  {
    hide Search, UnionOf, Covered;
    HitsCovered(words, "&&");
    assert "&&"[0..2] == "&&";
    assert Occurs(words, "&&", 0, 0, 2);
    forall k ensures CoveredBy([Interval(0, 2)], k) <==> Covered(Search(words, "&&"), k) {
      MaskedExactlyOccurrences(words, "&&", k);
    }
    SeparatedIsUnique(UnionOf(Search(words, "&&")), [Interval(0, 2)]);
  }
}
