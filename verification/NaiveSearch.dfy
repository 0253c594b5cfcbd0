/** The reference meaning of a search: look at every window of the text and at every word. */
module NaiveSearch {
  import opened Vocabulary
  import opened Suffixes

  function MetaOf(w: Word): WordMeta {
    WordMeta(w.entry.text, |w.runes|, w.entry.category, w.entry.level)
  }

  /** The entries whose nonempty normalised text is exactly `s`, in insertion order, once per entry. */
  function WordsEqualTo(words: seq<Word>, s: Runes): seq<WordMeta> {
    if words == [] then [] else
      WordsEqualTo(Init(words), s)
      + if s != [] && Last(words).runes == s then [MetaOf(Last(words))] else []
  }

  /** The words ending at the end of `s`, longest first. */
  function WordsEnding(words: seq<Word>, s: Runes): seq<WordMeta> {
    if s == [] then [] else WordsEqualTo(words, s) + WordsEnding(words, s[1..])
  }

  function ItemAt(m: WordMeta, end: nat): MatchItem {
    MatchItem(m.text, end - m.length, end, m.category, m.level)
  }

  function ItemsAt(metas: seq<WordMeta>, end: nat): (items: seq<MatchItem>)
    ensures |items| == |metas| && forall k | 0 <= k < |metas| :: items[k] == ItemAt(metas[k], end)
  {
    seq(|metas|, k requires 0 <= k < |metas| => ItemAt(metas[k], end))
  }

  /** For each end position in ascending order, every word that ends there. */
  function Search(words: seq<Word>, text: Runes): seq<MatchItem> {
    if text == [] then [] else
      Search(words, Init(text)) + ItemsAt(WordsEnding(words, text), |text|)
  }

  // ---- The trie paths of a word list ----

  ghost function Prefixes(w: Runes): (paths: set<Runes>)
    ensures w in paths && [] in paths
  {
    if w == [] then {[]} else Prefixes(Init(w)) + {w}
  }

  ghost function TriePaths(words: seq<Word>): (paths: set<Runes>)
    ensures [] in paths
  {
    if words == [] then {[]} else
      TriePaths(Init(words)) + Prefixes(Last(words).runes)
  }

  /** How many words the automaton keeps: those with nonempty normalised text. */
  function CountNonempty(words: seq<Word>): nat {
    if words == [] then 0 else
      CountNonempty(Init(words)) + if Last(words).runes == [] then 0 else 1
  }

  /** One more word adds its prefixes, and is listed last where its runes end. */
  lemma OneMoreWord(words: seq<Word>, w: Word)
    ensures TriePaths(words + [w]) == TriePaths(words) + Prefixes(w.runes)
    ensures CountNonempty(words + [w]) == CountNonempty(words) + if w.runes == [] then 0 else 1
    ensures forall s :: WordsEqualTo(words + [w], s)
                     == WordsEqualTo(words, s) + if s != [] && w.runes == s then [MetaOf(w)] else []
  {
    assert Init(words + [w]) == words && Last(words + [w]) == w;
  }

  lemma NoPrefixes(words: seq<Word>, w: Runes)
    requires w == []
    ensures TriePaths(words) + Prefixes(w) == TriePaths(words)
  {
  }

  lemma PrefixesOfStep(w: Runes, i: nat)
    requires i < |w|
    ensures w[..i + 1] == Snoc(w[..i], w[i])
    ensures Prefixes(w[..i + 1]) == Prefixes(w[..i]) + {Snoc(w[..i], w[i])}
  {
    assert Init(w[..i + 1]) == w[..i];
  }

  lemma {:induction false} PrefixesClosed(w: Runes)
    ensures PrefixClosed(Prefixes(w))
  {
    if w != [] {
      PrefixesClosed(Init(w));
    }
  }

  lemma {:induction false} TriePathsPrefixClosed(words: seq<Word>)
    ensures PrefixClosed(TriePaths(words))
  {
    if words != [] {
      TriePathsPrefixClosed(Init(words));
      PrefixesClosed(Last(words).runes);
    }
  }

  /** Only trie paths spell words. */
  lemma {:induction false} WordsArePaths(words: seq<Word>, s: Runes)
    requires s !in TriePaths(words)
    ensures WordsEqualTo(words, s) == []
  {
    if words != [] {
      WordsArePaths(Init(words), s);
    }
  }

  /** The words ending a text are those ending its longest suffix in the trie. */
  lemma {:induction false} WordsEndingAtLongestSuffix(words: seq<Word>, s: Runes)
    ensures WordsEnding(words, s)
         == WordsEnding(words, LongestSuffixIn(TriePaths(words), s))
  {
    var paths := TriePaths(words);
    if s !in paths {
      WordsArePaths(words, s);
      WordsEndingAtLongestSuffix(words, s[1..]);
    }
  }

  /** A node's finished output is its own words followed by its fail node's output. */
  lemma WordsEndingAlongFail(words: seq<Word>, p: Runes)
    requires p != []
    ensures WordsEnding(words, p)
         == WordsEqualTo(words, p)
            + WordsEnding(words, FailPath(TriePaths(words), p))
  {
    WordsEndingAtLongestSuffix(words, p[1..]);
  }

  /** No word ends at the root. */
  lemma RootLinked(words: seq<Word>)
    ensures WordsEqualTo(words, []) == WordsEnding(words, []) == []
  {
    NoEmptyWord(words);
  }

  lemma {:induction false} NoEmptyWord(words: seq<Word>)
    ensures WordsEqualTo(words, []) == []
  {
    if words != [] {
      NoEmptyWord(Init(words));
    }
  }

  /** A child of the root falls back to the root and inherits nothing. */
  lemma TopLevelLinked(words: seq<Word>, p: Runes)
    requires |p| == 1
    ensures FailPath(TriePaths(words), p) == [] && WordsEnding(words, p) == WordsEqualTo(words, p)
  {
    assert p[1..] == [];
  }

  lemma SearchNothing(words: seq<Word>, text: Runes)
    requires text == []
    ensures Search(words, text) == [] && LongestSuffixIn(TriePaths(words), text) == []
  {
  }

  /** One more rune of text: the longest suffix moves on, and the words ending there are reported. */
  lemma ScanStep(words: seq<Word>, text: Runes, i: nat)
    requires i < |text|
    ensures LongestSuffixIn(TriePaths(words), text[..i + 1])
         == LongestSuffixIn(TriePaths(words), Snoc(LongestSuffixIn(TriePaths(words), text[..i]), text[i]))
    ensures Search(words, text[..i + 1]) == Search(words, text[..i])
         + ItemsAt(WordsEnding(words, LongestSuffixIn(TriePaths(words), text[..i + 1])), i + 1)
  {
    hide WordsEqualTo, WordsEnding, TriePaths, LongestSuffixIn;
    TriePathsPrefixClosed(words);
    LongestSuffixOfExtension(TriePaths(words), text[..i], text[i]);
    assert text[..i + 1] == Snoc(text[..i], text[i]);
    WordsEndingAtLongestSuffix(words, text[..i + 1]);
  }

  /** Without a nonempty word there is nothing to find. */
  lemma {:induction false} NothingToFind(words: seq<Word>, text: Runes)
    requires CountNonempty(words) == 0
    ensures Search(words, text) == []
  {
    if text != [] {
      NothingToFind(words, Init(text));
      NothingEnds(words, text);
    }
  }

  lemma {:induction false} NothingEnds(words: seq<Word>, s: Runes)
    requires CountNonempty(words) == 0
    ensures WordsEnding(words, s) == []
  {
    if s != [] {
      NothingEqual(words, s);
      NothingEnds(words, s[1..]);
    }
  }

  lemma {:induction false} NothingEqual(words: seq<Word>, s: Runes)
    requires CountNonempty(words) == 0
    ensures WordsEqualTo(words, s) == []
  {
    if words != [] {
      NothingEqual(Init(words), s);
    }
  }
}
