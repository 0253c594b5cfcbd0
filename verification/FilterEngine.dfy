/** The engine that holds the current automaton and counts its rebuilds. */
module FilterEngine {
  import opened Vocabulary
  import opened NaiveSearch
  import opened Automaton

  datatype SensitiveWord = SensitiveWord(text: Runes, category: string, level: int, status: int)

  /** The entries of the active words, in order. */
  function ActiveEntries(words: seq<SensitiveWord>): seq<WordEntry> {
    if words == [] then [] else
      var w := Last(words);
      ActiveEntries(Init(words)) + if w.status == 1 then [WordEntry(w.text, w.category, w.level)] else []
  }

  /** The places of the active words. */
  function ActivePlaces(words: seq<SensitiveWord>): (ks: seq<nat>)
    ensures forall x | 0 <= x < |ks| :: ks[x] < |words|
  {
    if words == [] then [] else
      ActivePlaces(Init(words)) + if Last(words).status == 1 then [|words| - 1] else []
  }

  lemma {:induction false} PlacesAreActive(words: seq<SensitiveWord>, k: nat)
    ensures k in ActivePlaces(words) <==> k < |words| && words[k].status == 1
  {
    if words != [] {
      PlacesAreActive(Init(words), k);
    }
  }

  lemma {:induction false} PlacesIncrease(words: seq<SensitiveWord>)
    ensures forall x, y | 0 <= x < y < |ActivePlaces(words)| :: ActivePlaces(words)[x] < ActivePlaces(words)[y]
  {
    if words != [] {
      PlacesIncrease(Init(words));
    }
  }

  lemma {:induction false} EntriesAtPlaces(words: seq<SensitiveWord>)
    ensures var ks, entries := ActivePlaces(words), ActiveEntries(words);
      && |ks| == |entries|
      && forall x | 0 <= x < |ks| ::
           entries[x] == WordEntry(words[ks[x]].text, words[ks[x]].category, words[ks[x]].level)
  {
    if words != [] {
      EntriesAtPlaces(Init(words));
      var before := ActivePlaces(Init(words));
      assert forall x | 0 <= x < |before| :: Init(words)[before[x]] == words[before[x]];
    }
  }

  /** The entries are those of the words with status 1, each once and in order, column by column. */
  lemma ActiveEntriesMeaning(words: seq<SensitiveWord>)
    ensures var ks, entries := ActivePlaces(words), ActiveEntries(words);
      && |ks| == |entries|
      && (forall k: nat :: k in ks <==> k < |words| && words[k].status == 1)
      && (forall x, y | 0 <= x < y < |ks| :: ks[x] < ks[y])
      && forall x | 0 <= x < |ks| ::
           entries[x] == WordEntry(words[ks[x]].text, words[ks[x]].category, words[ks[x]].level)
  {
    hide ActivePlaces, ActiveEntries;
    forall k: nat ensures k in ActivePlaces(words) <==> k < |words| && words[k].status == 1 {
      PlacesAreActive(words, k);
    }
    PlacesIncrease(words);
    EntriesAtPlaces(words);
  }

  method SelectActive(words: seq<SensitiveWord>) returns (entries: seq<WordEntry>)
    ensures entries == ActiveEntries(words)
  {
    entries := [];
    for i := 0 to |words|
      invariant entries == ActiveEntries(words[..i])
    {
      var w := words[i];
      assert Init(words[..i + 1]) == words[..i];
      if w.status == 1 {
        entries := entries + [WordEntry(w.text, w.category, w.level)];
      }
    }
    assert words[..|words|] == words;
  }

  /** The counter is an unsigned 64-bit number. */
  const TWO_TO_THE_64 := 0x1_0000_0000_0000_0000

  class ACFilterEngine {
    const normalize: Normalizer
    var current: AhoCorasick
    var version: nat

    /** The engine searches for exactly these entries. */
    ghost predicate Holds(entries: seq<WordEntry>)
      reads this, current, current.repr
    {
      current.Linked() && current.words == Normalized(normalize, entries)
    }

    constructor (normalize: Normalizer)
      ensures Holds([]) && version == 0 && this.normalize == normalize
      ensures fresh(current) && fresh(current.repr)
    {
      this.normalize := normalize;
      current := new AhoCorasick([], normalize);
      version := 0;
    }

    /** Swaps in an automaton for the active words; the old one is not touched. */
    method Rebuild(words: seq<SensitiveWord>)
      modifies this
      ensures Holds(ActiveEntries(words)) && fresh(current) && fresh(current.repr)
      ensures version == (old(version) + 1) % TWO_TO_THE_64
    {
      hide TriePaths, WordsEnding, CountNonempty, ActiveEntries, AhoCorasick.Linked;
      var entries := SelectActive(words);
      current := new AhoCorasick(entries, normalize);
      version := (version + 1) % TWO_TO_THE_64;
    }

    method Match(text: Runes) returns (matches: seq<MatchItem>, normalized: Runes)
      requires current.Linked()
      ensures normalized == normalize(text)
      ensures matches == Search(current.words, normalized)
    {
      normalized := normalize(text);
      ghost var hops, depth;
      matches, hops, depth := current.SearchNormalized(normalized);
    }
  }
}
