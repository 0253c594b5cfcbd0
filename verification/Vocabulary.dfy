/** The values that travel between the components of the filter.

    A rune sequence is a `string`: Dafny's `char` is a Unicode scalar value, which is what
    converting a Go string to `[]rune` yields. */
module Vocabulary {

  type Runes = string

  /** Text normalisation is a parameter of the model: any total function on rune sequences. */
  type Normalizer = Runes -> Runes

  datatype Option<+T> = None | Some(value: T)

  /** A word handed to the automaton. */
  datatype WordEntry = WordEntry(text: Runes, category: string, level: int)

  /** An entry together with its normalised runes. */
  datatype Word = Word(runes: Runes, entry: WordEntry)

  /** What a trie node remembers about a word that ends there. */
  datatype WordMeta = WordMeta(text: Runes, length: nat, category: string, level: int)

  /** One hit: the word and the rune window [position, endPos) it occupies. */
  datatype MatchItem = MatchItem(word: Runes, position: int, endPos: int, category: string, level: int)

  function Normalized(normalize: Normalizer, entries: seq<WordEntry>): (words: seq<Word>)
    ensures |words| == |entries|
    ensures forall k | 0 <= k < |entries| :: words[k] == Word(normalize(entries[k].text), entries[k])
  {
    seq(|entries|, k requires 0 <= k < |entries| => Word(normalize(entries[k].text), entries[k]))
  }

  /** All but the last element. */
  function Init<T>(s: seq<T>): seq<T>
    requires s != []
  {
    s[..|s| - 1]
  }

  function Last<T>(s: seq<T>): T
    requires s != []
  {
    s[|s| - 1]
  }

  /** The path one rune further down. */
  function Snoc(p: Runes, r: char): (q: Runes)
    ensures q != [] && Init(q) == p && Last(q) == r
  {
    p + [r]
  }
}
