/** What the reference search means, in terms of the entries and the text alone: which hits there are, what
    they say, how often, and in which order. Together these statements determine the result list. */
module SearchMeaning {
  import opened Vocabulary
  import opened NaiveSearch

  /** The hits of one window, in the order in which they are listed. */
  function Window(results: seq<MatchItem>, j: int, i: int): seq<MatchItem> {
    if results == [] then [] else
      Window(Init(results), j, i)
      + if Last(results).position == j && Last(results).endPos == i then [Last(results)] else []
  }

  /** By ascending end position, and for one end position the longest hit first. */
  ghost predicate InScanOrder(results: seq<MatchItem>) {
    forall a, b | 0 <= a < b < |results| ::
      || results[a].endPos < results[b].endPos
      || (results[a].endPos == results[b].endPos && results[a].position <= results[b].position)
  }

  /** The hits of every window are the words spelled there, once per inserted entry, in insertion order. */
  ghost predicate ListsEveryWindow(words: seq<Word>, text: Runes, results: seq<MatchItem>) {
    forall j, i :: Window(results, j, i)
      == if 0 <= j < i <= |text| then ItemsAt(WordsEqualTo(words, text[j..i]), i) else []
  }

  lemma {:induction false} WindowOfConcat(a: seq<MatchItem>, b: seq<MatchItem>, j: int, i: int)
    ensures Window(a + b, j, i) == Window(a, j, i) + Window(b, j, i)
  {
    if b == [] {
      assert a + b == a;
    } else {
      assert Init(a + b) == a + Init(b) && Last(a + b) == Last(b);
      WindowOfConcat(a, Init(b), j, i);
    }
  }

  lemma {:induction false} WindowMembers(results: seq<MatchItem>, j: int, i: int)
    ensures forall m :: m in Window(results, j, i) <==> m in results && m.position == j && m.endPos == i
  {
    if results != [] {
      WindowMembers(Init(results), j, i);
      assert results == Init(results) + [Last(results)];
    }
  }

  lemma {:induction false} WindowAll(results: seq<MatchItem>, j: int, i: int)
    requires forall k | 0 <= k < |results| :: results[k].position == j && results[k].endPos == i
    ensures Window(results, j, i) == results
  {
    if results != [] {
      WindowAll(Init(results), j, i);
    }
  }

  lemma {:induction false} WindowNone(results: seq<MatchItem>, j: int, i: int)
    requires forall k | 0 <= k < |results| :: results[k].position != j || results[k].endPos != i
    ensures Window(results, j, i) == []
  {
    if results != [] {
      WindowNone(Init(results), j, i);
    }
  }

  lemma {:induction false} LengthOfEqual(words: seq<Word>, s: Runes)
    ensures forall m <- WordsEqualTo(words, s) :: m.length == |s| > 0
  {
    if words != [] {
      LengthOfEqual(Init(words), s);
    }
  }

  lemma {:induction false} LengthOfEnding(words: seq<Word>, s: Runes)
    ensures forall m <- WordsEnding(words, s) :: 0 < m.length <= |s|
  {
    if s != [] {
      LengthOfEqual(words, s);
      LengthOfEnding(words, s[1..]);
    }
  }

  /** The block reported at one end position, window by window. */
  lemma {:induction false} WindowOfEnding(words: seq<Word>, text: Runes, o: nat, j: int)
    requires o <= |text|
    ensures Window(ItemsAt(WordsEnding(words, text[o..]), |text|), j, |text|)
         == if o <= j < |text| then ItemsAt(WordsEqualTo(words, text[j..]), |text|) else []
    decreases |text| - o
  {
    var n, s := |text|, text[o..];
    if s != [] {
      assert s[1..] == text[o + 1..];
      var own, rest := WordsEqualTo(words, s), WordsEnding(words, s[1..]);
      assert ItemsAt(own + rest, n) == ItemsAt(own, n) + ItemsAt(rest, n);
      WindowOfConcat(ItemsAt(own, n), ItemsAt(rest, n), j, n);
      LengthOfEqual(words, s);
      WindowOfEnding(words, text, o + 1, j);
      if j == o {
        WindowAll(ItemsAt(own, n), j, n);
      } else {
        WindowNone(ItemsAt(own, n), j, n);
      }
    }
  }

  lemma {:induction false} EndsWithin(words: seq<Word>, text: Runes)
    ensures forall m | m in Search(words, text) :: 0 <= m.position < m.endPos <= |text|
  {
    if text != [] {
      EndsWithin(words, Init(text));
      LengthOfEnding(words, text);
    }
  }

  lemma {:induction false} SearchListsEveryWindow(words: seq<Word>, text: Runes)
    ensures ListsEveryWindow(words, text, Search(words, text))
  {
    if text != [] {
      SearchListsEveryWindow(words, Init(text));
      forall j, i ensures Window(Search(words, text), j, i)
        == if 0 <= j < i <= |text| then ItemsAt(WordsEqualTo(words, text[j..i]), i) else []
      {
        WindowOfSearch(words, text, j, i);
      }
    }
  }

  lemma EarlierWindow(words: seq<Word>, text: Runes, j: int, i: int)
    requires text != [] && ListsEveryWindow(words, Init(text), Search(words, Init(text)))
    ensures Window(Search(words, Init(text)), j, i)
         == if 0 <= j < i < |text| then ItemsAt(WordsEqualTo(words, text[j..i]), i) else []
  {
    hide Window, Search, WordsEqualTo;
    assert 0 <= j < i < |text| ==> Init(text)[j..i] == text[j..i];
  }

  lemma WindowOfSearch(words: seq<Word>, text: Runes, j: int, i: int)
    requires text != [] && ListsEveryWindow(words, Init(text), Search(words, Init(text)))
    ensures Window(Search(words, text), j, i)
         == if 0 <= j < i <= |text| then ItemsAt(WordsEqualTo(words, text[j..i]), i) else []
  {
    hide WordsEnding, WordsEqualTo, Search, Window, ListsEveryWindow;
    EarlierWindow(words, text, j, i);
    LatestWindow(words, text, j, i);
    SearchGrows(words, text);
    WindowOfConcat(Search(words, Init(text)), ItemsAt(WordsEnding(words, text), |text|), j, i);
  }

  lemma SearchGrows(words: seq<Word>, text: Runes)
    requires text != []
    ensures Search(words, text) == Search(words, Init(text)) + ItemsAt(WordsEnding(words, text), |text|)
  {
    hide WordsEnding;
  }

  lemma LatestWindow(words: seq<Word>, text: Runes, j: int, i: int)
    ensures Window(ItemsAt(WordsEnding(words, text), |text|), j, i)
         == if i == |text| && 0 <= j < i then ItemsAt(WordsEqualTo(words, text[j..i]), i) else []
  {
    hide WordsEnding, WordsEqualTo, Window;
    if i == |text| {
      WindowOfEnding(words, text, 0, j);
      assert text[0..] == text;
      assert 0 <= j < i ==> text[j..i] == text[j..];
    } else {
      WindowNone(ItemsAt(WordsEnding(words, text), |text|), j, i);
    }
  }

  lemma {:induction false} SearchInScanOrder(words: seq<Word>, text: Runes)
    ensures InScanOrder(Search(words, text))
  {
    if text != [] {
      SearchInScanOrder(words, Init(text));
      EndsWithin(words, Init(text));
      EndingInScanOrder(words, text, |text|);
    }
  }

  lemma {:induction false} EndingInScanOrder(words: seq<Word>, s: Runes, n: nat)
    ensures InScanOrder(ItemsAt(WordsEnding(words, s), n))
  {
    if s != [] {
      LengthOfEqual(words, s);
      LengthOfEnding(words, s[1..]);
      EndingInScanOrder(words, s[1..], n);
      var own, rest := WordsEqualTo(words, s), WordsEnding(words, s[1..]);
      assert ItemsAt(own + rest, n) == ItemsAt(own, n) + ItemsAt(rest, n);
    }
  }

  lemma LastsAgree(a: seq<MatchItem>, b: seq<MatchItem>)
    requires InScanOrder(a) && InScanOrder(b) && (a != [] || b != [])
    requires forall j, i :: Window(a, j, i) == Window(b, j, i)
    ensures a != [] && b != [] && Last(a) == Last(b)
  {
    if a != [] {
      LastWindowDecides(a, b);
    }
    LastWindowDecides(b, a);
    LastWindowDecides(a, b);
    var j, i := Last(a).position, Last(a).endPos;
    assert Last(Window(a, j, i)) == Last(a) && Last(Window(b, j, i)) == Last(b);
  }

  lemma InitWindows(a: seq<MatchItem>, b: seq<MatchItem>, j: int, i: int)
    requires a != [] && b != [] && Last(a) == Last(b) && Window(a, j, i) == Window(b, j, i)
    ensures Window(Init(a), j, i) == Window(Init(b), j, i)
  {
    var wa, wb := Window(Init(a), j, i), Window(Init(b), j, i);
    if Last(a).position == j && Last(a).endPos == i {
      assert (wa + [Last(a)])[..|wa|] == wa && (wb + [Last(b)])[..|wb|] == wb;
    } else {
      assert wa + [] == wa && wb + [] == wb;
    }
  }

  /** A list in scan order is determined by its windows. */
  lemma {:induction false} WindowsDetermine(a: seq<MatchItem>, b: seq<MatchItem>)
    requires InScanOrder(a) && InScanOrder(b)
    requires forall j, i :: Window(a, j, i) == Window(b, j, i)
    ensures a == b
  {
    hide Window;
    if a == [] && b == [] {
    } else {
      LastsAgree(a, b);
      forall j', i' ensures Window(Init(a), j', i') == Window(Init(b), j', i') {
        InitWindows(a, b, j', i');
      }
      WindowsDetermine(Init(a), Init(b));
      assert a == Init(a) + [Last(a)] && b == Init(b) + [Last(b)];
    }
  }

  /** The last hit of one list is not later than the last hit of the other. */
  lemma LastWindowDecides(a: seq<MatchItem>, b: seq<MatchItem>)
    requires InScanOrder(a) && InScanOrder(b) && a != []
    requires forall j, i :: Window(a, j, i) == Window(b, j, i)
    ensures b != []
    ensures Last(a).endPos < Last(b).endPos
         || (Last(a).endPos == Last(b).endPos && Last(a).position <= Last(b).position)
  {
    var j, i := Last(a).position, Last(a).endPos;
    WindowMembers(a, j, i);
    WindowMembers(b, j, i);
    assert Last(a) in Window(a, j, i);
    assert Last(a) in b;
  }

  lemma SearchIsFixed(words: seq<Word>, text: Runes, results: seq<MatchItem>)
    ensures InScanOrder(results) && ListsEveryWindow(words, text, results) <==> results == Search(words, text)
  {
    SearchListsEveryWindow(words, text);
    SearchInScanOrder(words, text);
    if InScanOrder(results) && ListsEveryWindow(words, text, results) {
      WindowsDetermine(results, Search(words, text));
    }
  }

  /** Word `k` occupies the window [j, i) of the text. */
  ghost predicate Occurs(words: seq<Word>, text: Runes, k: int, j: int, i: int) {
    0 <= k < |words| && 0 <= j < i <= |text| && words[k].runes == text[j..i]
  }

  lemma {:induction false} EqualMembers(words: seq<Word>, s: Runes)
    ensures forall m :: m in WordsEqualTo(words, s)
                   <==> s != [] && exists k :: 0 <= k < |words| && words[k].runes == s && m == MetaOf(words[k])
  {
    if words != [] {
      EqualMembers(Init(words), s);
      forall m, k | 0 <= k < |words| && words[k].runes == s && m == MetaOf(words[k]) && s != []
        ensures m in WordsEqualTo(words, s)
      {
        if k < |words| - 1 {
          assert Init(words)[k] == words[k];
        }
      }
    }
  }

  lemma HitInWindow(words: seq<Word>, text: Runes, m: MatchItem)
    ensures m in Search(words, text) <==>
            && 0 <= m.position < m.endPos <= |text|
            && m in ItemsAt(WordsEqualTo(words, text[m.position..m.endPos]), m.endPos)
  {
    hide Search, WordsEqualTo, Window;
    SearchListsEveryWindow(words, text);
    WindowMembers(Search(words, text), m.position, m.endPos);
    assert m in Search(words, text) <==> m in Window(Search(words, text), m.position, m.endPos);
  }

  lemma ItemMembers(metas: seq<WordMeta>, i: nat, m: MatchItem)
    ensures m in ItemsAt(metas, i) <==> exists x :: x in metas && m == ItemAt(x, i)
  {
    if m in ItemsAt(metas, i) {
      var k :| 0 <= k < |metas| && ItemsAt(metas, i)[k] == m;
      assert metas[k] in metas;
    }
    forall x | x in metas && m == ItemAt(x, i) ensures m in ItemsAt(metas, i) {
      var k :| 0 <= k < |metas| && metas[k] == x;
      assert ItemsAt(metas, i)[k] == m;
    }
  }

  /** A hit is reported exactly when some entry occurs in its window. */
  lemma HitsAreOccurrences(words: seq<Word>, text: Runes, m: MatchItem)
    ensures m in Search(words, text) <==>
            exists k, j, i :: Occurs(words, text, k, j, i) && m == ItemAt(MetaOf(words[k]), i)
  {
    hide Search, WordsEqualTo;
    HitInWindow(words, text, m);
    var j, i := m.position, m.endPos;
    if 0 <= j < i <= |text| {
      ItemMembers(WordsEqualTo(words, text[j..i]), i, m);
      EqualMembers(words, text[j..i]);
    }
    if m in Search(words, text) {
      var x :| x in WordsEqualTo(words, text[j..i]) && m == ItemAt(x, i);
      var k :| 0 <= k < |words| && words[k].runes == text[j..i] && x == MetaOf(words[k]);
      assert Occurs(words, text, k, j, i);
    }
    forall k, j', i' | Occurs(words, text, k, j', i') && m == ItemAt(MetaOf(words[k]), i')
      ensures m in Search(words, text)
    {
      assert j' == j && i' == i && MetaOf(words[k]) in WordsEqualTo(words, text[j..i]);
    }
  }

  /** A hit is reported exactly when some entry occurs in its window; it carries that entry's own text,
      category and level. */
  lemma SearchFindsOccurrences(words: seq<Word>, text: Runes, m: MatchItem)
    ensures m in Search(words, text) <==>
      exists k, j, i :: Occurs(words, text, k, j, i)
        && m == MatchItem(words[k].entry.text, j, i, words[k].entry.category, words[k].entry.level)
  {
    hide Search;
    HitsAreOccurrences(words, text, m);
    forall k, j, i | Occurs(words, text, k, j, i)
      ensures ItemAt(MetaOf(words[k]), i)
           == MatchItem(words[k].entry.text, j, i, words[k].entry.category, words[k].entry.level)
    {
    }
  }

  // ---- Order and multiplicity ----

  /** `items` are the hits of the window [j, i): one for each entry spelled there, the entries being
      those with the indices `ks`, in insertion order. */
  ghost predicate ListsEntries(words: seq<Word>, text: Runes, j: int, i: int, items: seq<MatchItem>, ks: seq<nat>) {
    && |ks| == |items|
    && (forall k: nat :: k in ks <==> Occurs(words, text, k, j, i))
    && Increasing(ks)
    && forall x | 0 <= x < |ks| :: ks[x] < |words| &&
         items[x] == MatchItem(words[ks[x]].entry.text, j, i, words[ks[x]].entry.category, words[ks[x]].entry.level)
  }

  /** What the naive search over the entries returns, said of the list itself. */
  ghost predicate IsNaiveResult(words: seq<Word>, text: Runes, results: seq<MatchItem>) {
    InScanOrder(results) && forall j, i :: WindowIsRight(words, text, results, j, i)
  }

  ghost predicate WindowIsRight(words: seq<Word>, text: Runes, results: seq<MatchItem>, j: int, i: int) {
    exists ks :: ListsEntries(words, text, j, i, Window(results, j, i), ks)
  }

  /** The indices of the entries spelled by `s`. */
  function Spelled(words: seq<Word>, s: Runes): (ks: seq<nat>)
    ensures forall x | 0 <= x < |ks| :: ks[x] < |words|
  {
    if words == [] then [] else
      Spelled(Init(words), s) + if Last(words).runes == s then [|words| - 1] else []
  }

  lemma {:induction false} SpelledMembers(words: seq<Word>, s: Runes, k: nat)
    ensures k in Spelled(words, s) <==> k < |words| && words[k].runes == s
  {
    if words != [] {
      SpelledMembers(Init(words), s, k);
    }
  }

  lemma {:induction false} SpelledIncreases(words: seq<Word>, s: Runes)
    ensures Increasing(Spelled(words, s))
  {
    if words != [] {
      SpelledIncreases(Init(words), s);
    }
  }

  lemma {:induction false} SpelledMetas(words: seq<Word>, s: Runes)
    requires s != []
    ensures |Spelled(words, s)| == |WordsEqualTo(words, s)|
    ensures forall x | 0 <= x < |Spelled(words, s)| :: WordsEqualTo(words, s)[x] == MetaOf(words[Spelled(words, s)[x]])
  {
    if words != [] {
      hide MetaOf;
      SpelledMetas(Init(words), s);
      var before := Spelled(Init(words), s);
      assert forall x | 0 <= x < |before| :: Init(words)[before[x]] == words[before[x]];
    }
  }

  ghost predicate Increasing(a: seq<nat>) {
    forall x, y | 0 <= x < y < |a| :: a[x] < a[y]
  }

  lemma WindowListsEntries(words: seq<Word>, text: Runes, j: int, i: int) returns (ks: seq<nat>)
    ensures ListsEntries(words, text, j, i, Window(Search(words, text), j, i), ks)
  {
    hide Search, Window, WordsEqualTo, Spelled;
    SearchListsEveryWindow(words, text);
    if 0 <= j < i <= |text| {
      ks := Spelled(words, text[j..i]);
      SpelledIncreases(words, text[j..i]);
      SpelledMetas(words, text[j..i]);
      forall k: nat ensures k in ks <==> Occurs(words, text, k, j, i) {
        SpelledMembers(words, text[j..i], k);
      }
      forall x | 0 <= x < |ks| ensures words[ks[x]].runes == text[j..i] {
        assert ks[x] in ks;
      }
    } else {
      ks := [];
    }
  }

  lemma HasMember(a: seq<nat>)
    requires a != []
    ensures exists k: nat :: k in a
  {
    assert a[0] in a;
  }

  lemma BelowLast(a: seq<nat>, k: nat)
    requires Increasing(a) && a != []
    ensures Increasing(Init(a)) && Last(a) in a
    ensures k in a ==> k <= Last(a)
    ensures k in Init(a) <==> k in a && k != Last(a)
  {
    assert a == Init(a) + [Last(a)];
  }

  /** An increasing sequence is determined by its members. */
  lemma {:induction false} IncreasingIsUnique(a: seq<nat>, b: seq<nat>)
    requires Increasing(a) && Increasing(b) && forall k: nat :: k in a <==> k in b
    ensures a == b
  {
    if a == [] || b == [] {
      if a != [] {
        HasMember(a);
      } else if b != [] {
        HasMember(b);
      }
    } else {
      hide Increasing;
      BelowLast(a, Last(b));
      BelowLast(b, Last(a));
      forall k: nat ensures k in Init(a) <==> k in Init(b) {
        BelowLast(a, k);
        BelowLast(b, k);
      }
      IncreasingIsUnique(Init(a), Init(b));
      assert a == Init(a) + [Last(a)] && b == Init(b) + [Last(b)];
    }
  }

  lemma ListsEntriesIsUnique(words: seq<Word>, text: Runes, j: int, i: int,
                             items: seq<MatchItem>, ks: seq<nat>, items': seq<MatchItem>, ks': seq<nat>)
    requires ListsEntries(words, text, j, i, items, ks) && ListsEntries(words, text, j, i, items', ks')
    ensures items == items'
  {
    IncreasingIsUnique(ks, ks');
  }

  /** The search returns exactly the naive result: by ascending end, longest first, and in every window one
      hit for each entry spelled there, duplicates included, in insertion order. */
  lemma SearchIsDetermined(words: seq<Word>, text: Runes, results: seq<MatchItem>)
    ensures IsNaiveResult(words, text, results) <==> results == Search(words, text)
  {
    hide Search, Window, InScanOrder, ListsEntries;
    SearchIsNaive(words, text);
    if IsNaiveResult(words, text, results) {
      forall j, i ensures Window(results, j, i) == Window(Search(words, text), j, i) {
        assert WindowIsRight(words, text, results, j, i);
        var ks :| ListsEntries(words, text, j, i, Window(results, j, i), ks);
        var own := WindowListsEntries(words, text, j, i);
        ListsEntriesIsUnique(words, text, j, i, Window(results, j, i), ks, Window(Search(words, text), j, i), own);
      }
      WindowsDetermine(results, Search(words, text));
    }
  }

  lemma SearchIsNaive(words: seq<Word>, text: Runes)
    ensures IsNaiveResult(words, text, Search(words, text))
  {
    hide Search, Window, InScanOrder, ListsEntries;
    SearchInScanOrder(words, text);
    forall j, i ensures WindowIsRight(words, text, Search(words, text), j, i) {
      var ks := WindowListsEntries(words, text, j, i);
    }
  }

  /** The entries with nonempty normal form. */
  function NonemptyOnes(words: seq<Word>): set<nat> {
    set k: nat | k < |words| && words[k].runes != []
  }

  lemma OneMoreNonempty(words: seq<Word>)
    requires words != []
    ensures NonemptyOnes(words)
         == NonemptyOnes(Init(words)) + if Last(words).runes == [] then {} else {|words| - 1}
    ensures |words| - 1 !in NonemptyOnes(Init(words))
  {
  }

  /** The word count of the automaton is the number of entries with nonempty normal form. */
  lemma {:induction false} CountsNonempty(words: seq<Word>)
    ensures CountNonempty(words) == |NonemptyOnes(words)|
  {
    if words == [] {
      assert NonemptyOnes(words) == {};
    } else {
      hide NonemptyOnes;
      CountsNonempty(Init(words));
      OneMoreNonempty(words);
    }
  }
}
