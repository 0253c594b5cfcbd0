/** The filter service: engine, strategies and cache key put together. */
module Filtering {
  import opened Vocabulary
  import opened NaiveSearch
  import opened SearchMeaning
  import opened Intervals
  import opened Masking
  import opened Highlighting
  import opened FilterEngine
  import opened CacheKey

  datatype Response = Response(original: Runes, filtered: Runes, isHit: bool, hitCount: nat,
                               matches: seq<MatchItem>, riskLevel: int)

  function MaxLevel(matches: seq<MatchItem>): int {
    if matches == [] then 0 else
      var before := MaxLevel(Init(matches));
      if Last(matches).level > before then Last(matches).level else before
  }

  method MaxRiskLevel(matches: seq<MatchItem>) returns (max: int)
    ensures max == MaxLevel(matches)
    ensures forall m <- matches :: m.level <= max
    ensures max == 0 || exists m <- matches :: m.level == max
  {
    max := 0;
    for i := 0 to |matches|
      invariant max == MaxLevel(matches[..i])
      invariant forall x | 0 <= x < i :: matches[x].level <= max
      invariant max == 0 || exists m <- matches :: m.level == max
    {
      assert Init(matches[..i + 1]) == matches[..i];
      if matches[i].level > max {
        max := matches[i].level;
      }
    }
    assert matches[..|matches|] == matches;
  }

  const MASK := '*'

  function Filtered(strategy: string, original: Runes, normalized: Runes, matches: seq<MatchItem>): Runes
    requires forall iv <- UnionOf(matches) :: 0 <= iv.start && 0 <= iv.end
  {
    if matches == [] || strategy == "detect" then original
    else if strategy == "replace" then Masked(Target(original, normalized), matches, MASK)
    else Render(Target(original, normalized), 0, UnionOf(matches))
  }

  lemma UnionOfHits(words: seq<Word>, text: Runes)
    ensures AllNonempty(Search(words, text)) && Canonical(UnionOf(Search(words, text)), Search(words, text))
    ensures Within(UnionOf(Search(words, text)), 0, |text|)
  {
    EndsWithin(words, text);
    UnionIsCanonical(Search(words, text), UnionOf(Search(words, text)));
    HitsWithin(words, text, UnionOf(Search(words, text)));
  }

  /** The answer for one text: what the naive search over the words finds, rewritten by the strategy. */
  function Respond(words: seq<Word>, normalized: Runes, strategy: string, text: Runes): Response {
    var matches := Search(words, normalized);
    UnionOfHits(words, normalized);
    Response(text, Filtered(strategy, text, normalized, matches), matches != [], |matches|, matches, MaxLevel(matches))
  }

  /** A hit is reported exactly when some active word occurs in the normalised text. */
  lemma HitIffWordOccurs(words: seq<Word>, normalized: Runes, strategy: string, text: Runes)
    ensures Respond(words, normalized, strategy, text).isHit
            <==> exists k, j, i :: Occurs(words, normalized, k, j, i)
  {
    var matches := Search(words, normalized);
    if matches != [] {
      HitsAreOccurrences(words, normalized, matches[0]);
    }
    forall k, j, i | Occurs(words, normalized, k, j, i) ensures matches != [] {
      HitsAreOccurrences(words, normalized, ItemAt(MetaOf(words[k]), i));
    }
  }

  /** What a caller is promised of a response, said without the way it is computed: `strategy` is the one
      that was applied, `words` the entries of the automaton. */
  ghost predicate IsAnswer(words: seq<Word>, normalized: Runes, strategy: string, text: Runes, r: Response) {
    var target := if |text| == |normalized| then text else normalized;
    && r.original == text && IsNaiveResult(words, normalized, r.matches)
    && (r.isHit <==> exists k, j, i :: Occurs(words, normalized, k, j, i))
    && r.hitCount == |r.matches| && IsLargestLevel(r.riskLevel, r.matches)
    && (!r.isHit || strategy == "detect" ==> r.filtered == text)
    && (r.isHit && strategy == "replace" ==> IsCensored(words, normalized, target, r.filtered))
    && (r.isHit && strategy == "highlight" ==> IsMarked(words, normalized, target, r.filtered))
  }

  /** Zero is the level of a text without hits. */
  ghost predicate IsLargestLevel(level: int, matches: seq<MatchItem>) {
    && level >= 0 && (forall m <- matches :: m.level <= level)
    && (level == 0 || exists m <- matches :: m.level == level)
  }

  ghost predicate InsideWord(words: seq<Word>, normalized: Runes, p: int) {
    exists k, j, i :: Occurs(words, normalized, k, j, i) && j <= p < i
  }

  /** A star over every position inside some word, the target's own rune elsewhere. */
  ghost predicate IsCensored(words: seq<Word>, normalized: Runes, target: Runes, out: Runes) {
    && |out| == |target|
    && forall p | 0 <= p < |out| :: out[p] == if InsideWord(words, normalized, p) then '*' else target[p]
  }

  /** It reads as the target with separated marks over exactly the positions inside some word. */
  ghost predicate IsMarked(words: seq<Word>, normalized: Runes, target: Runes, out: string) {
    && OnlyTags(out)
    && var d := Decode(out, 0, None);
       && d.Some? && d.value.runes == target && Separated(d.value.ivs)
       && forall p :: CoveredBy(d.value.ivs, p) <==> InsideWord(words, normalized, p)
  }

  lemma CensoredWell(words: seq<Word>, normalized: Runes, text: Runes)
    ensures var target := if |text| == |normalized| then text else normalized;
      IsCensored(words, normalized, target, Masked(Target(text, normalized), Search(words, normalized), MASK))
  {
    hide Search;
    var out := Masked(Target(text, normalized), Search(words, normalized), MASK);
    forall p | 0 <= p < |out| ensures Covered(Search(words, normalized), p) <==> InsideWord(words, normalized, p) {
      MaskedExactlyOccurrences(words, normalized, p);
    }
  }

  lemma MarkedWell(words: seq<Word>, normalized: Runes, text: Runes)
    ensures var target := if |text| == |normalized| then text else normalized;
      && (forall iv <- UnionOf(Search(words, normalized)) :: 0 <= iv.start && 0 <= iv.end)
      && IsMarked(words, normalized, target, Render(Target(text, normalized), 0, UnionOf(Search(words, normalized))))
  {
    hide Search, Render, Decode, OnlyTags, UnionOf, Covered, CoveredBy;
    UnionOfHits(words, normalized);
    var ivs := UnionOf(Search(words, normalized));
    HighlightRoundTrip(words, text, normalized, ivs);
    RenderIsSafe(Target(text, normalized), 0, ivs);
    forall p ensures CoveredBy(ivs, p) <==> InsideWord(words, normalized, p) {
      MaskedExactlyOccurrences(words, normalized, p);
    }
  }

  lemma {:induction false} MaxLevelIsLargest(matches: seq<MatchItem>)
    ensures IsLargestLevel(MaxLevel(matches), matches)
  {
    if matches != [] {
      MaxLevelIsLargest(Init(matches));
      assert matches == Init(matches) + [Last(matches)];
    }
  }

  /** Every response of the service keeps the promise. */
  lemma RespondIsAnswer(words: seq<Word>, normalized: Runes, strategy: string, text: Runes)
    requires StrategyName(strategy)
    ensures IsAnswer(words, normalized, strategy, text, Respond(words, normalized, strategy, text))
  {
    hide Search, Render, IsCensored, IsMarked, Masked, UnionOf, IsLargestLevel, IsNaiveResult;
    UnionOfHits(words, normalized);
    SearchIsDetermined(words, normalized, Search(words, normalized));
    HitIffWordOccurs(words, normalized, strategy, text);
    MaxLevelIsLargest(Search(words, normalized));
    CensoredWell(words, normalized, text);
    MarkedWell(words, normalized, text);
  }

  /** The requested strategy if it is valid, else detection. */
  function Chosen(strategy: string): string {
    if StrategyName(strategy) then strategy else "detect"
  }

  class FilterAppService {
    const engine: ACFilterEngine
    const strategies: set<string>  // the registered ones
    const hashOf: Runes -> nat

    constructor (engine: ACFilterEngine, strategies: set<string>, hashOf: Runes -> nat)
      ensures this.engine == engine && this.strategies == strategies && this.hashOf == hashOf
    {
      this.engine := engine;
      this.strategies := strategies;
      this.hashOf := hashOf;
    }

    /** `cached` is what the cache answers for the key. */
    method Filter(text: Runes, strategy: string, cached: Option<Response>)
        returns (response: Response, key: string, stored: bool)
      requires engine.current.Linked()
      requires Chosen(strategy) in strategies || "detect" in strategies
      ensures key == Key(if strategy in {"detect", "replace", "highlight"} then strategy else "detect",
                         engine.version, hashOf(text))
      ensures cached.None? ==>
        IsAnswer(engine.current.words, engine.normalize(text),
                 if strategy in {"detect", "replace", "highlight"} && strategy in strategies then strategy
                 else "detect",
                 text, response)
      ensures stored == cached.None?
      ensures response == if cached.Some? then cached.value else
        Respond(engine.current.words, engine.normalize(text),
                if Chosen(strategy) in strategies then Chosen(strategy) else "detect", text)
    {
      var strategyType := "detect";
      if strategy != "" && StrategyName(strategy) {
        strategyType := strategy;
      }
      var engineVersion := engine.version;
      key := FilterCacheKey(text, hashOf, strategyType, engineVersion);
      if cached.Some? {
        return cached.value, key, false;
      }
      var matches, normalized := engine.Match(text);
      var applied := if strategyType in strategies then strategyType else "detect";
      response := Apply(engine.current.words, applied, text, normalized, matches);
      RespondIsAnswer(engine.current.words, normalized, applied, text);
      stored := true;
    }
  }

  /** One of the three strategies, on the automaton's hits. */
  method Apply(ghost words: seq<Word>, strategy: string, original: Runes, normalized: Runes, matches: seq<MatchItem>)
      returns (response: Response)
    requires matches == Search(words, normalized) && StrategyName(strategy)
    ensures response == Respond(words, normalized, strategy, original)
  {
    hide Search, UnionOf, MaxLevel, Render;
    EndsWithin(words, normalized);
    UnionOfHits(words, normalized);
    var filtered := original;
    if strategy == "replace" {
      filtered := ReplaceMatches(original, normalized, matches, MASK);
    } else if strategy == "highlight" {
      filtered := HighlightMatches(original, normalized, matches);
    }
    var level := MaxRiskLevel(matches);
    response := Response(original, filtered, |matches| > 0, |matches|, matches, level);
  }
}
