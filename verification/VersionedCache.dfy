/** Readers of the versioned result cache, running while the engine is rebuilt. The engine publishes
    the automaton and the version in two steps; a reader takes the version, asks the cache, matches
    and stores in four. */
module VersionedCache {
  import opened Vocabulary
  import opened CacheKey
  import opened Filtering
  import opened SearchMeaning

  datatype Phase =
    | Begun
    | Asking(version: nat)
    | Missed(version: nat)
    | Matched(version: nat, gen: nat)
    | Returned(gen: nat, madeFor: Runes)

  /** `begunAt` is the number of rebuilds that had finished when the reader began. */
  datatype Reader = Reader(text: Runes, strategy: string, begunAt: nat, phase: Phase, answer: Option<Response>)

  /** A cached answer; beside the key it remembers what the answer was computed from. */
  datatype Entry = Entry(key: string, answer: Response, text: Runes, strategy: string, version: nat, gen: nat)

  /** What does not change: normalisation and the text hash. */
  datatype Env = Env(normalize: Normalizer, hashOf: Runes -> nat)

  /** `dicts[g]` is the word list of the g-th automaton, the last one being current. `cache` holds every
      answer ever stored: a lookup may return any of them under its key, or miss. */
  datatype State = State(dicts: seq<seq<Word>>, version: nat, cache: set<Entry>, readers: map<nat, Reader>)

  function AnswerOf(env: Env, words: seq<Word>, strategy: string, text: Runes): Response {
    Respond(words, env.normalize(text), strategy, text)
  }

  /** Some rebuilds are done, nothing is cached and nobody is reading. */
  ghost predicate Start(s: State) {
    Published(s) && s.cache == {} && s.readers == map[]
  }

  /** No rebuild is half done. */
  ghost predicate Published(s: State) {
    |s.dicts| == s.version + 1
  }

  // ---- Steps of the engine; a mutex keeps rebuilds apart ----

  ghost predicate StoreAutomaton(s: State, t: State, words: seq<Word>) {
    |s.dicts| == s.version + 1 && t == s.(dicts := s.dicts + [words])
  }

  ghost predicate BumpVersion(s: State, t: State) {
    |s.dicts| == s.version + 2 && t == s.(version := s.version + 1)
  }

  // ---- Steps of a reader ----

  ghost predicate Begin(s: State, t: State, id: nat, text: Runes, strategy: string) {
    && id !in s.readers && StrategyName(strategy)
    && t == s.(readers := s.readers[id := Reader(text, strategy, s.version, Begun, None)])
  }

  ghost predicate TakeVersion(s: State, t: State, id: nat) {
    && id in s.readers && s.readers[id].phase.Begun?
    && t == s.(readers := s.readers[id := s.readers[id].(phase := Asking(s.version))])
  }

  function KeyOf(env: Env, r: Reader, version: nat): string {
    Key(r.strategy, version, env.hashOf(r.text))
  }

  ghost predicate CacheHit(env: Env, s: State, t: State, id: nat, e: Entry) {
    && id in s.readers && s.readers[id].phase.Asking?
    && e in s.cache && e.key == KeyOf(env, s.readers[id], s.readers[id].phase.version)
    && t == s.(readers := s.readers[id := s.readers[id].(phase := Returned(e.gen, e.text), answer := Some(e.answer))])
  }

  ghost predicate CacheMiss(s: State, t: State, id: nat) {
    && id in s.readers && s.readers[id].phase.Asking?
    && t == s.(readers := s.readers[id := s.readers[id].(phase := Missed(s.readers[id].phase.version))])
  }

  ghost predicate MatchText(env: Env, s: State, t: State, id: nat) {
    && id in s.readers && s.readers[id].phase.Missed? && s.dicts != []
    && var r := s.readers[id];
       t == s.(readers := s.readers[id := r.(phase := Matched(r.phase.version, |s.dicts| - 1),
                                             answer := Some(AnswerOf(env, Last(s.dicts), r.strategy, r.text)))])
  }

  ghost predicate StoreAnswer(env: Env, s: State, t: State, id: nat) {
    && id in s.readers && s.readers[id].phase.Matched? && s.readers[id].answer.Some?
    && var r := s.readers[id];
       var e := Entry(KeyOf(env, r, r.phase.version), r.answer.value, r.text, r.strategy, r.phase.version, r.phase.gen);
       t == s.(cache := s.cache + {e}, readers := s.readers[id := r.(phase := Returned(r.phase.gen, r.text))])
  }

  ghost predicate EngineStep(s: State, t: State) {
    (exists words :: StoreAutomaton(s, t, words)) || BumpVersion(s, t)
  }

  ghost predicate ReaderStep(env: Env, s: State, t: State, id: nat) {
    || (exists text, strategy :: Begin(s, t, id, text, strategy))
    || TakeVersion(s, t, id)
    || (exists e :: CacheHit(env, s, t, id, e))
    || CacheMiss(s, t, id)
    || MatchText(env, s, t, id)
    || StoreAnswer(env, s, t, id)
  }

  ghost predicate Step(env: Env, s: State, t: State) {
    EngineStep(s, t) || exists id :: ReaderStep(env, s, t, id)
  }

  ghost predicate Run(env: Env, trace: seq<State>) {
    trace != [] && Start(trace[0]) && forall i | 0 < i < |trace| :: Step(env, trace[i - 1], trace[i])
  }

  // ---- The invariant ----

  /** An entry under version N was computed by the automaton of rebuild N or a later one. */
  ghost predicate EntryOk(env: Env, s: State, e: Entry) {
    && StrategyName(e.strategy) && e.key == Key(e.strategy, e.version, env.hashOf(e.text))
    && e.version <= e.gen < |s.dicts| && e.answer == AnswerOf(env, s.dicts[e.gen], e.strategy, e.text)
  }

  ghost predicate ReaderOk(env: Env, s: State, r: Reader) {
    && StrategyName(r.strategy) && r.begunAt <= s.version
    && match r.phase
       case Begun => true
       case Asking(v) => r.begunAt <= v <= s.version
       case Missed(v) => r.begunAt <= v <= s.version
       case Matched(v, g) =>
         r.begunAt <= v <= g < |s.dicts| && r.answer == Some(AnswerOf(env, s.dicts[g], r.strategy, r.text))
       case Returned(g, text) =>
         && r.begunAt <= g < |s.dicts| && env.hashOf(text) == env.hashOf(r.text)
         && r.answer == Some(AnswerOf(env, s.dicts[g], r.strategy, text))
  }

  ghost predicate Inv(env: Env, s: State) {
    && s.version + 1 <= |s.dicts| <= s.version + 2
    && (forall e | e in s.cache :: EntryOk(env, s, e))
    && (forall id | id in s.readers :: ReaderOk(env, s, s.readers[id]))
  }

  lemma EngineStepKeepsInv(env: Env, s: State, t: State)
    requires Inv(env, s) && EngineStep(s, t)
    ensures Inv(env, t)
  {
    hide AnswerOf, Key, StrategyName;
    forall e | e in t.cache ensures EntryOk(env, t, e) {
      assert EntryOk(env, s, e);
    }
    forall id | id in t.readers ensures ReaderOk(env, t, t.readers[id]) {
      assert ReaderOk(env, s, s.readers[id]);
    }
  }

  /** The reader that moves is fine afterwards, and so is what it stores. */
  lemma ReaderStepIsOk(env: Env, s: State, t: State, id: nat)
    requires Inv(env, s) && ReaderStep(env, s, t, id)
    ensures id in t.readers && ReaderOk(env, t, t.readers[id])
    ensures t == s.(cache := t.cache, readers := s.readers[id := t.readers[id]])
    ensures forall e | e in t.cache && e !in s.cache :: EntryOk(env, t, e)
  {
    hide AnswerOf, Key, StrategyName;
    if id in s.readers {
      assert ReaderOk(env, s, s.readers[id]);
    }
    if e :| CacheHit(env, s, t, id, e) {
      assert EntryOk(env, s, e);
      var r := s.readers[id];
      KeyInjective(e.strategy, e.version, env.hashOf(e.text), r.strategy, r.phase.version, env.hashOf(r.text));
    }
  }

  lemma StepKeepsInv(env: Env, s: State, t: State)
    requires Inv(env, s) && Step(env, s, t)
    ensures Inv(env, t)
  {
    hide EngineStep, ReaderStep;
    if EngineStep(s, t) {
      EngineStepKeepsInv(env, s, t);
    } else {
      var id :| ReaderStep(env, s, t, id);
      ReaderStepIsOk(env, s, t, id);
      forall x | x in t.readers ensures ReaderOk(env, t, t.readers[x]) {
        assert x != id ==> ReaderOk(env, s, s.readers[x]);
      }
      forall e | e in t.cache ensures EntryOk(env, t, e) {
        assert e in s.cache ==> EntryOk(env, s, e);
      }
    }
  }

  lemma {:induction false} RunKeepsInv(env: Env, trace: seq<State>, i: nat)
    requires Run(env, trace) && i < |trace|
    ensures Inv(env, trace[i])
  {
    if i > 0 {
      RunKeepsInv(env, trace, i - 1);
      StepKeepsInv(env, trace[i - 1], trace[i]);
    }
  }

  /** In every interleaving: a reader that began after rebuild N had finished returns the answer that
      the automaton of rebuild N, or of a later one, gives to a text with the same hash. */
  lemma AnswersAreFresh(env: Env, trace: seq<State>, i: nat, id: nat)
    requires Run(env, trace) && i < |trace| && id in trace[i].readers && trace[i].readers[id].phase.Returned?
    ensures var r := trace[i].readers[id];
      exists g, text :: r.begunAt <= g < |trace[i].dicts| && env.hashOf(text) == env.hashOf(r.text)
                     && r.answer == Some(AnswerOf(env, trace[i].dicts[g], r.strategy, text))
  {
    RunKeepsInv(env, trace, i);
    assert ReaderOk(env, trace[i], trace[i].readers[id]);
  }

  ghost predicate DistinctHashes(env: Env, s: State) {
    forall x, y | x in s.readers && y in s.readers && env.hashOf(s.readers[x].text) == env.hashOf(s.readers[y].text) ::
      s.readers[x].text == s.readers[y].text
  }

  lemma AnswerIsRight(env: Env, s: State, id: nat)
    requires Inv(env, s) && TextsKnown(s) && DistinctHashes(env, s)
    requires id in s.readers && s.readers[id].phase.Returned?
    ensures var r := s.readers[id];
      && r.begunAt <= r.phase.gen < |s.dicts|
      && r.answer == Some(AnswerOf(env, s.dicts[r.phase.gen], r.strategy, r.text))
  {
    hide AnswerOf;
    assert ReaderOk(env, s, s.readers[id]);
  }

  /** With distinct hashes it is the answer to the reader's own text. */
  lemma AnswersAreRight(env: Env, trace: seq<State>, i: nat, id: nat)
    requires Run(env, trace) && i < |trace| && id in trace[i].readers && trace[i].readers[id].phase.Returned?
    requires DistinctHashes(env, trace[i])
    ensures var r := trace[i].readers[id];
      exists g :: r.begunAt <= g < |trace[i].dicts|
               && r.answer == Some(AnswerOf(env, trace[i].dicts[g], r.strategy, r.text))
  {
    RunKeepsInv(env, trace, i);
    RunKeepsTexts(env, trace, i);
    AnswerIsRight(env, trace[i], id);
  }

  /** So every response, cached or not, is a full answer in the sense of the filter service. */
  lemma AnswersAreComplete(env: Env, s: State, id: nat)
    requires Inv(env, s) && TextsKnown(s) && DistinctHashes(env, s)
    requires id in s.readers && s.readers[id].phase.Returned?
    ensures var r := s.readers[id];
      exists g :: r.begunAt <= g < |s.dicts| && r.answer.Some?
               && IsAnswer(s.dicts[g], env.normalize(r.text), r.strategy, r.text, r.answer.value)
  {
    hide IsAnswer, TextsKnown, DistinctHashes;
    AnswerIsRight(env, s, id);
    var r := s.readers[id];
    assert ReaderOk(env, s, r);
    RespondIsAnswer(s.dicts[r.phase.gen], env.normalize(r.text), r.strategy, r.text);
  }

  /** So the promise of the filter survives rebuilds and caching: a reader is told of a hit exactly when
      a word of some list that was not outdated when the reader began occurs in its normalised text. */
  lemma HitsMeanOccurrences(env: Env, trace: seq<State>, i: nat, id: nat)
    requires Run(env, trace) && i < |trace| && id in trace[i].readers && trace[i].readers[id].phase.Returned?
    requires DistinctHashes(env, trace[i])
    ensures var r := trace[i].readers[id];
      exists g :: r.begunAt <= g < |trace[i].dicts| && r.answer.Some? &&
        (r.answer.value.isHit <==> exists k, j, e :: Occurs(trace[i].dicts[g], env.normalize(r.text), k, j, e))
  {
    hide Run, Occurs;
    AnswersAreRight(env, trace, i, id);
    var r := trace[i].readers[id];
    var g :| r.begunAt <= g < |trace[i].dicts|
             && r.answer == Some(AnswerOf(env, trace[i].dicts[g], r.strategy, r.text));
    HitIffWordOccurs(trace[i].dicts[g], env.normalize(r.text), r.strategy, r.text);
  }

  ghost predicate TextOfReader(s: State, text: Runes) {
    exists x :: x in s.readers && s.readers[x].text == text
  }

  /** Every answer in play was computed for the text of some reader. */
  ghost predicate TextsKnown(s: State) {
    && (forall e | e in s.cache :: TextOfReader(s, e.text))
    && (forall id | id in s.readers && s.readers[id].phase.Returned? ::
          TextOfReader(s, s.readers[id].phase.madeFor))
  }

  lemma {:induction false} RunKeepsTexts(env: Env, trace: seq<State>, i: nat)
    requires Run(env, trace) && i < |trace|
    ensures TextsKnown(trace[i])
  {
    if i > 0 {
      RunKeepsTexts(env, trace, i - 1);
      StepKeepsTexts(env, trace[i - 1], trace[i]);
    }
  }

  lemma StepKeepsTexts(env: Env, s: State, t: State)
    requires TextsKnown(s) && Step(env, s, t)
    ensures TextsKnown(t)
  {
    if !EngineStep(s, t) {
      var id :| ReaderStep(env, s, t, id);
      ReaderStepKeepsTexts(env, s, t, id);
    }
  }

  lemma ReaderStepKeepsTexts(env: Env, s: State, t: State, id: nat)
    requires TextsKnown(s) && ReaderStep(env, s, t, id)
    ensures TextsKnown(t)
  {
    hide AnswerOf, Key, StrategyName, TextOfReader;
    forall text | TextOfReader(s, text) || (id in s.readers && text == s.readers[id].text)
      ensures TextOfReader(t, text)
    {
      OneReaderMoved(env, s, t, id, text);
    }
  }

  lemma OneReaderMoved(env: Env, s: State, t: State, id: nat, text: Runes)
    requires ReaderStep(env, s, t, id) && (TextOfReader(s, text) || (id in s.readers && text == s.readers[id].text))
    ensures TextOfReader(t, text)
  {
    hide AnswerOf, Key, StrategyName;
    var x :| x in s.readers && s.readers[x].text == text;
    assert x in t.readers && t.readers[x].text == text;
  }

  // ---- What the cache is for ----

  /** A rebuild that nothing interrupts publishes its automaton under the next version. */
  lemma RebuildPublishes(s: State, t: State, u: State, words: seq<Word>)
    requires Published(s) && StoreAutomaton(s, t, words) && BumpVersion(t, u)
    ensures Published(u) && u.version == s.version + 1 && u.dicts == s.dicts + [words]
    ensures u.cache == s.cache && u.readers == s.readers
  {
  }

  /** The states of a reader that runs alone and misses. */
  function MissRun(env: Env, s: State, id: nat, text: Runes, strategy: string): seq<State>
    requires s.dicts != []
  {
    var r := Reader(text, strategy, s.version, Begun, None);
    var gen, answer := |s.dicts| - 1, AnswerOf(env, Last(s.dicts), strategy, text);
    var e := Entry(Key(strategy, s.version, env.hashOf(text)), answer, text, strategy, s.version, gen);
    [s,
     s.(readers := s.readers[id := r]),
     s.(readers := s.readers[id := r.(phase := Asking(s.version))]),
     s.(readers := s.readers[id := r.(phase := Missed(s.version))]),
     s.(readers := s.readers[id := r.(phase := Matched(s.version, gen), answer := Some(answer))]),
     s.(cache := s.cache + {e}, readers := s.readers[id := r.(phase := Returned(gen, text), answer := Some(answer))])]
  }

  /** A reader alone, on a miss, answers with the current automaton and leaves its answer in the cache under
      the current version. */
  lemma MissIsAnsweredAndStored(env: Env, s: State, id: nat, text: Runes, strategy: string)
    requires s.dicts != [] && id !in s.readers && StrategyName(strategy)
    ensures var trace := MissRun(env, s, id, text, strategy);
      var t := Last(trace);
      && trace[0] == s && (forall i | 0 < i < |trace| :: Step(env, trace[i - 1], trace[i]))
      && id in t.readers && t.readers[id].phase.Returned?
      && t.readers[id].answer == Some(AnswerOf(env, Last(s.dicts), strategy, text))
      && exists e :: e in t.cache && e.key == Key(strategy, s.version, env.hashOf(text))
                  && e.answer == AnswerOf(env, Last(s.dicts), strategy, text)
  {
    hide AnswerOf, Key, StrategyName;
    var trace := MissRun(env, s, id, text, strategy);
    assert Begin(trace[0], trace[1], id, text, strategy);
    assert TakeVersion(trace[1], trace[2], id);
    assert CacheMiss(trace[2], trace[3], id);
    assert trace[3].readers[id].phase == Missed(s.version);
    assert MatchText(env, trace[3], trace[4], id);
    assert StoreAnswer(env, trace[4], trace[5], id);
    forall i | 0 < i < |trace| ensures Step(env, trace[i - 1], trace[i]) {
      assert ReaderStep(env, trace[i - 1], trace[i], id);
    }
  }

  /** While the version stays, a later reader of the same text and strategy can be answered from the cache. */
  lemma StoredIsReused(env: Env, s: State, id: nat, text: Runes, strategy: string, e: Entry)
    requires id !in s.readers && StrategyName(strategy)
    requires e in s.cache && e.key == Key(strategy, s.version, env.hashOf(text))
    ensures var r := Reader(text, strategy, s.version, Begun, None);
      var t1 := s.(readers := s.readers[id := r]);
      var t2 := s.(readers := s.readers[id := r.(phase := Asking(s.version))]);
      var t3 := s.(readers := s.readers[id := r.(phase := Returned(e.gen, e.text), answer := Some(e.answer))]);
      Step(env, s, t1) && Step(env, t1, t2) && Step(env, t2, t3)
  {
    hide AnswerOf, Key, StrategyName;
    var r := Reader(text, strategy, s.version, Begun, None);
    var t1 := s.(readers := s.readers[id := r]);
    var t2 := s.(readers := s.readers[id := r.(phase := Asking(s.version))]);
    var t3 := s.(readers := s.readers[id := r.(phase := Returned(e.gen, e.text), answer := Some(e.answer))]);
    assert Begin(s, t1, id, text, strategy);
    assert TakeVersion(t1, t2, id);
    assert CacheHit(env, t2, t3, id, e);
    assert ReaderStep(env, s, t1, id) && ReaderStep(env, t1, t2, id) && ReaderStep(env, t2, t3, id);
  }

  // ---- When is the version in a key the version of the automaton? ----

  ghost predicate Stores(s: State, t: State) {
    exists words :: StoreAutomaton(s, t, words)
  }

  lemma OnlyStoresGrow(env: Env, s: State, t: State)
    requires Step(env, s, t)
    ensures |t.dicts| == |s.dicts| + if Stores(s, t) then 1 else 0
  {
    hide AnswerOf, Key, StrategyName;
    if !Stores(s, t) && !BumpVersion(s, t) {
      var id :| ReaderStep(env, s, t, id);
    }
  }

  lemma {:induction false} DictsGrow(env: Env, trace: seq<State>, a: nat, b: nat)
    requires Run(env, trace) && a <= b < |trace|
    ensures |trace[a].dicts| <= |trace[b].dicts|
    ensures |trace[a].dicts| == |trace[b].dicts| <==> forall i | a <= i < b :: !Stores(trace[i], trace[i + 1])
    decreases b - a
  {
    hide Step, Stores, Start;
    if a < b {
      DictsGrow(env, trace, a, b - 1);
      assert Step(env, trace[(b - 1) + 1 - 1], trace[(b - 1) + 1]);
      OnlyStoresGrow(env, trace[b - 1], trace[b]);
      assert Stores(trace[b - 1], trace[b - 1 + 1]) <==> Stores(trace[b - 1], trace[b]);
    }
  }

  /** From the moment it has taken a version, a reader keeps it until it returns. */
  ghost predicate Keeps(s: State, id: nat, version: nat) {
    && id in s.readers && !s.readers[id].phase.Begun?
    && (s.readers[id].phase.Asking? || s.readers[id].phase.Missed? || s.readers[id].phase.Matched? ==>
          s.readers[id].phase.version == version)
  }

  lemma StepKeepsVersion(env: Env, s: State, t: State, id: nat, version: nat)
    requires Step(env, s, t) && Keeps(s, id, version)
    ensures Keeps(t, id, version)
  {
    hide AnswerOf, Key, StrategyName;
    if !EngineStep(s, t) {
      var x :| ReaderStep(env, s, t, x);
    }
  }

  lemma {:induction false} RunKeepsVersion(env: Env, trace: seq<State>, a: nat, b: nat, id: nat)
    requires Run(env, trace) && a < b < |trace| && TakeVersion(trace[a], trace[a + 1], id)
    ensures Keeps(trace[b], id, trace[a].version)
    decreases b - a
  {
    hide Step, Start;
    if a + 1 < b {
      RunKeepsVersion(env, trace, a, b - 1, id);
      StepKeepsVersion(env, trace[b - 1], trace[b], id, trace[a].version);
    }
  }

  /** Over every run: a reader that takes its version in state a and matches in state b matches with the
      automaton of that version exactly when no rebuild was half published in a and none stored its
      automaton between a and b. */
  lemma KeyVersionIsExactIff(env: Env, trace: seq<State>, a: nat, b: nat, id: nat)
    requires Run(env, trace) && a < b < |trace| - 1
    requires TakeVersion(trace[a], trace[a + 1], id) && MatchText(env, trace[b], trace[b + 1], id)
    ensures id in trace[b + 1].readers && trace[b + 1].readers[id].phase.Matched?
    ensures trace[b + 1].readers[id].phase.version == trace[a].version
    ensures trace[b + 1].readers[id].phase.gen == trace[a].version
       <==> Published(trace[a]) && forall i | a <= i < b :: !Stores(trace[i], trace[i + 1])
  {
    hide Step, Stores, AnswerOf;
    RunKeepsInv(env, trace, a);
    RunKeepsVersion(env, trace, a, b, id);
    DictsGrow(env, trace, a, b);
  }

  /** The version in a key need not be the version of the automaton that computed the entry: the
      automaton may be swapped between taking the version and matching. */
  lemma KeyMayLagBehind(env: Env, words: seq<Word>, text: Runes)
    ensures exists trace: seq<State>, e ::
              Run(env, trace) && e in Last(trace).cache && e.version == 0 && e.gen == 1
  {
    hide AnswerOf, Key;
    var r := Reader(text, "detect", 0, Begun, None);
    var answer := AnswerOf(env, words, "detect", text);
    var s0 := State([[]], 0, {}, map[]);
    var s1 := s0.(readers := map[0 := r]);
    var s2 := s1.(readers := map[0 := r.(phase := Asking(0))]);
    var s3 := s2.(readers := map[0 := r.(phase := Missed(0))]);
    var s4 := s3.(dicts := [[], words]);
    var s5 := s4.(readers := map[0 := r.(phase := Matched(0, 1), answer := Some(answer))]);
    var e := Entry(KeyOf(env, r, 0), answer, text, "detect", 0, 1);
    var s6 := s5.(cache := {e}, readers := map[0 := r.(phase := Returned(1, text), answer := Some(answer))]);
    assert Begin(s0, s1, 0, text, "detect");
    assert TakeVersion(s1, s2, 0);
    assert CacheMiss(s2, s3, 0);
    assert StoreAutomaton(s3, s4, words);
    assert MatchText(env, s4, s5, 0);
    assert StoreAnswer(env, s5, s6, 0);
    var trace := [s0, s1, s2, s3, s4, s5, s6];
    assert ReaderStep(env, s0, s1, 0) && ReaderStep(env, s1, s2, 0) && ReaderStep(env, s2, s3, 0);
    assert EngineStep(s3, s4) && ReaderStep(env, s4, s5, 0) && ReaderStep(env, s5, s6, 0);
    forall i | 0 < i < |trace| ensures Step(env, trace[i - 1], trace[i]) {
    }
    assert Run(env, trace) && e in Last(trace).cache;
  }
}
