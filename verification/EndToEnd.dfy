/** The whole promise: poller, writers, engine and readers of the result cache in one run. */
module EndToEnd {
  import opened Vocabulary
  import opened NaiveSearch
  import opened SearchMeaning
  import opened WordTable
  import opened FilterEngine
  import opened ReconcileSteps
  import opened Filtering
  import H = HotUpdate
  import V = VersionedCache

  datatype Whole = Whole(poll: H.State, filter: V.State)

  /** The word the automaton keeps for a row. */
  function WordFor(normalize: Normalizer, row: Row): Word {
    Word(normalize(row.text), WordEntry(row.text, row.category, row.level))
  }

  /** What `Rebuild` puts into the automaton when the words it is given list these rows. */
  ghost predicate BuiltFrom(normalize: Normalizer, dict: seq<Word>, rows: map<nat, Row>) {
    exists words :: Lists(words, rows) && dict == Normalized(normalize, ActiveEntries(words))
  }

  // ---- Steps ----

  /** Everything the poller and the writers do but rebuild; the fingerprint is noted after a rebuild is published. */
  ghost predicate PollStep(w: Whole, x: Whole) {
    && x.filter == w.filter
    && (H.Write(w.poll, x.poll) || H.Poll(w.poll, x.poll) || H.Load(w.poll, x.poll) || H.Fail(w.poll, x.poll)
        || (H.Commit(w.poll, x.poll) && V.Published(w.filter)))
  }

  ghost predicate RebuildStep(env: V.Env, w: Whole, x: Whole) {
    && H.Rebuild(w.poll, x.poll) && V.Stores(w.filter, x.filter)
    && x.filter.dicts != [] && BuiltFrom(env.normalize, Last(x.filter.dicts), w.poll.poller.words)
  }

  ghost predicate FilterStep(env: V.Env, w: Whole, x: Whole) {
    x.poll == w.poll && (V.BumpVersion(w.filter, x.filter) || exists id :: V.ReaderStep(env, w.filter, x.filter, id))
  }

  ghost predicate Step(env: V.Env, w: Whole, x: Whole) {
    PollStep(w, x) || RebuildStep(env, w, x) || FilterStep(env, w, x)
  }

  /** A service with an empty engine and nothing noted, or one that has loaded its words at start-up: then
      either the fingerprint query failed and nothing is noted, or the load missed no active row. */
  ghost predicate Start(env: V.Env, w: Whole) {
    && V.Start(w.filter)
    && (|| (H.Fresh(w.poll) && w.poll.engine == map[] && w.filter.dicts == [[]])
        || (LoadedAtStart(env, w) && (H.Fresh(w.poll) || exists load, fp :: SafeInit(w.poll, load, fp))))
  }

  /** The first rebuild is done, from the active rows of one table. */
  ghost predicate LoadedAtStart(env: V.Env, w: Whole) {
    && |w.filter.dicts| == 2 && w.filter.dicts[0] == []
    && BuiltFrom(env.normalize, w.filter.dicts[1], w.poll.engine)
    && w.poll.engineAt < |w.poll.history| && w.poll.engine == Active(w.poll.history[w.poll.engineAt])
  }

  ghost predicate SafeInit(s: H.State, load: nat, fp: nat) {
    H.Initialized(s, load, fp) && s.lastFp.maxStamp <= s.history[load].clock
  }

  ghost predicate Run(env: V.Env, trace: seq<Whole>) {
    trace != [] && Start(env, trace[0]) && forall i | 0 < i < |trace| :: Step(env, trace[i - 1], trace[i])
  }

  // ---- Invariants ----

  /** The current automaton has the word of every row of the engine. */
  ghost predicate DictCovers(env: V.Env, w: Whole) {
    && w.filter.dicts != []
    && forall id | id in w.poll.engine :: WordFor(env.normalize, w.poll.engine[id]) in Last(w.filter.dicts)
  }

  ghost predicate WasActive(env: V.Env, h: seq<Table>, word: Word) {
    exists x, id :: 0 <= x < |h| && id in Active(h[x]) && word == WordFor(env.normalize, Active(h[x])[id])
  }

  /** No automaton has a word that was never active. */
  ghost predicate DictsGenuine(env: V.Env, w: Whole) {
    forall g, word | 0 <= g < |w.filter.dicts| && word in w.filter.dicts[g] :: WasActive(env, w.poll.history, word)
  }

  ghost predicate Inv(env: V.Env, w: Whole) {
    H.Inv(w.poll) && V.Inv(env, w.filter) && V.TextsKnown(w.filter) && DictCovers(env, w) && DictsGenuine(env, w)
  }

  lemma {:induction false} EntriesOfActive(words: seq<SensitiveWord>)
    requires forall w <- words :: w.status == 1
    ensures |ActiveEntries(words)| == |words|
    ensures forall k | 0 <= k < |words| ::
              ActiveEntries(words)[k] == WordEntry(words[k].text, words[k].category, words[k].level)
  {
    if words != [] {
      EntriesOfActive(Init(words));
    }
  }

  /** The dictionary of a rebuild is made of exactly the words of the rows. */
  lemma DictOfRows(normalize: Normalizer, dict: seq<Word>, rows: map<nat, Row>)
    requires BuiltFrom(normalize, dict, rows) && forall id | id in rows :: IsActive(rows[id])
    ensures forall id | id in rows :: WordFor(normalize, rows[id]) in dict
    ensures forall word <- dict :: exists id :: id in rows && word == WordFor(normalize, rows[id])
  {
    hide ActiveEntries, ListsAs;
    var words: seq<SensitiveWord> :| Lists(words, rows) && dict == Normalized(normalize, ActiveEntries(words));
    var ids :| ListsAs(words, rows, ids);
    DictInOrder(normalize, dict, rows, words, ids);
    forall id | id in rows ensures WordFor(normalize, rows[id]) in dict {
      assert id in ids;
      var k :| 0 <= k < |ids| && ids[k] == id;
      assert dict[k] in dict;
    }
    forall word <- dict ensures exists id :: id in rows && word == WordFor(normalize, rows[id]) {
      var k :| 0 <= k < |dict| && dict[k] == word;
      assert ids[k] in ids;
    }
  }

  lemma DictInOrder(normalize: Normalizer, dict: seq<Word>, rows: map<nat, Row>,
                    words: seq<SensitiveWord>, ids: seq<nat>)
    requires ListsAs(words, rows, ids) && dict == Normalized(normalize, ActiveEntries(words))
    requires forall id | id in rows :: IsActive(rows[id])
    ensures |dict| == |ids| && forall id :: id in ids <==> id in rows
    ensures forall k | 0 <= k < |dict| :: ids[k] in rows && dict[k] == WordFor(normalize, rows[ids[k]])
  {
    hide ActiveEntries;
    forall k | 0 <= k < |words| ensures ids[k] in rows && words[k].status == 1 {
      assert ids[k] in ids;
    }
    EntriesOfActive(words);
  }

  lemma PollStepKeepsInv(env: V.Env, w: Whole, x: Whole)
    requires Inv(env, w) && PollStep(w, x)
    ensures Inv(env, x)
  {
    hide H.Inv, V.Inv, V.TextsKnown, WasActive, Active, FingerprintOf;
    assert H.Step(w.poll, x.poll);
    H.StepKeepsInv(w.poll, x.poll);
    assert x.poll.engine == w.poll.engine;
    forall word | WasActive(env, w.poll.history, word) ensures WasActive(env, x.poll.history, word) {
      StillWasActive(env, w, x, word);
    }
  }

  lemma StillWasActive(env: V.Env, w: Whole, x: Whole, word: Word)
    requires PollStep(w, x) && WasActive(env, w.poll.history, word)
    ensures WasActive(env, x.poll.history, word)
  {
    hide FingerprintOf, Active;
    assert forall i | 0 <= i < |w.poll.history| :: i < |x.poll.history| && x.poll.history[i] == w.poll.history[i];
    var i, id :| 0 <= i < |w.poll.history| && id in Active(w.poll.history[i])
                 && word == WordFor(env.normalize, Active(w.poll.history[i])[id]);
    assert x.poll.history[i] == w.poll.history[i];
  }

  lemma RebuildStepKeepsInv(env: V.Env, w: Whole, x: Whole)
    requires Inv(env, w) && RebuildStep(env, w, x)
    ensures Inv(env, x)
  {
    hide V.Inv, V.TextsKnown, WasActive, FingerprintOf, BuiltFrom;
    assert H.Step(w.poll, x.poll);
    H.StepKeepsInv(w.poll, x.poll);
    assert V.Step(env, w.filter, x.filter);
    V.StepKeepsInv(env, w.filter, x.filter);
    V.StepKeepsTexts(env, w.filter, x.filter);
    DictOfRows(env.normalize, Last(x.filter.dicts), x.poll.engine);
    forall word | word in Last(x.filter.dicts) ensures WasActive(env, x.poll.history, word) {
      var id :| id in x.poll.engine && word == WordFor(env.normalize, x.poll.engine[id]);
      EngineWasActive(env, x.poll, id);
    }
    assert Init(x.filter.dicts) == w.filter.dicts;
  }

  lemma EngineWasActive(env: V.Env, s: H.State, id: nat)
    requires s.engineAt < |s.history| && s.engine == Active(s.history[s.engineAt]) && id in s.engine
    ensures WasActive(env, s.history, WordFor(env.normalize, s.engine[id]))
  {
  }

  lemma FilterStepKeepsInv(env: V.Env, w: Whole, x: Whole)
    requires Inv(env, w) && FilterStep(env, w, x)
    ensures Inv(env, x)
  {
    hide H.Inv, V.Inv, V.TextsKnown, WasActive;
    assert V.Step(env, w.filter, x.filter);
    V.StepKeepsInv(env, w.filter, x.filter);
    V.StepKeepsTexts(env, w.filter, x.filter);
    FilterKeepsDicts(env, w, x);
  }

  lemma FilterKeepsDicts(env: V.Env, w: Whole, x: Whole)
    requires FilterStep(env, w, x)
    ensures x.filter.dicts == w.filter.dicts && x.filter.version >= w.filter.version
  {
    hide V.AnswerOf, V.KeyOf;
  }

  lemma StartInv(env: V.Env, w: Whole)
    requires Start(env, w)
    ensures Inv(env, w)
  {
    hide FingerprintOf, BuiltFrom, WasActive, H.Fresh, H.Initialized, H.Inv, LoadedAtStart;
    if H.Fresh(w.poll) {
      FreshPoll(w.poll);
    } else {
      var load, fp :| SafeInit(w.poll, load, fp);
      SafeStartPoll(w.poll, load, fp);
    }
    if LoadedAtStart(env, w) {
      StartDicts(env, w);
    }
  }

  lemma FreshPoll(s: H.State)
    requires H.Fresh(s)
    ensures H.Inv(s)
  {
    hide FingerprintOf;
  }

  lemma SafeStartPoll(s: H.State, load: nat, fp: nat)
    requires SafeInit(s, load, fp)
    ensures H.Inv(s)
  {
    hide FingerprintOf;
    H.InitSafeIff(s, load, fp);
  }

  lemma StartDicts(env: V.Env, w: Whole)
    requires LoadedAtStart(env, w)
    ensures DictCovers(env, w) && DictsGenuine(env, w)
  {
    hide BuiltFrom, WasActive;
    DictOfRows(env.normalize, w.filter.dicts[1], w.poll.engine);
    forall word | word in w.filter.dicts[1] ensures WasActive(env, w.poll.history, word) {
      var id :| id in w.poll.engine && word == WordFor(env.normalize, w.poll.engine[id]);
      EngineWasActive(env, w.poll, id);
    }
  }

  lemma {:induction false} RunKeepsInv(env: V.Env, trace: seq<Whole>, i: nat)
    requires Run(env, trace) && i < |trace|
    ensures Inv(env, trace[i])
  {
    hide Inv, PollStep, RebuildStep, FilterStep, Start;
    if i == 0 {
      StartInv(env, trace[0]);
    } else {
      RunKeepsInv(env, trace, i - 1);
      if PollStep(trace[i - 1], trace[i]) {
        PollStepKeepsInv(env, trace[i - 1], trace[i]);
      } else if RebuildStep(env, trace[i - 1], trace[i]) {
        RebuildStepKeepsInv(env, trace[i - 1], trace[i]);
      } else {
        FilterStepKeepsInv(env, trace[i - 1], trace[i]);
      }
    }
  }

  // ---- A row that stays ----

  ghost predicate HasRow(rows: map<nat, Row>, id: nat, row: Row) {
    id in rows && rows[id] == row
  }

  /** From the automaton with index `from` on, all automata have the row's word, and so will the one
      that is built from words loaded already. */
  ghost predicate RowServed(env: V.Env, w: Whole, from: int, id: nat, row: Row) {
    && 0 <= from < |w.filter.dicts|
    && (forall g | from <= g < |w.filter.dicts| :: WordFor(env.normalize, row) in w.filter.dicts[g])
    && (w.poll.poller.Loaded? ==> HasRow(w.poll.poller.words, id, row))
  }

  /** When the noted fingerprint is current, that is so for every active row. */
  lemma ServedWhenCurrent(env: V.Env, w: Whole, id: nat, row: Row)
    requires Inv(env, w) && HasRow(Active(H.Now(w.poll)), id, row)
    requires FingerprintOf(Active(H.Now(w.poll))) == w.poll.lastFp
    ensures RowServed(env, w, |w.filter.dicts| - 1, id, row)
  {
    hide V.Inv, V.TextsKnown, DictsGenuine, FingerprintOf, H.Inv, Active;
    H.NothingMissed(w.poll);
    if w.poll.poller.Loaded? {
      LoadedHasRow(w.poll, id, row);
    }
  }

  lemma LoadedHasRow(s: H.State, id: nat, row: Row)
    requires H.Inv(s) && HasRow(Active(H.Now(s)), id, row) && s.poller.Loaded?
    requires FingerprintOf(Active(H.Now(s))) == s.lastFp
    ensures HasRow(s.poller.words, id, row)
  {
    hide FingerprintOf;
    var h, n := s.history, |s.history| - 1;
    assert FingerprintOf(Active(H.Now(s))).count == |Active(H.Now(s))| > 0;
    var b, seen := s.lastAt.value, s.poller.seen;
    StampsTellTablesApart(h, b, n);
    OldRowsStay(h, b, seen, n, id, row);
  }

  /** A row that is active at two times was active, unchanged, in between. */
  lemma OldRowsStay(h: seq<Table>, b: nat, m: nat, n: nat, id: nat, row: Row)
    requires StampedHistory(h) && b <= m <= n < |h| && HasRow(Active(h[b]), id, row) && HasRow(Active(h[n]), id, row)
    ensures HasRow(Active(h[m]), id, row)
  {
    RowsSince(h, b, b);
    RowsSince(h, b, m);
    RowsSince(h, m, n);
  }

  lemma ServedStays(env: V.Env, w: Whole, x: Whole, from: int, id: nat, row: Row)
    requires Inv(env, w) && RowServed(env, w, from, id, row) && Step(env, w, x)
    requires HasRow(Active(H.Now(w.poll)), id, row)
    ensures RowServed(env, x, from, id, row)
  {
    hide V.Inv, V.TextsKnown, DictsGenuine, DictCovers, H.Inv, RowServed, HasRow, Active;
    if RebuildStep(env, w, x) {
      ServedByRebuild(env, w, x, from, id, row);
    } else if FilterStep(env, w, x) {
      ServedByOldDicts(env, w, x, from, id, row);
    } else {
      ServedWhilePolling(env, w, x, from, id, row);
    }
  }

  lemma ServedByOldDicts(env: V.Env, w: Whole, x: Whole, from: int, id: nat, row: Row)
    requires RowServed(env, w, from, id, row) && FilterStep(env, w, x)
    ensures RowServed(env, x, from, id, row)
  {
    FilterKeepsDicts(env, w, x);
  }

  lemma ServedWhilePolling(env: V.Env, w: Whole, x: Whole, from: int, id: nat, row: Row)
    requires RowServed(env, w, from, id, row) && PollStep(w, x) && HasRow(Active(H.Now(w.poll)), id, row)
    ensures RowServed(env, x, from, id, row)
  {
    hide FingerprintOf, Active, HasRow;
  }

  lemma ServedByRebuild(env: V.Env, w: Whole, x: Whole, from: int, id: nat, row: Row)
    requires H.Inv(w.poll) && RowServed(env, w, from, id, row) && RebuildStep(env, w, x)
    ensures RowServed(env, x, from, id, row)
  {
    hide FingerprintOf, BuiltFrom;
    DictOfRows(env.normalize, Last(x.filter.dicts), w.poll.poller.words);
    assert Init(x.filter.dicts) == w.filter.dicts;
  }

  lemma {:induction false} ServedThroughout(env: V.Env, trace: seq<Whole>, a: nat, i: nat, id: nat, row: Row)
    requires Run(env, trace) && a <= i < |trace|
    requires FingerprintOf(Active(H.Now(trace[a].poll))) == trace[a].poll.lastFp
    requires forall x | a <= x <= i :: HasRow(Active(H.Now(trace[x].poll)), id, row)
    ensures RowServed(env, trace[i], |trace[a].filter.dicts| - 1, id, row)
    decreases i
  {
    hide Inv, Step, Start, FingerprintOf, RowServed, Active, HasRow;
    if i == a {
      RunKeepsInv(env, trace, a);
      ServedWhenCurrent(env, trace[a], id, row);
    } else {
      ServedThroughout(env, trace, a, i - 1, id, row);
      RunKeepsInv(env, trace, i - 1);
      ServedStays(env, trace[i - 1], trace[i], |trace[a].filter.dicts| - 1, id, row);
    }
  }

  /** Versions only grow, and a reader that begins later begins with at least the version of now. */
  lemma {:induction false} BeginsLater(env: V.Env, trace: seq<Whole>, b: nat, i: nat, id: nat)
    requires Run(env, trace) && b <= i < |trace| && id !in trace[b].filter.readers
    ensures trace[i].filter.version >= trace[b].filter.version
    ensures id in trace[i].filter.readers ==> trace[i].filter.readers[id].begunAt >= trace[b].filter.version
    decreases i
  {
    hide Start, Step;
    if i > b {
      BeginsLater(env, trace, b, i - 1, id);
      OneStepLater(env, trace[i - 1], trace[i], id);
    }
  }

  lemma OneStepLater(env: V.Env, w: Whole, x: Whole, id: nat)
    requires Step(env, w, x)
    ensures x.filter.version >= w.filter.version
    ensures id in x.filter.readers ==>
      x.filter.readers[id].begunAt == if id in w.filter.readers then w.filter.readers[id].begunAt else w.filter.version
  {
    hide V.AnswerOf, V.KeyOf, FingerprintOf, Active, BuiltFrom;
  }

  /** The answer reports the row, with its own text, category and level, at every place where its word occurs. */
  ghost predicate Reports(env: V.Env, r: V.Reader, row: Row) {
    && r.answer.Some?
    && forall j, e | 0 <= j < e <= |env.normalize(r.text)| && env.normalize(r.text)[j..e] == env.normalize(row.text) ::
         r.answer.value.isHit && MatchItem(row.text, j, e, row.category, row.level) in r.answer.value.matches
  }

  /** Nothing is missed: take a moment when the noted fingerprint is current and no rebuild is half
      published, and a row active then that stays as it is. However the table, the poller and the engine go
      on, every request begun from then on reports the row's word wherever its text contains it. */
  lemma ActiveWordsAreReported(env: V.Env, trace: seq<Whole>, a: nat, b: nat, i: nat, reader: nat, id: nat, row: Row)
    requires Run(env, trace) && a <= b <= i < |trace|
    requires FingerprintOf(Active(H.Now(trace[a].poll))) == trace[a].poll.lastFp && V.Published(trace[a].filter)
    requires forall x | a <= x <= i :: HasRow(Active(H.Now(trace[x].poll)), id, row)
    requires reader !in trace[b].filter.readers && reader in trace[i].filter.readers
    requires trace[i].filter.readers[reader].phase.Returned? && V.DistinctHashes(env, trace[i].filter)
    ensures Reports(env, trace[i].filter.readers[reader], row)
  {
    hide Step, Start, FingerprintOf, Active, DictCovers, DictsGenuine;
    hide V.Inv, V.TextsKnown, V.DistinctHashes, V.AnswerOf, H.Inv;
    ServedThroughout(env, trace, a, i, id, row);
    RunKeepsInv(env, trace, i);
    BeginsLater(env, trace, b, i, reader);
    VersionsGrow(env, trace, a, b);
    V.AnswerIsRight(env, trace[i].filter, reader);
    var r := trace[i].filter.readers[reader];
    AnswerReports(env, trace[i].filter.dicts[r.phase.gen], r, row);
  }

  lemma {:induction false} VersionsGrow(env: V.Env, trace: seq<Whole>, a: nat, b: nat)
    requires Run(env, trace) && a <= b < |trace|
    ensures trace[a].filter.version <= trace[b].filter.version
    decreases b
  {
    hide Start, Step;
    if a < b {
      VersionsGrow(env, trace, a, b - 1);
      OneStepLater(env, trace[b - 1], trace[b], 0);
    }
  }

  lemma AnswerReports(env: V.Env, dict: seq<Word>, r: V.Reader, row: Row)
    requires WordFor(env.normalize, row) in dict && r.answer == Some(V.AnswerOf(env, dict, r.strategy, r.text))
    ensures Reports(env, r, row)
  {
    hide Search;
    var text := env.normalize(r.text);
    forall j, e | 0 <= j < e <= |text| && text[j..e] == env.normalize(row.text)
      ensures r.answer.value.isHit && MatchItem(row.text, j, e, row.category, row.level) in r.answer.value.matches
    {
      var k :| 0 <= k < |dict| && dict[k] == WordFor(env.normalize, row);
      assert Occurs(dict, text, k, j, e);
      SearchFindsOccurrences(dict, text, MatchItem(row.text, j, e, row.category, row.level));
    }
  }

  /** Nothing is invented: a request that is told of a hit has a text in which the word of some row
      occurs that was active in some table of the history. */
  lemma HitsComeFromRows(env: V.Env, trace: seq<Whole>, i: nat, reader: nat)
    requires Run(env, trace) && i < |trace| && reader in trace[i].filter.readers
    requires trace[i].filter.readers[reader].phase.Returned? && V.DistinctHashes(env, trace[i].filter)
    requires trace[i].filter.readers[reader].answer.Some? && trace[i].filter.readers[reader].answer.value.isHit
    ensures var text := env.normalize(trace[i].filter.readers[reader].text);
      exists word, j, e ::
        WasActive(env, trace[i].poll.history, word) && 0 <= j < e <= |text| && text[j..e] == word.runes
  {
    hide Run, V.Inv, V.TextsKnown, V.DistinctHashes, DictCovers, H.Inv, WasActive, V.AnswerOf;
    RunKeepsInv(env, trace, i);
    var s := trace[i].filter;
    V.AnswerIsRight(env, s, reader);
    var r := s.readers[reader];
    var dict, text := s.dicts[r.phase.gen], env.normalize(r.text);
    HitHasOccurrence(env, dict, r);
    var k, j, e :| Occurs(dict, text, k, j, e);
    assert dict[k] in dict && WasActive(env, trace[i].poll.history, dict[k]);
  }

  lemma HitHasOccurrence(env: V.Env, dict: seq<Word>, r: V.Reader)
    requires r.answer == Some(V.AnswerOf(env, dict, r.strategy, r.text)) && r.answer.value.isHit
    ensures exists k, j, e :: Occurs(dict, env.normalize(r.text), k, j, e)
  {
    HitIffWordOccurs(dict, env.normalize(r.text), r.strategy, r.text);
  }
}
