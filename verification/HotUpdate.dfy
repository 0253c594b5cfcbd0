/** The fingerprint polling protocol, with writers interleaving between the queries. */
module HotUpdate {
  import opened Vocabulary
  import opened WordTable

  const ZERO := Fingerprint(0, 0, 0)

  /** Where the poller is; `at` is the index of the table that a query saw. */
  datatype Poller =
    | Idle
    | Polled(fp: Fingerprint, at: nat)                             // fingerprint taken, differs from the last one
    | Loaded(fp: Fingerprint, at: nat, words: map<nat, Row>, seen: nat)  // active words loaded
    | Rebuilt(fp: Fingerprint, at: nat)                            // engine rebuilt, fingerprint not yet noted

  /** `history` lists the table after every write. `engine` is the word set of the last rebuild and
      `engineAt` the table it was loaded from; `lastAt` is the table `lastFp` was computed on. */
  datatype State = State(history: seq<Table>, poller: Poller, lastFp: Fingerprint, engine: map<nat, Row>,
                         engineAt: nat, lastAt: Option<nat>)

  ghost function Now(s: State): Table {
    if s.history == [] then Table(map[], 1, 0) else Last(s.history)
  }

  // ---- Steps ----

  ghost predicate Write(s: State, t: State) {
    && s.history != [] && t.history != [] && Init(t.history) == s.history
    && StampedWrite(Now(s), Now(t))
    && t == s.(history := t.history)
  }

  ghost predicate Poll(s: State, t: State) {
    && s.history != [] && s.poller.Idle?
    && var fp := FingerprintOf(Active(Now(s)));
       t == if fp == s.lastFp then s else s.(poller := Polled(fp, |s.history| - 1))
  }

  ghost predicate Load(s: State, t: State) {
    && s.history != [] && s.poller.Polled?
    && t == s.(poller := Loaded(s.poller.fp, s.poller.at, Active(Now(s)), |s.history| - 1))
  }

  ghost predicate Rebuild(s: State, t: State) {
    && s.poller.Loaded?
    && t == s.(engine := s.poller.words, engineAt := s.poller.seen, poller := Rebuilt(s.poller.fp, s.poller.at))
  }

  ghost predicate Commit(s: State, t: State) {
    && s.poller.Rebuilt?
    && t == s.(lastFp := s.poller.fp, lastAt := Some(s.poller.at), poller := Idle)
  }

  /** A query or a rebuild fails: the attempt is repeated, or the reconcile is given up. */
  ghost predicate Fail(s: State, t: State) {
    || (s.poller.Idle? && t == s)
    || (s.poller.Polled? && (t == s || t == s.(poller := Idle)))
    || (s.poller.Loaded? && (t == s.(poller := Polled(s.poller.fp, s.poller.at)) || t == s.(poller := Idle)))
  }

  ghost predicate PollerStep(s: State, t: State) {
    Poll(s, t) || Load(s, t) || Rebuild(s, t) || Commit(s, t) || Fail(s, t)
  }

  ghost predicate Step(s: State, t: State) {
    Write(s, t) || PollerStep(s, t)
  }

  ghost predicate Run(trace: seq<State>) {
    trace != [] && forall i | 0 < i < |trace| :: Step(trace[i - 1], trace[i])
  }

  // ---- Starting points ----

  /** A fresh service: empty engine, zero fingerprint. */
  ghost predicate Fresh(s: State) {
    StampedHistory(s.history) && s.poller.Idle? && s.lastFp == ZERO && s.lastAt.None? && s.engineAt < |s.history|
  }

  /** After `InitEngine`: the words were loaded from table `load`, the fingerprint taken on table `fp`. */
  ghost predicate Initialized(s: State, load: nat, fp: nat) {
    && StampedHistory(s.history) && s.poller.Idle? && load <= fp < |s.history|
    && s.engine == Active(s.history[load]) && s.engineAt == load
    && s.lastFp == FingerprintOf(Active(s.history[fp])) && s.lastAt == Some(fp)
  }

  // ---- The invariant ----

  /** What the engine must contain, given the table `lastFp` describes. */
  ghost predicate EngineCovers(s: State) {
    match s.lastAt
    case None => s.lastFp == ZERO
    case Some(b) =>
      && b < |s.history| && s.lastFp == FingerprintOf(Active(s.history[b]))
      && (|| (b <= s.engineAt < |s.history| && s.engine == Active(s.history[s.engineAt]))
          || Included(Active(s.history[b]), s.engine))
  }

  ghost predicate PollerConsistent(s: State) {
    var last := if s.lastAt.Some? then s.lastAt.value else 0;
    match s.poller
    case Idle => true
    case Polled(fp, at) => last <= at < |s.history| && fp == FingerprintOf(Active(s.history[at]))
    case Loaded(fp, at, words, seen) =>
      && last <= at <= seen < |s.history| && fp == FingerprintOf(Active(s.history[at]))
      && words == Active(s.history[seen])
    case Rebuilt(fp, at) =>
      && last <= at <= s.engineAt < |s.history| && fp == FingerprintOf(Active(s.history[at]))
      && s.engine == Active(s.history[s.engineAt])
  }

  ghost predicate Inv(s: State) {
    StampedHistory(s.history) && EngineCovers(s) && PollerConsistent(s)
  }

  lemma WriteKeepsInv(s: State, t: State)
    requires Inv(s) && Write(s, t)
    ensures Inv(t)
  {
    hide FingerprintOf;
    var h := t.history;
    assert forall i | 0 <= i < |s.history| :: h[i] == s.history[i];
    forall i | 0 < i < |h| ensures StampedWrite(h[i - 1], h[i]) {
      if i < |s.history| {
        assert StampedWrite(s.history[i - 1], s.history[i]);
      }
    }
  }

  lemma PollKeepsInv(s: State, t: State)
    requires Inv(s) && (Poll(s, t) || Load(s, t))
    ensures Inv(t)
  {
    hide FingerprintOf;
  }

  lemma FailKeepsInv(s: State, t: State)
    requires Inv(s) && Fail(s, t)
    ensures Inv(t)
  {
    hide FingerprintOf;
  }

  lemma RebuildKeepsInv(s: State, t: State)
    requires Inv(s) && (Rebuild(s, t) || Commit(s, t))
    ensures Inv(t)
  {
    hide FingerprintOf;
  }

  lemma StepKeepsInv(s: State, t: State)
    requires Inv(s) && Step(s, t)
    ensures Inv(t)
  {
    hide Inv, Poll, Load, Fail, Rebuild, Commit, Write;
    if Write(s, t) {
      WriteKeepsInv(s, t);
    } else if Rebuild(s, t) || Commit(s, t) {
      RebuildKeepsInv(s, t);
    } else if Fail(s, t) {
      FailKeepsInv(s, t);
    } else {
      PollKeepsInv(s, t);
    }
  }

  /** With the current fingerprint noted, an idle poller stays where it is. */
  lemma NothingToDo(s: State, t: State)
    requires s.poller.Idle? && s.lastFp == FingerprintOf(Active(Now(s))) && PollerStep(s, t)
    ensures t == s
  {
  }

  /** So nothing ever happens while nobody writes. */
  lemma {:induction false} NothingHappens(trace: seq<State>, i: nat)
    requires Run(trace) && i < |trace|
    requires trace[0].poller.Idle? && trace[0].lastFp == FingerprintOf(Active(Now(trace[0])))
    requires forall x | 0 < x < |trace| :: PollerStep(trace[x - 1], trace[x])
    ensures trace[i] == trace[0]
  {
    hide FingerprintOf, PollerStep, Run;
    if i > 0 {
      NothingHappens(trace, i - 1);
      NothingToDo(trace[i - 1], trace[i]);
    }
  }

  /** If the poller sees nothing to do, every active row is in the engine. */
  lemma NothingMissed(s: State)
    requires Inv(s) && FingerprintOf(Active(Now(s))) == s.lastFp
    ensures Included(Active(Now(s)), s.engine)
  {
    hide FingerprintOf;
    var h, n := s.history, |s.history| - 1;
    if s.lastAt.Some? {
      var b := s.lastAt.value;
      StampsTellTablesApart(h, b, n);
      if b <= s.engineAt < |h| && s.engine == Active(h[s.engineAt]) {
        RowsSince(h, b, b);
        RowsSince(h, b, s.engineAt);
        RowsSince(h, s.engineAt, n);
        assert Included(Active(h[n]), s.engine);
      }
    }
  }

  /** Covering is not equality: rows that went away may still be in the engine. It holds exactly the active
      rows when its own rows have the noted fingerprint. */
  lemma EngineExactIff(s: State, load: nat)
    requires StampedHistory(s.history) && load < |s.history| && s.engine == Active(s.history[load])
    requires FingerprintOf(Active(Now(s))) == s.lastFp
    ensures s.engine == Active(Now(s)) <==> FingerprintOf(s.engine) == s.lastFp
  {
    hide FingerprintOf;
    StampsTellTablesApart(s.history, load, |s.history| - 1);
  }

  lemma {:induction false} RunKeepsInv(trace: seq<State>, i: nat)
    requires Run(trace) && Inv(trace[0]) && i < |trace|
    ensures Inv(trace[i])
  {
    if i > 0 {
      RunKeepsInv(trace, i - 1);
      StepKeepsInv(trace[i - 1], trace[i]);
    }
  }

  /** Safety over every run from a fresh start: whenever the current fingerprint equals the last one,
      the engine contains every active row. */
  lemma NoUpdateIsLost(trace: seq<State>, i: nat)
    requires Run(trace) && Fresh(trace[0]) && i < |trace|
    requires FingerprintOf(Active(Now(trace[i]))) == trace[i].lastFp
    ensures Included(Active(Now(trace[i])), trace[i].engine)
  {
    RunKeepsInv(trace, i);
    NothingMissed(trace[i]);
  }

  // ---- InitEngine queries in the opposite order ----

  /** Every row that is active when the fingerprint is taken was loaded, exactly when no stamp in the
      fingerprint is later than the clock at the load. */
  lemma InitSafeIff(s: State, load: nat, fp: nat)
    requires Initialized(s, load, fp)
    ensures Included(Active(s.history[fp]), s.engine) <==> s.lastFp.maxStamp <= s.history[load].clock
  {
    hide FingerprintOf;
    var h := s.history;
    RowsSince(h, load, load);
    RowsSince(h, load, fp);
    var a, b := Active(h[fp]), Active(h[load]);
    if Included(a, b) && a != map[] {
      var id :| id in a && a[id].stamp == s.lastFp.maxStamp;
      assert b[id] == a[id];
    }
  }

  /** From a safe initialisation no update is lost either. */
  lemma NoUpdateIsLostAfterInit(trace: seq<State>, i: nat, load: nat, fp: nat)
    requires Run(trace) && Initialized(trace[0], load, fp) && i < |trace|
    requires trace[0].lastFp.maxStamp <= trace[0].history[load].clock
    requires FingerprintOf(Active(Now(trace[i]))) == trace[i].lastFp
    ensures Included(Active(Now(trace[i])), trace[i].engine)
  {
    InitSafeIff(trace[0], load, fp);
    RunKeepsInv(trace, i);
    NothingMissed(trace[i]);
  }

  /** After an unsafe one the loss is permanent while nobody writes: the poller sees nothing to do. */
  lemma UnsafeInitStaysStale(trace: seq<State>, i: nat, load: nat, fp: nat)
    requires Run(trace) && i < |trace|
    requires Initialized(trace[0], load, fp) && fp == |trace[0].history| - 1
    requires trace[0].lastFp.maxStamp > trace[0].history[load].clock
    requires forall x | 0 < x < |trace| :: PollerStep(trace[x - 1], trace[x])
    ensures trace[i] == trace[0] && !Included(Active(Now(trace[i])), trace[i].engine)
  {
    hide FingerprintOf, Included, PollerStep, Run;
    InitSafeIff(trace[0], load, fp);
    NothingHappens(trace, i);
  }

  /** It happens: one word is created between the two queries of `InitEngine`. */
  lemma UnsafeInitHappens()
    ensures exists s :: Initialized(s, 0, 1) && s.lastFp.maxStamp > s.history[0].clock
  {
    var row := Row("word", "custom", 1, 1, 7);
    var t0, t1 := Table(map[], 1, 0), Table(map[1 := row], 2, 7);
    var h := [t0, t1];
    assert Active(t1)[1] == row;
    var s := State(h, Idle, FingerprintOf(Active(t1)), Active(t0), 0, Some(1));
    assert StampedHistory(h);
    assert Initialized(s, 0, 1) && s.lastFp.maxStamp > s.history[0].clock;
  }

  // ---- Self-healing ----

  /** The poller steps of one reconcile begun on a quiet table whose queries succeed. */
  ghost predicate GoodReconcile(s0: State, s1: State, s2: State, s3: State, s4: State) {
    && Poll(s0, s1)
    && if s1.poller.Idle? then s2 == s1 && s3 == s1 && s4 == s1
       else Load(s1, s2) && Rebuild(s2, s3) && Commit(s3, s4)
  }

  /** Whatever happened before, a good reconcile on a quiet table ends with the table's fingerprint;
      if it rebuilt, the engine holds exactly the active rows; and polling again changes nothing. */
  lemma GoodReconcileHeals(s0: State, s1: State, s2: State, s3: State, s4: State)
    requires Inv(s0) && GoodReconcile(s0, s1, s2, s3, s4)
    ensures s4.history == s0.history && s4.poller.Idle? && s4.lastFp == FingerprintOf(Active(Now(s4)))
    ensures Included(Active(Now(s4)), s4.engine)
    ensures s0.lastFp != FingerprintOf(Active(Now(s0))) ==> s4.engine == Active(Now(s4))
    ensures forall t | PollerStep(s4, t) :: t == s4
  {
    hide FingerprintOf;
    if s1.poller.Idle? {
      NothingMissed(s0);
    }
    forall t | PollerStep(s4, t) ensures t == s4 {
      NothingToDo(s4, t);
    }
  }

  /** However often queries fail and writers interleave: until a rebuild succeeds the engine stays, and
      until it is noted the last fingerprint stays. */
  lemma {:induction false} FailureChangesNothing(trace: seq<State>, i: nat, j: nat)
    requires Run(trace) && i <= j < |trace|
    requires forall x | i < x <= j :: !Rebuild(trace[x - 1], trace[x])
    ensures trace[j].engine == trace[i].engine && trace[j].engineAt == trace[i].engineAt
    ensures (forall x | i < x <= j :: !Commit(trace[x - 1], trace[x])) ==> trace[j].lastFp == trace[i].lastFp
    ensures trace[i].poller.Idle? ==> trace[j].lastFp == trace[i].lastFp && !trace[j].poller.Rebuilt?
    decreases j
  {
    hide FingerprintOf, Rebuild, Commit;
    if i < j {
      FailureChangesNothing(trace, i, j - 1);
      OneStepWithoutRebuild(trace[j - 1], trace[j]);
    }
  }

  lemma OneStepWithoutRebuild(s: State, t: State)
    requires Step(s, t) && !Rebuild(s, t)
    ensures t.engine == s.engine && t.engineAt == s.engineAt && (!Commit(s, t) ==> t.lastFp == s.lastFp)
    ensures !s.poller.Rebuilt? ==> !t.poller.Rebuilt? && !Commit(s, t)
  {
    hide FingerprintOf;
  }
}
