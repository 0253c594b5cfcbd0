/** One reconcile of the service is a run of the polling protocol, with writers interleaving anywhere. */
module ReconcileSteps {
  import opened Vocabulary
  import opened WordTable
  import opened HotUpdate
  import opened FilterEngine
  import opened PollService

  function WordOf(row: Row): SensitiveWord {
    SensitiveWord(row.text, row.category, row.level, row.status)
  }

  /** The words are the rows, in some order. */
  ghost predicate Lists(words: seq<SensitiveWord>, rows: map<nat, Row>) {
    exists ids: seq<nat> :: ListsAs(words, rows, ids)
  }

  ghost predicate ListsAs(words: seq<SensitiveWord>, rows: map<nat, Row>, ids: seq<nat>) {
    && |ids| == |words| && (forall id :: id in ids <==> id in rows)
    && (forall x, y | 0 <= x < y < |ids| :: ids[x] != ids[y])
    && forall x | 0 <= x < |ids| :: words[x] == WordOf(rows[ids[x]])
  }

  /** What the database answers, told by the tables: `h` lists the table after every write of all time, the
      k-th attempt reads the table with index `at(k)`. */
  ghost predicate Answers(h: seq<Table>, at: nat -> nat, attempts: nat -> Attempt) {
    && StampedHistory(h)
    && (forall k: nat, l: nat | k <= l :: at(k) <= at(l) < |h|)
    && forall k: nat :: (attempts(k).Succeeded? ==> Lists(attempts(k).words, Active(h[at(k)])))
  }

  /** The protocol state has seen the writes of `h` up to index `n`. */
  ghost predicate Seen(s: State, h: seq<Table>, n: nat) {
    n < |h| && s.history == h[..n + 1]
  }

  // ---- Putting runs together ----

  lemma JoinRuns(a: seq<State>, b: seq<State>)
    requires Run(a) && Run(b) && Last(a) == b[0]
    ensures Run(a + b[1..]) && (a + b[1..])[0] == a[0] && Last(a + b[1..]) == Last(b)
  {
    hide Step;
    var c := a + b[1..];
    forall i | 0 < i < |c| ensures Step(c[i - 1], c[i]) {
      if i >= |a| {
        assert c[i - 1] == b[i - |a|] && c[i] == b[i - |a| + 1];
        assert Step(b[(i - |a| + 1) - 1], b[i - |a| + 1]);
      } else {
        assert c[i - 1] == a[i - 1] && c[i] == a[i];
      }
    }
  }

  lemma OneStep(s: State, t: State)
    requires Step(s, t)
    ensures Run([s, t])
  {
    hide Step;
  }

  /** The writers catch up. */
  lemma {:induction false} CatchUp(s: State, h: seq<Table>, n: nat, m: nat) returns (trace: seq<State>)
    requires StampedHistory(h) && Seen(s, h, n) && n <= m < |h|
    ensures Run(trace) && trace[0] == s && Last(trace) == s.(history := h[..m + 1])
    decreases m - n
  {
    if n == m {
      trace := [s];
    } else {
      var t := s.(history := h[..n + 2]);
      assert Init(h[..n + 2]) == h[..n + 1];
      assert StampedWrite(h[(n + 1) - 1], h[n + 1]);
      assert Write(s, t);
      OneStep(s, t);
      var rest := CatchUp(t, h, n + 1, m);
      JoinRuns([s, t], rest);
      trace := [s, t] + rest[1..];
    }
  }

  // ---- One attempt ----

  /** A failed attempt, after any writes before its load. */
  lemma FailedAttempt(s: State, h: seq<Table>, n: nat, m: nat, rebuildFailed: bool, giveUp: bool)
    returns (trace: seq<State>)
    requires StampedHistory(h) && Seen(s, h, n) && n <= m < |h| && s.poller.Polled?
    ensures trace != [] && Run(trace) && trace[0] == s
    ensures Last(trace) == s.(history := h[..m + 1], poller := if giveUp then Idle else s.poller)
  {
    trace := CatchUp(s, h, n, m);
    var u := Last(trace);
    var t := u.(poller := if giveUp then Idle else u.poller);
    if rebuildFailed {
      var v := u.(poller := Loaded(u.poller.fp, u.poller.at, Active(Now(u)), |u.history| - 1));
      assert Load(u, v) && Fail(v, t);
      OneStep(u, v);
      OneStep(v, t);
      JoinRuns([u, v], [v, t]);
      JoinRuns(trace, [u, v] + [v, t][1..]);
      trace := trace + ([u, v] + [v, t][1..])[1..];
    } else {
      assert Fail(u, t);
      OneStep(u, t);
      JoinRuns(trace, [u, t]);
      trace := trace + [u, t][1..];
    }
  }

  /** A successful attempt, and the fingerprint noted. */
  lemma GoodAttempt(s: State, h: seq<Table>, n: nat, m: nat) returns (trace: seq<State>)
    requires StampedHistory(h) && Seen(s, h, n) && n <= m < |h| && s.poller.Polled?
    ensures trace != [] && Run(trace) && trace[0] == s
    ensures Last(trace) == State(h[..m + 1], Idle, s.poller.fp, Active(h[m]), m, Some(s.poller.at))
  {
    trace := CatchUp(s, h, n, m);
    var u := Last(trace);
    assert Now(u) == h[m];
    var v := u.(poller := Loaded(u.poller.fp, u.poller.at, Active(h[m]), m));
    var w := v.(engine := Active(h[m]), engineAt := m, poller := Rebuilt(u.poller.fp, u.poller.at));
    var t := w.(lastFp := u.poller.fp, lastAt := Some(u.poller.at), poller := Idle);
    assert Load(u, v) && Rebuild(v, w) && Commit(w, t);
    var steps := [u, v, w, t];
    forall i | 0 < i < |steps| ensures Step(steps[i - 1], steps[i]) {
    }
    JoinRuns(trace, steps);
    trace := trace + steps[1..];
  }

  // ---- One reconcile ----

  /** From a state that has polled, retrying ended in `t` with this outcome. */
  ghost predicate EndsAs(s: State, t: State, outcome: Outcome)
    requires s.poller.Polled?
  {
    if outcome.Done? then t.lastFp == s.poller.fp && t.lastAt == Some(s.poller.at) && Lists(outcome.words, t.engine)
    else t.engine == s.engine && t.lastFp == s.lastFp && t.lastAt == s.lastAt
  }

  /** Retrying from attempt `k` on. */
  lemma {:induction false} RetryIsRun(s: State, h: seq<Table>, n: nat, at: nat -> nat, attempts: nat -> Attempt,
                                      cancels: nat -> Option<nat>, k: nat, max: int) returns (trace: seq<State>)
    requires Answers(h, at, attempts) && Seen(s, h, n) && n <= at(k) && s.poller.Polled? && k < max
    ensures trace != [] && Run(trace) && trace[0] == s && Last(trace).poller.Idle?
    ensures EndsAs(s, Last(trace), Retry(attempts, cancels, k, max))
    decreases max - k
  {
    var m := at(k);
    var giveUp := k + 1 == max || cancels(k).Some?;
    assert at(k) <= at(k) < |h| && at(k) <= at(k + 1);
    hide Run, Lists, StampedHistory, Active, Answers;
    if attempts(k).Succeeded? {
      trace := GoodAttempt(s, h, n, m);
    } else {
      trace := FailedAttempt(s, h, n, m, attempts(k).RebuildFailed?, giveUp);
      if !giveUp {
        var rest := RetryIsRun(Last(trace), h, m, at, attempts, cancels, k + 1, max);
        JoinRuns(trace, rest);
        trace := trace + rest[1..];
      }
    }
  }

  /** A whole reconcile, as the service does it, is a run of the protocol between idle states, for every
      outcome of its queries and every interleaving of writers; it ends with the engine and the noted
      fingerprint that the method leaves. */
  lemma ReconcileIsRun(s: State, h: seq<Table>, n: nat, answer: Option<Fingerprint>, at: nat -> nat,
                       attempts: nat -> Attempt, cancels: nat -> Option<nat>, max: int) returns (trace: seq<State>)
    requires Answers(h, at, attempts) && Seen(s, h, n) && n <= at(0) && s.poller.Idle? && max >= 1
    requires answer.Some? ==> answer.value == FingerprintOf(Active(h[n]))
    ensures trace != [] && Run(trace) && trace[0] == s && Last(trace).poller.Idle?
    ensures var t, outcome := Last(trace), Retry(attempts, cancels, 0, max);
      if answer.Some? && answer.value != s.lastFp && outcome.Done?
      then t.lastFp == answer.value && Lists(outcome.words, t.engine)
      else t.lastFp == s.lastFp && t.engine == s.engine
  {
    hide Run, Lists, StampedHistory, FingerprintOf, Answers, Retry, Active;
    assert Now(s) == h[n];
    if answer.None? || answer.value == s.lastFp {
      trace := [s];
      assert Run(trace) by { OneState(s); }
    } else {
      var t := s.(poller := Polled(answer.value, n));
      assert Poll(s, t);
      OneStep(s, t);
      var rest := RetryIsRun(t, h, n, at, attempts, cancels, 0, max);
      JoinRuns([s, t], rest);
      trace := [s, t] + rest[1..];
    }
  }

  lemma OneState(s: State)
    ensures Run([s])
  {
  }

  // ---- Without an attempt ----

  /** What a reconcile leaves when no attempt is allowed: the current fingerprint is noted, the engine is
      what it was. */
  function NotedBlindly(s: State, fp: Fingerprint): State
    requires s.history != []
  {
    s.(lastFp := fp, lastAt := Some(|s.history| - 1))
  }

  /** Over every run that follows while nobody writes, the poller does nothing, and a row is missing exactly
      if it was missing before the reconcile. */
  lemma BlindCommitKeepsGaps(s: State, fp: Fingerprint, attempts: nat -> Attempt, cancels: nat -> Option<nat>,
                             max: int, trace: seq<State>, i: nat)
    requires s.history != [] && s.poller.Idle? && fp == FingerprintOf(Active(Now(s))) && max < 1
    requires Run(trace) && trace[0] == NotedBlindly(s, fp) && i < |trace|
    requires forall x | 0 < x < |trace| :: PollerStep(trace[x - 1], trace[x])
    ensures Retry(attempts, cancels, 0, max).NeverTried?
    ensures trace[i] == NotedBlindly(s, fp)
    ensures Included(Active(Now(trace[i])), trace[i].engine) <==> Included(Active(Now(s)), s.engine)
  {
    hide FingerprintOf, PollerStep, Run, Included;
    NothingHappens(trace, i);
  }

  /** So an update can be lost: a fresh service sees its first word, notes it, and never loads it. */
  lemma BlindCommitLosesUpdate(row: Row)
    requires IsActive(row) && row.stamp > 0
    ensures exists s: State, fp ::
      && Fresh(s) && fp == FingerprintOf(Active(Now(s))) && fp != s.lastFp
      && !Included(Active(Now(NotedBlindly(s, fp))), NotedBlindly(s, fp).engine)
  {
    hide FingerprintOf;
    var t0, t1 := Table(map[], 1, 0), Table(map[1 := row], 2, row.stamp);
    var s := State([t0, t1], Idle, ZERO, map[], 0, None);
    assert StampedHistory(s.history);
    assert Active(t1)[1] == row && Active(t1).Keys == {1};
    assert Fresh(s) && FingerprintOf(Active(Now(s))).count == 1;
    assert !Included(Active(Now(NotedBlindly(s, FingerprintOf(Active(t1))))), map[]);
  }
}
