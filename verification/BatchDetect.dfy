/** The worker pool of a batch request, under every interleaving of its goroutines. */
module BatchDetect {
  import opened Vocabulary
  import opened Filtering

  datatype Worker =
    | Waiting               // at the channel
    | Holding(job: nat)     // has taken a job, context not yet checked
    | Matching(job: nat)
    | Counting              // slot written, hit not yet counted
    | Exited

  /** What became of a job that was taken from the channel. */
  datatype Fate = Untaken | With(worker: nat) | Answered | Errored | Dropped

  datatype Batch = Batch(results: seq<Option<Response>>, total: nat, hitNum: nat)

  datatype Main = Working | Failed | Finished(batch: Batch)

  /** Jobs are sent in order and the channel is a queue, so it holds the jobs [taken, pushed). `fates`
      records what became of each job; the program itself keeps no such record. */
  datatype State = State(texts: seq<Runes>, pushed: nat, taken: nat, closed: bool, workers: map<nat, Worker>,
                         results: seq<Option<Response>>, hitNum: nat, cancelled: bool,
                         fates: seq<Fate>, main: Main)

  /** Which responses the filter service may give for a text. */
  type FilterResults = (Runes, Response) -> bool

  function WorkerCount(texts: seq<Runes>, cpus: nat): nat {
    if cpus > |texts| then |texts| else cpus
  }

  /** An empty batch is answered at once, without workers. */
  ghost predicate Start(s: State, texts: seq<Runes>, cpus: nat) {
    && cpus >= 1
    && (forall w: nat :: w in s.workers <==> w < WorkerCount(texts, cpus))
    && (forall w | w in s.workers :: s.workers[w].Waiting?)
    && s == State(texts, 0, 0, false, s.workers, seq(|texts|, _ => None), 0, false, seq(|texts|, _ => Untaken),
                  if texts == [] then Finished(Batch([], 0, 0)) else Working)
  }

  // ---- Steps ----

  ghost predicate Push(s: State, t: State) {
    s.pushed < |s.texts| && t == s.(pushed := s.pushed + 1)
  }

  ghost predicate Close(s: State, t: State) {
    s.pushed == |s.texts| && t == s.(closed := true)
  }

  ghost predicate Cancel(s: State, t: State) {
    t == s.(cancelled := true)
  }

  ghost predicate Take(s: State, t: State, w: nat) {
    && w in s.workers && s.workers[w].Waiting? && s.taken < s.pushed && s.taken < |s.fates|
    && t == s.(taken := s.taken + 1, fates := s.fates[s.taken := With(w)], workers := s.workers[w := Holding(s.taken)])
  }

  ghost predicate Leave(s: State, t: State, w: nat) {
    && w in s.workers && s.workers[w].Waiting? && s.taken == s.pushed && s.closed
    && t == s.(workers := s.workers[w := Exited])
  }

  ghost predicate CheckContext(s: State, t: State, w: nat) {
    && w in s.workers && s.workers[w].Holding? && s.workers[w].job < |s.fates|
    && var job := s.workers[w].job;
       t == if s.cancelled then s.(fates := s.fates[job := Dropped], workers := s.workers[w := Exited])
            else s.(workers := s.workers[w := Matching(job)])
  }

  ghost predicate Answer(can: FilterResults, s: State, t: State, w: nat, r: Response) {
    && w in s.workers && s.workers[w].Matching? && s.workers[w].job < |s.texts| == |s.results| == |s.fates|
    && var job := s.workers[w].job;
       && can(s.texts[job], r)
       && t == s.(results := s.results[job := Some(r)], fates := s.fates[job := Answered],
                  workers := s.workers[w := if r.isHit then Counting else Waiting])
  }

  ghost predicate FilterError(s: State, t: State, w: nat) {
    && w in s.workers && s.workers[w].Matching? && s.workers[w].job < |s.fates|
    && t == s.(fates := s.fates[s.workers[w].job := Errored], workers := s.workers[w := Waiting])
  }

  ghost predicate CountHit(s: State, t: State, w: nat) {
    && w in s.workers && s.workers[w].Counting?
    && t == s.(hitNum := s.hitNum + 1, workers := s.workers[w := Waiting])
  }

  /** Waits for all workers, then looks at the context once more. */
  ghost predicate Return(s: State, t: State) {
    && s.main.Working? && s.closed && (forall w | w in s.workers :: s.workers[w].Exited?)
    && t == s.(main := if s.cancelled then Failed else Finished(Batch(s.results, |s.texts|, s.hitNum)))
  }

  ghost predicate WorkerStep(can: FilterResults, s: State, t: State, w: nat) {
    || Take(s, t, w) || Leave(s, t, w) || CheckContext(s, t, w) || (exists r :: Answer(can, s, t, w, r))
    || FilterError(s, t, w) || CountHit(s, t, w)
  }

  ghost predicate Step(can: FilterResults, s: State, t: State) {
    Push(s, t) || Close(s, t) || Cancel(s, t) || Return(s, t) || exists w :: WorkerStep(can, s, t, w)
  }

  ghost predicate Run(can: FilterResults, trace: seq<State>, texts: seq<Runes>, cpus: nat) {
    && trace != [] && Start(trace[0], texts, cpus)
    && forall i | 0 < i < |trace| :: Step(can, trace[i - 1], trace[i])
  }

  // ---- The invariant ----

  function Hits(results: seq<Option<Response>>): nat {
    if results == [] then 0 else
      Hits(Init(results)) + if Last(results).Some? && Last(results).value.isHit then 1 else 0
  }

  predicate Has(w: Worker, job: nat) {
    (w.Holding? || w.Matching?) && w.job == job
  }

  ghost function CountingWorkers(s: State): set<nat> {
    set w | w in s.workers && s.workers[w].Counting?
  }

  /** A slot is filled exactly when its job was answered; a job is lost only to cancellation. */
  ghost predicate JobOk(can: FilterResults, s: State, j: nat)
    requires j < |s.texts| == |s.results| == |s.fates|
  {
    match s.fates[j]
    case Untaken => s.results[j].None? && s.taken <= j
    case With(w) => s.results[j].None? && j < s.taken && w in s.workers && Has(s.workers[w], j)
    case Answered => s.results[j].Some? && j < s.taken && can(s.texts[j], s.results[j].value)
    case Errored => s.results[j].None? && j < s.taken
    case Dropped => s.results[j].None? && j < s.taken && s.cancelled
  }

  ghost predicate WorkerOk(s: State, w: nat)
    requires w in s.workers
  {
    match s.workers[w]
    case Waiting => true
    case Holding(j) => j < |s.fates| && s.fates[j] == With(w)
    case Matching(j) => j < |s.fates| && s.fates[j] == With(w)
    case Counting => true
    case Exited => s.cancelled || (s.closed && s.taken == s.pushed)
  }

  ghost predicate Sizes(s: State) {
    && (s.workers == map[] ==> s.texts == [])
    && |s.results| == |s.texts| == |s.fates| && s.taken <= s.pushed <= |s.texts|
    && (s.closed ==> s.pushed == |s.texts|)
  }

  /** Slot by slot: an answer for its own text, or empty exactly where the filter call failed. */
  ghost predicate Complete(can: FilterResults, s: State, b: Batch) {
    && b.total == |s.texts| == |b.results| == |s.fates| && b.hitNum == Hits(b.results)
    && forall j | 0 <= j < |s.texts| ::
         if s.fates[j].Errored? then b.results[j].None?
         else b.results[j].Some? && can(s.texts[j], b.results[j].value)
  }

  ghost predicate Settled(s: State) {
    forall w | w in s.workers :: s.workers[w].Exited?
  }

  /** All jobs and workers are accounted for. */
  ghost predicate Accounted(can: FilterResults, s: State) {
    && Sizes(s)
    && (forall j: nat {:trigger JobOk(can, s, j)} | j < |s.texts| :: JobOk(can, s, j))
    && (forall w {:trigger WorkerOk(s, w)} | w in s.workers :: WorkerOk(s, w))
  }

  ghost predicate Inv(can: FilterResults, s: State) {
    && Accounted(can, s)
    && s.hitNum + |CountingWorkers(s)| == Hits(s.results)
    && (s.main.Finished? ==> Complete(can, s, s.main.batch) && Settled(s))
  }

  /** The slots with a hit. */
  function HitSlots(results: seq<Option<Response>>): set<nat> {
    set j: nat | j < |results| && results[j].Some? && results[j].value.isHit
  }

  lemma OneMoreSlot(results: seq<Option<Response>>)
    requires results != []
    ensures |results| - 1 !in HitSlots(Init(results))
    ensures HitSlots(results) == HitSlots(Init(results)) +
              if Last(results).Some? && Last(results).value.isHit then {|results| - 1} else {}
  {
  }

  lemma {:induction false} HitsAreCounted(results: seq<Option<Response>>)
    ensures Hits(results) == |HitSlots(results)|
  {
    if results == [] {
      assert HitSlots(results) == {};
    } else {
      hide HitSlots;
      HitsAreCounted(Init(results));
      OneMoreSlot(results);
    }
  }

  lemma {:induction false} HitsOfNone(results: seq<Option<Response>>)
    requires forall j | 0 <= j < |results| :: results[j].None?
    ensures Hits(results) == 0
  {
    if results != [] {
      HitsOfNone(Init(results));
    }
  }

  lemma {:induction false} HitsUpdate(results: seq<Option<Response>>, j: nat, r: Response)
    requires j < |results| && results[j].None?
    ensures Hits(results[j := Some(r)]) == Hits(results) + if r.isHit then 1 else 0
  {
    var updated := results[j := Some(r)];
    if j < |results| - 1 {
      HitsUpdate(Init(results), j, r);
      assert Init(updated) == Init(results)[j := Some(r)];
    } else {
      assert Init(updated) == Init(results);
    }
  }

  lemma StartInv(can: FilterResults, s: State, texts: seq<Runes>, cpus: nat)
    requires Start(s, texts, cpus)
    ensures Inv(can, s) && s.texts == texts
  {
    HitsOfNone(s.results);
    assert texts != [] ==> 0 in s.workers;
    assert CountingWorkers(s) == {};
  }

  lemma MainStepKeepsInv(can: FilterResults, s: State, t: State)
    requires Inv(can, s) && (Push(s, t) || Close(s, t) || Cancel(s, t))
    ensures Inv(can, t)
  {
    assert CountingWorkers(t) == CountingWorkers(s);
    forall j: nat | j < |t.texts| ensures JobOk(can, t, j) {
      assert JobOk(can, s, j);
    }
    forall w | w in t.workers ensures WorkerOk(t, w) {
      assert WorkerOk(s, w);
    }
  }

  /** When every worker has left and the context is not cancelled, the batch is complete. */
  lemma ReturnKeepsInv(can: FilterResults, s: State, t: State)
    requires Inv(can, s) && Return(s, t)
    ensures Inv(can, t)
  {
    assert CountingWorkers(t) == CountingWorkers(s) == {};
    forall j | 0 <= j < |t.texts|
      ensures JobOk(can, t, j) && (!s.cancelled ==> s.fates[j].Answered? || s.fates[j].Errored?)
    {
      var w :| w in s.workers;
      assert WorkerOk(s, w) && JobOk(can, s, j);
    }
    forall w | w in t.workers ensures WorkerOk(t, w) {
      assert WorkerOk(s, w);
    }
  }

  /** Only the worker that moves and its job are affected. */
  lemma OnlyOneMoves(can: FilterResults, s: State, t: State, w: nat, job: nat)
    requires Accounted(can, s) && Sizes(t) && s.texts == t.texts && w in s.workers
    requires t.workers.Keys == s.workers.Keys && forall v | v in s.workers && v != w :: t.workers[v] == s.workers[v]
    requires forall j | 0 <= j < |s.texts| && j != job :: t.results[j] == s.results[j] && t.fates[j] == s.fates[j]
    requires job < |s.texts| ==> s.fates[job] == With(w) || s.fates[job].Untaken?
    requires s.cancelled ==> t.cancelled
    requires s.closed ==> t.closed
    requires s.taken == s.pushed ==> t.taken == t.pushed
    requires t.taken == s.taken || (t.taken == s.taken + 1 && job == s.taken)
    requires forall j: nat | j < |s.texts| && j != job :: !Has(s.workers[w], j)
    requires job < |s.texts| ==> JobOk(can, t, job)
    requires WorkerOk(t, w)
    ensures Accounted(can, t)
  {
    forall j: nat | j < |t.texts| ensures JobOk(can, t, j) {
      assert JobOk(can, s, j);
    }
    forall v | v in t.workers ensures WorkerOk(t, v) {
      assert WorkerOk(s, v);
    }
  }

  lemma TakeKeepsAccounts(can: FilterResults, s: State, t: State, w: nat)
    requires Accounted(can, s) && Take(s, t, w)
    ensures Accounted(can, t)
  {
    assert WorkerOk(s, w) && JobOk(can, s, s.taken);
    OnlyOneMoves(can, s, t, w, s.taken);
  }

  lemma JobStepKeepsAccounts(can: FilterResults, s: State, t: State, w: nat)
    requires Accounted(can, s)
    requires CheckContext(s, t, w) || (exists r :: Answer(can, s, t, w, r)) || FilterError(s, t, w)
    ensures Accounted(can, t)
  {
    var job := s.workers[w].job;
    assert WorkerOk(s, w) && JobOk(can, s, job);
    OnlyOneMoves(can, s, t, w, job);
  }

  lemma WorkerStepKeepsAccounts(can: FilterResults, s: State, t: State, w: nat)
    requires Accounted(can, s) && WorkerStep(can, s, t, w)
    ensures Accounted(can, t)
  {
    hide JobOk;
    if Take(s, t, w) {
      TakeKeepsAccounts(can, s, t, w);
    } else if Leave(s, t, w) || CountHit(s, t, w) {
      OnlyOneMoves(can, s, t, w, |s.texts|);
    } else {
      JobStepKeepsAccounts(can, s, t, w);
    }
  }

  lemma AnswerKeepsHits(can: FilterResults, s: State, t: State, w: nat, r: Response)
    requires Accounted(can, s) && Answer(can, s, t, w, r)
    ensures t.hitNum + |CountingWorkers(t)| - |CountingWorkers(s)| - s.hitNum == Hits(t.results) - Hits(s.results)
  {
    hide Hits;
    assert WorkerOk(s, w) && JobOk(can, s, s.workers[w].job);
    HitsUpdate(s.results, s.workers[w].job, r);
    assert CountingWorkers(t) == CountingWorkers(s) + if r.isHit then {w} else {};
  }

  lemma OtherStepsKeepHits(s: State, t: State, w: nat)
    requires Take(s, t, w) || Leave(s, t, w) || CheckContext(s, t, w) || FilterError(s, t, w) || CountHit(s, t, w)
    ensures t.hitNum + |CountingWorkers(t)| == s.hitNum + |CountingWorkers(s)| && t.results == s.results
  {
    assert CountingWorkers(t) == CountingWorkers(s) - if CountHit(s, t, w) then {w} else {};
  }

  lemma WorkerStepKeepsHits(can: FilterResults, s: State, t: State, w: nat)
    requires Accounted(can, s) && WorkerStep(can, s, t, w)
    ensures t.hitNum + |CountingWorkers(t)| - |CountingWorkers(s)| - s.hitNum == Hits(t.results) - Hits(s.results)
  {
    hide Hits, Accounted;
    if r :| Answer(can, s, t, w, r) {
      AnswerKeepsHits(can, s, t, w, r);
    } else {
      OtherStepsKeepHits(s, t, w);
    }
  }

  /** A worker that can still move shows that no response has been returned. */
  lemma WorkerStepIsLive(can: FilterResults, s: State, t: State, w: nat)
    requires WorkerStep(can, s, t, w)
    ensures !Settled(s) && t.main == s.main && t.texts == s.texts
  {
  }

  lemma StepKeepsInv(can: FilterResults, s: State, t: State)
    requires Inv(can, s) && Step(can, s, t)
    ensures Inv(can, t) && t.texts == s.texts
  {
    if Push(s, t) || Close(s, t) || Cancel(s, t) {
      MainStepKeepsInv(can, s, t);
    } else if Return(s, t) {
      ReturnKeepsInv(can, s, t);
    } else {
      hide Accounted, Complete, WorkerStep, Settled, Hits;
      var w :| WorkerStep(can, s, t, w);
      WorkerStepKeepsAccounts(can, s, t, w);
      WorkerStepKeepsHits(can, s, t, w);
      WorkerStepIsLive(can, s, t, w);
    }
  }

  lemma {:induction false} RunKeepsInv(can: FilterResults, trace: seq<State>, texts: seq<Runes>, cpus: nat, i: nat)
    requires Run(can, trace, texts, cpus) && i < |trace|
    ensures Inv(can, trace[i]) && trace[i].texts == texts
  {
    if i == 0 {
      StartInv(can, trace[0], texts, cpus);
    } else {
      hide Inv, Step, Start;
      RunKeepsInv(can, trace, texts, cpus, i - 1);
      StepKeepsInv(can, trace[i - 1], trace[i]);
    }
  }

  /** Whenever a response is returned: one slot per text, each holding a filter result for its own
      text, empty only where the filter call itself failed, and the hit count is the number of hits. */
  lemma BatchIsComplete(can: FilterResults, trace: seq<State>, texts: seq<Runes>, cpus: nat, i: nat)
    requires Run(can, trace, texts, cpus) && i < |trace| && trace[i].main.Finished?
    ensures Complete(can, trace[i], trace[i].main.batch) && trace[i].texts == texts
    ensures var b := trace[i].main.batch;
            && b.total == |texts| == |b.results|
            && b.hitNum == |set j: nat | j < |texts| && b.results[j].Some? && b.results[j].value.isHit|
    ensures (forall j | 0 <= j < |texts| :: !trace[i].fates[j].Errored?) ==>
              forall j | 0 <= j < |texts| :: trace[i].main.batch.results[j].Some?
  {
    RunKeepsInv(can, trace, texts, cpus, i);
    var b := trace[i].main.batch;
    HitsAreCounted(b.results);
    assert HitSlots(b.results) == set j: nat | j < |texts| && b.results[j].Some? && b.results[j].value.isHit;
  }

  // ---- Cancellation ----

  /** Once the context is cancelled no further text is filtered, and no response is returned any more. */
  lemma CancelledStep(can: FilterResults, s: State, t: State)
    requires Step(can, s, t) && s.cancelled
    ensures t.cancelled && t.workers.Keys == s.workers.Keys
    ensures forall w | w in t.workers && t.workers[w].Matching? :: s.workers[w].Matching?
    ensures t.main.Finished? ==> s.main.Finished?
  {
    if w :| WorkerStep(can, s, t, w) {
      WorkerStepIsLive(can, s, t, w);
    }
  }

  lemma {:induction false} CancelledNeverFinishes(can: FilterResults, trace: seq<State>, texts: seq<Runes>, cpus: nat,
                                                  i: nat, j: nat)
    requires Run(can, trace, texts, cpus) && i <= j < |trace|
    requires trace[i].cancelled && !trace[i].main.Finished?
    ensures trace[j].cancelled && !trace[j].main.Finished?
    ensures forall w | w in trace[j].workers && trace[j].workers[w].Matching? ::
              w in trace[i].workers && trace[i].workers[w].Matching?
    decreases j
  {
    hide Step, Start;
    if i < j {
      CancelledNeverFinishes(can, trace, texts, cpus, i, j - 1);
      assert Step(can, trace[j - 1], trace[j]);
      CancelledStep(can, trace[j - 1], trace[j]);
    }
  }

  // ---- The batch comes to an end ----

  /** A step that neither cancels nor lets a filter call fail, and that changes something. */
  ghost predicate Progress(can: FilterResults, s: State, t: State) {
    && Step(can, s, t) && t != s && t.cancelled == s.cancelled
    && forall j | 0 <= j < |s.fates| && j < |t.fates| && t.fates[j].Errored? :: s.fates[j].Errored?
  }

  /** As long as the filter answers every text there is always a next step, until the batch returns. */
  lemma NeverStuck(can: FilterResults, answer: Runes -> Response, s: State)
    requires Inv(can, s) && s.main.Working? && forall x :: can(x, answer(x))
    ensures exists t :: Progress(can, s, t)
  {
    hide Complete, Hits;
    if !s.closed {
      var t := if s.pushed < |s.texts| then s.(pushed := s.pushed + 1) else s.(closed := true);
      assert Push(s, t) || Close(s, t);
      assert Progress(can, s, t);
    } else if forall w | w in s.workers :: s.workers[w].Exited? {
      var t := s.(main := if s.cancelled then Failed else Finished(Batch(s.results, |s.texts|, s.hitNum)));
      assert Return(s, t);
      assert Progress(can, s, t);
    } else {
      var w :| w in s.workers && !s.workers[w].Exited?;
      WorkerMoves(can, answer, s, w);
    }
  }

  lemma WorkerMoves(can: FilterResults, answer: Runes -> Response, s: State, w: nat)
    requires Accounted(can, s) && s.closed && w in s.workers && !s.workers[w].Exited?
    requires forall x :: can(x, answer(x))
    ensures exists t :: Progress(can, s, t)
  {
    hide JobOk;
    assert WorkerOk(s, w);
    var t := match s.workers[w]
      case Waiting =>
        if s.taken < s.pushed
        then s.(taken := s.taken + 1, fates := s.fates[s.taken := With(w)], workers := s.workers[w := Holding(s.taken)])
        else s.(workers := s.workers[w := Exited])
      case Holding(job) =>
        if s.cancelled then s.(fates := s.fates[job := Dropped], workers := s.workers[w := Exited])
        else s.(workers := s.workers[w := Matching(job)])
      case Matching(job) =>
        var r := answer(s.texts[job]);
        s.(results := s.results[job := Some(r)], fates := s.fates[job := Answered],
           workers := s.workers[w := if r.isHit then Counting else Waiting])
      case Counting => s.(hitNum := s.hitNum + 1, workers := s.workers[w := Waiting])
      case Exited => s;
    assert t.workers[w] != s.workers[w];
    if s.workers[w].Matching? {
      assert Answer(can, s, t, w, answer(s.texts[s.workers[w].job]));
    }
    assert WorkerStep(can, s, t, w);
    assert Progress(can, s, t);
  }

  /** How many steps a worker can take before it takes another job or leaves. */
  function Weight(w: Worker): nat {
    match w
    case Waiting => 1
    case Holding(_) => 4
    case Matching(_) => 3
    case Counting => 2
    case Exited => 0
  }

  ghost function Weights(workers: map<nat, Worker>): nat
    decreases |workers|
  {
    if workers == map[] then 0 else
      var w :| w in workers;
      assert (workers - {w}).Keys == workers.Keys - {w};
      Weight(workers[w]) + Weights(workers - {w})
  }

  lemma {:induction false} WeightsWithout(workers: map<nat, Worker>, w: nat)
    requires w in workers
    ensures Weights(workers) == Weight(workers[w]) + Weights(workers - {w})
    decreases |workers|
  {
    assert forall x | x in workers :: (workers - {x}).Keys == workers.Keys - {x};
    var v :| v in workers && Weights(workers) == Weight(workers[v]) + Weights(workers - {v});
    if v != w {
      WeightsWithout(workers - {v}, w);
      WeightsWithout(workers - {w}, v);
      assert workers - {v} - {w} == workers - {w} - {v};
    }
  }

  lemma WeightsUpdate(workers: map<nat, Worker>, w: nat, x: Worker)
    requires w in workers
    ensures Weights(workers[w := x]) - Weight(x) == Weights(workers) - Weight(workers[w])
  {
    WeightsWithout(workers, w);
    WeightsWithout(workers[w := x], w);
    assert workers[w := x] - {w} == workers - {w};
  }

  /** An upper bound for the steps still to come, cancellation aside. */
  ghost function Work(s: State): nat
    requires s.taken <= |s.texts| && s.pushed <= |s.texts|
  {
    |s.texts| - s.pushed + (if s.closed then 0 else 1) + 5 * (|s.texts| - s.taken) + Weights(s.workers)
    + if s.main.Working? then 1 else 0
  }

  lemma StepWorks(can: FilterResults, s: State, t: State)
    requires Accounted(can, s) && Step(can, s, t) && t != s && t.cancelled == s.cancelled
    ensures t.taken <= |t.texts| && t.pushed <= |t.texts| && Work(t) < Work(s)
  {
    hide JobOk, WorkerOk, Weights, WorkerStep;
    if w :| WorkerStep(can, s, t, w) {
      WorkerStepIsLive(can, s, t, w);
      WorkerStepWorks(can, s, t, w);
      WeightsUpdate(s.workers, w, t.workers[w]);
    }
  }

  lemma WorkerStepWorks(can: FilterResults, s: State, t: State, w: nat)
    requires WorkerStep(can, s, t, w) && s.taken <= s.pushed <= |s.texts|
    ensures w in s.workers && w in t.workers && t.workers == s.workers[w := t.workers[w]]
    ensures t.pushed == s.pushed && t.closed == s.closed && s.taken <= t.taken <= t.pushed
    ensures 5 * t.taken + Weight(s.workers[w]) > 5 * s.taken + Weight(t.workers[w])
  {
    if Take(s, t, w) {
    } else if r :| Answer(can, s, t, w, r) {
      assert t.workers[w] == if r.isHit then Counting else Waiting;
    } else if CheckContext(s, t, w) {
    }
  }

  /** Every run without cancellation is short: it makes no more steps than there is work at its start. With
      NeverStuck this means that a batch always comes to an end. */
  lemma {:induction false} RunsAreShort(can: FilterResults, trace: seq<State>, texts: seq<Runes>, cpus: nat, i: nat)
    requires Run(can, trace, texts, cpus) && i < |trace|
    requires forall x | 0 < x < |trace| :: trace[x] != trace[x - 1] && trace[x].cancelled == trace[x - 1].cancelled
    ensures trace[i].taken <= |trace[i].texts| && trace[i].pushed <= |trace[i].texts|
    ensures trace[0].taken <= |trace[0].texts| && trace[0].pushed <= |trace[0].texts|
    ensures i + Work(trace[i]) <= Work(trace[0])
  {
    hide Step, Start, Work, Complete, Hits;
    RunKeepsInv(can, trace, texts, cpus, i);
    RunKeepsInv(can, trace, texts, cpus, 0);
    if i > 0 {
      RunsAreShort(can, trace, texts, cpus, i - 1);
      RunKeepsInv(can, trace, texts, cpus, i - 1);
      assert Step(can, trace[i - 1], trace[i]);
      StepWorks(can, trace[i - 1], trace[i]);
    }
  }
}
