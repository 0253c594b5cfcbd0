/** The breaker in front of Redis: three states, a failure count and a clock. Each method runs under
    one mutex, or reads the state once, so a history is a sequence of whole calls. */
module Breaker {
  import opened Vocabulary

  datatype State = Closed | Open | HalfOpen

  /** One call, with the time read from the clock where the call reads it. */
  datatype Event = Allow(now: int) | Success | Failure(now: int)

  datatype Settings = Settings(failThreshold: int, resetTimeout: int)

  datatype Memory = Memory(state: State, failCount: int, lastFailTime: int, halfOpenSuccess: int)

  const HALF_OPEN_REQUIRED := 2

  /** The zero time of a breaker that has never failed. */
  const NEVER := 0

  function Fresh(): Memory {
    Memory(Closed, 0, NEVER, 0)
  }

  predicate Admits(s: Settings, m: Memory, now: int) {
    m.state.Open? ==> now - m.lastFailTime > s.resetTimeout
  }

  /** What one call does to the breaker. */
  function Next(s: Settings, m: Memory, e: Event): Memory {
    match e
    case Allow(now) =>
      if m.state.Open? && Admits(s, m, now) then m.(state := HalfOpen, halfOpenSuccess := 0) else m
    case Success =>
      (match m.state
       case Closed => m.(failCount := 0)
       case Open => m
       case HalfOpen =>
         var successes := m.halfOpenSuccess + 1;
         if successes >= HALF_OPEN_REQUIRED then Memory(Closed, 0, m.lastFailTime, successes)
         else m.(halfOpenSuccess := successes))
    case Failure(now) =>
      var failed := m.(lastFailTime := now);
      (match m.state
       case Closed =>
         var failures := m.failCount + 1;
         failed.(failCount := failures, state := if failures >= s.failThreshold then Open else Closed)
       case Open => failed
       case HalfOpen => failed.(state := Open))
  }

  class CircuitBreaker {
    var state: State
    var failCount: int
    const settings: Settings
    var lastFailTime: int
    var halfOpenSuccess: int

    ghost function View(): Memory
      reads this
    {
      Memory(state, failCount, lastFailTime, halfOpenSuccess)
    }

    constructor (failThreshold: int, resetTimeout: int)
      ensures View() == Fresh() && settings == Settings(failThreshold, resetTimeout)
    {
      settings := Settings(failThreshold, resetTimeout);
      state, failCount, lastFailTime, halfOpenSuccess := Closed, 0, NEVER, 0;
    }

    method Admit(now: int) returns (ok: bool)
      modifies this
      ensures View() == Next(settings, old(View()), Allow(now))
      ensures ok == Admits(settings, old(View()), now)
    {
      if state.Closed? {
        return true;
      }
      if state.Open? {
        if now - lastFailTime > settings.resetTimeout {
          state := HalfOpen;
          halfOpenSuccess := 0;
          return true;
        }
        return false;
      }
      return true;
    }

    method RecordSuccess()
      modifies this
      ensures View() == Next(settings, old(View()), Success)
    {
      match state {
        case HalfOpen =>
          halfOpenSuccess := halfOpenSuccess + 1;
          if halfOpenSuccess >= HALF_OPEN_REQUIRED {
            state := Closed;
            failCount := 0;
          }
        case Closed => failCount := 0;
        case Open =>
      }
    }

    method RecordFailure(now: int)
      modifies this
      ensures View() == Next(settings, old(View()), Failure(now))
    {
      lastFailTime := now;
      match state {
        case HalfOpen => state := Open;
        case Closed =>
          failCount := failCount + 1;
          if failCount >= settings.failThreshold {
            state := Open;
          }
        case Open =>
      }
    }
  }

  // ---- Histories ----

  function After(s: Settings, history: seq<Event>): Memory {
    if history == [] then Fresh() else Next(s, After(s, Init(history)), Last(history))
  }

  /** Failures recorded since the last recorded success. */
  function FailuresInARow(history: seq<Event>): nat {
    if history == [] then 0 else
      match Last(history)
      case Allow(_) => FailuresInARow(Init(history))
      case Success => 0
      case Failure(_) => FailuresInARow(Init(history)) + 1
  }

  function LastFailure(history: seq<Event>): Option<int> {
    if history == [] then None
    else if Last(history).Failure? then Some(Last(history).now)
    else LastFailure(Init(history))
  }

  /** A threshold below one still needs one failure. */
  function Trip(s: Settings): nat {
    if s.failThreshold < 1 then 1 else s.failThreshold
  }

  /** A closed breaker counts the failures since the last success, wherever it was closed; a breaker
      that is not closed remembers when the latest failure happened. */
  lemma {:induction false} Remembers(s: Settings, history: seq<Event>)
    ensures var m := After(s, history);
      if m.state.Closed? then m.failCount == FailuresInARow(history) < Trip(s)
      else LastFailure(history) == Some(m.lastFailTime)
  {
    if history != [] {
      Remembers(s, Init(history));
    }
  }

  /** A closed breaker opens on exactly the failure that completes the row. */
  lemma OpensOnThreshold(s: Settings, history: seq<Event>, e: Event)
    requires After(s, history).state.Closed?
    ensures After(s, history + [e]).state == if FailuresInARow(history + [e]) == Trip(s) then Open else Closed
    ensures FailuresInARow(history + [e]) == Trip(s) ==> e.Failure?
  {
    Remembers(s, history);
    assert Init(history + [e]) == history;
  }

  predicate ClosedAt(s: Settings, history: seq<Event>, k: int) {
    0 <= k <= |history| && After(s, history[..k]).state.Closed?
  }

  predicate ShortRowAt(s: Settings, history: seq<Event>, k: int) {
    0 <= k <= |history| && FailuresInARow(history[..k]) < Trip(s)
  }

  ghost predicate ClosedThroughout(s: Settings, history: seq<Event>) {
    forall k | 0 <= k <= |history| :: ClosedAt(s, history, k)
  }

  ghost predicate RowsStayShort(s: Settings, history: seq<Event>) {
    forall k | 0 <= k <= |history| :: ShortRowAt(s, history, k)
  }

  lemma PrefixAgrees(s: Settings, history: seq<Event>, k: nat)
    requires history != [] && k < |history|
    ensures ClosedAt(s, history, k) <==> ClosedAt(s, Init(history), k)
    ensures ShortRowAt(s, history, k) <==> ShortRowAt(s, Init(history), k)
  {
    assert history[..k] == Init(history)[..k];
  }

  lemma AtTheEnd(s: Settings, history: seq<Event>)
    ensures ClosedAt(s, history, |history|) <==> After(s, history).state.Closed?
    ensures ShortRowAt(s, history, |history|) <==> FailuresInARow(history) < Trip(s)
  {
    hide After, FailuresInARow, Trip;
    assert history[..|history|] == history;
  }

  lemma ThroughoutStep(s: Settings, history: seq<Event>)
    requires history != []
    ensures ClosedThroughout(s, history) <==> ClosedThroughout(s, Init(history)) && After(s, history).state.Closed?
    ensures RowsStayShort(s, history) <==> RowsStayShort(s, Init(history)) && FailuresInARow(history) < Trip(s)
  {
    hide ClosedAt, ShortRowAt, After, FailuresInARow, Trip;
    AtTheEnd(s, history);
    forall k: nat | k < |history|
      ensures ClosedAt(s, history, k) <==> ClosedAt(s, Init(history), k)
      ensures ShortRowAt(s, history, k) <==> ShortRowAt(s, Init(history), k)
    {
      PrefixAgrees(s, history, k);
    }
  }

  /** A breaker has been closed throughout a history exactly when the history holds no row of failures
      as long as the threshold. */
  lemma {:induction false} StaysClosedIff(s: Settings, history: seq<Event>)
    ensures ClosedThroughout(s, history) <==> RowsStayShort(s, history)
  {
    if history == [] {
      AtTheEnd(s, history);
    } else {
      hide ClosedThroughout, RowsStayShort, After, FailuresInARow, Trip;
      var before := Init(history);
      assert before + [Last(history)] == history;
      StaysClosedIff(s, before);
      ThroughoutStep(s, history);
      Remembers(s, history);
      if ClosedThroughout(s, before) {
        ClosedNow(s, before);
        OpensOnThreshold(s, before, Last(history));
      }
    }
  }

  lemma ClosedNow(s: Settings, history: seq<Event>)
    requires ClosedThroughout(s, history)
    ensures After(s, history).state.Closed?
  {
    hide After;
    AtTheEnd(s, history);
    assert ClosedAt(s, history, |history|);
  }

  /** Successes recorded since the breaker last became half-open. */
  function Probes(s: Settings, history: seq<Event>): nat {
    if history == [] || !After(s, Init(history)).state.HalfOpen? then 0
    else Probes(s, Init(history)) + if Last(history).Success? then 1 else 0
  }

  lemma {:induction false} HalfOpenCounts(s: Settings, history: seq<Event>)
    requires After(s, history).state.HalfOpen?
    ensures After(s, history).halfOpenSuccess == Probes(s, history) < HALF_OPEN_REQUIRED
  {
    if After(s, Init(history)).state.HalfOpen? {
      HalfOpenCounts(s, Init(history));
    }
  }

  /** A breaker that is not closed closes exactly on the second success since it became half-open;
      an open breaker never closes directly. */
  lemma ClosesOnSecondProbe(s: Settings, history: seq<Event>, e: Event)
    requires !After(s, history).state.Closed?
    ensures After(s, history + [e]).state.Closed?
       <==> After(s, history).state.HalfOpen? && e.Success? && Probes(s, history) == HALF_OPEN_REQUIRED - 1
  {
    assert Init(history + [e]) == history;
    if After(s, history).state.HalfOpen? {
      HalfOpenCounts(s, history);
    }
  }

  /** Between a half-open prefix and the last probe nothing failed. */
  lemma {:induction false} ProbesWithoutFailure(s: Settings, history: seq<Event>) returns (first: nat)
    requires After(s, history).state.HalfOpen? && Probes(s, history) == 1
    ensures first < |history| && history[first].Success?
    ensures forall k | first < k < |history| :: history[k].Allow?
    ensures forall k | first <= k <= |history| :: After(s, history[..k]).state.HalfOpen?
  {
    var n := |history|;
    assert history[..n] == history && history[..n - 1] == Init(history);
    assert After(s, Init(history)).state.HalfOpen?;
    if Last(history).Success? {
      first := n - 1;
    } else {
      first := ProbesWithoutFailure(s, Init(history));
      assert forall k | 0 <= k < n :: history[..k] == Init(history)[..k];
    }
  }

  /** Whenever the breaker closes, two successes were recorded while it was half-open and no failure
      came between them. */
  lemma ClosesAfterTwoSuccesses(s: Settings, history: seq<Event>, e: Event) returns (first: nat)
    requires !After(s, history).state.Closed? && After(s, history + [e]).state.Closed?
    ensures e.Success? && first < |history| && history[first].Success?
    ensures forall k | first < k < |history| :: history[k].Allow?
    ensures forall k | first <= k <= |history| :: After(s, history[..k]).state.HalfOpen?
  {
    ClosesOnSecondProbe(s, history, e);
    first := ProbesWithoutFailure(s, history);
  }

  // ---- Recovery ----

  predicate OnlyAllows(events: seq<Event>) {
    forall k | 0 <= k < |events| :: events[k].Allow?
  }

  /** A call that comes more than the timeout after the latest failure makes an open breaker half-open; an
      earlier one leaves it open. */
  lemma HalfOpensAfterTimeout(s: Settings, history: seq<Event>, now: int)
    requires After(s, history).state.Open?
    ensures LastFailure(history).Some?
    ensures After(s, history + [Allow(now)]).state
         == if now - LastFailure(history).value > s.resetTimeout then HalfOpen else Open
    ensures Probes(s, history + [Allow(now)]) == 0
  {
    Remembers(s, history);
    assert Init(history + [Allow(now)]) == history;
  }

  /** Calls that are only asked for change nothing once the breaker is half-open or closed. */
  lemma {:induction false} AllowsChangeNothing(s: Settings, history: seq<Event>, asked: seq<Event>)
    requires !After(s, history).state.Open? && OnlyAllows(asked)
    ensures After(s, history + asked) == After(s, history)
    ensures FailuresInARow(history + asked) == FailuresInARow(history)
    decreases |asked|
  {
    if asked == [] {
      assert history + asked == history;
    } else {
      assert OnlyAllows(Init(asked));
      AllowsChangeNothing(s, history, Init(asked));
      assert Init(history + asked) == history + Init(asked);
    }
  }

  /** From the moment an open breaker becomes half-open, the first success keeps it half-open and the second
      closes it with no failure counted, whatever calls are asked for before and between. */
  lemma TwoSuccessesClose(s: Settings, history: seq<Event>, now: int, a: seq<Event>, b: seq<Event>)
    requires After(s, history).state.Open? && OnlyAllows(a) && OnlyAllows(b)
    requires LastFailure(history).Some? ==> now - LastFailure(history).value > s.resetTimeout
    ensures After(s, history + [Allow(now)] + a + [Success] + b).state.HalfOpen?
    ensures After(s, history + [Allow(now)] + a + [Success] + b + [Success]).state.Closed?
    ensures After(s, history + [Allow(now)] + a + [Success] + b + [Success]).failCount == 0
  {
    hide FailuresInARow, LastFailure;
    HalfOpensAfterTimeout(s, history, now);
    var h0 := history + [Allow(now)];
    assert Init(h0) == history;
    assert After(s, h0).halfOpenSuccess == 0;
    AllowsChangeNothing(s, h0, a);
    var h1 := h0 + a + [Success];
    assert Init(h1) == h0 + a;
    AllowsChangeNothing(s, h1, b);
    var h2 := h1 + b + [Success];
    assert Init(h2) == h1 + b;
  }

  /** A failure of a half-open breaker opens it again, and the timeout starts anew. */
  lemma FailureReopens(s: Settings, history: seq<Event>, now: int)
    requires After(s, history).state.HalfOpen?
    ensures After(s, history + [Failure(now)]).state.Open? && LastFailure(history + [Failure(now)]) == Some(now)
  {
    assert Init(history + [Failure(now)]) == history;
  }

  /** An open breaker admits a call exactly when strictly more than the timeout has passed since the
      latest failure, also when that failure was recorded while the breaker was already open. */
  lemma {:induction false} AdmitsIffTimedOut(s: Settings, history: seq<Event>, now: int)
    ensures After(s, history).state.Open? ==> LastFailure(history).Some?
    ensures Admits(s, After(s, history), now)
       <==> !After(s, history).state.Open? || now - LastFailure(history).value > s.resetTimeout
  {
    Remembers(s, history);
  }

  /** The clock never runs backwards from `start`, and no reading is past `deadline`. */
  predicate Clocked(events: seq<Event>, start: int, deadline: int) {
    forall k | 0 <= k < |events| && !events[k].Success? :: start <= events[k].now <= deadline
  }

  /** Nothing that happens within the timeout after a failure, not even a success, gets an open
      breaker to admit a call. */
  lemma {:induction false} RefusesUntilTimeout(s: Settings, history: seq<Event>, more: seq<Event>)
    requires After(s, history).state.Open?
    requires LastFailure(history).Some? ==>
               Clocked(more, LastFailure(history).value, LastFailure(history).value + s.resetTimeout)
    ensures After(s, history + more).state.Open? && LastFailure(history).Some?
    ensures LastFailure(history + more).Some? && LastFailure(history + more).value >= LastFailure(history).value
    ensures forall k | 0 <= k < |more| && more[k].Allow? :: !Admits(s, After(s, history + more[..k]), more[k].now)
  {
    Remembers(s, history);
    if more == [] {
      assert history + more == history;
    } else {
      var earlier := Init(more);
      RefusesUntilTimeout(s, history, earlier);
      assert Init(history + more) == history + earlier;
      Remembers(s, history + earlier);
      assert forall k | 0 <= k < |more| :: more[..k] == earlier[..k];
      assert earlier[..|earlier|] == earlier;
    }
  }
}
