/** One reconcile of the polling service: fingerprint, rebuild with retries, commit. The answers of
    the database and the cancellation of the context are inputs. */
module PollService {
  import opened Vocabulary
  import opened WordTable
  import opened FilterEngine

  /** How one attempt to load the words and rebuild the engine goes. */
  datatype Attempt = LoadFailed | RebuildFailed | Succeeded(words: seq<SensitiveWord>)

  datatype Outcome =
    | NeverTried                                       // no attempt is allowed: reported as success
    | Done(words: seq<SensitiveWord>, tried: nat)
    | GaveUp(tried: nat)
    | Cancelled(tried: nat)

  /** `attempts(k)` is the k-th attempt counted from zero; `cancels(k)` tells whether the context is
      cancelled during the wait after it, and how long that wait had lasted. */
  function Retry(attempts: nat -> Attempt, cancels: nat -> Option<nat>, k: nat, max: int): Outcome
    decreases max - k
  {
    if k >= max then NeverTried
    else if attempts(k).Succeeded? then Done(attempts(k).words, k + 1)
    else if k + 1 == max then GaveUp(k + 1)
    else if cancels(k).Some? then Cancelled(k + 1)
    else Retry(attempts, cancels, k + 1, max)
  }

  /** The first attempt that succeeds counts, if none is refused by the limit or by cancellation. */
  lemma {:induction false} RetryMeaning(attempts: nat -> Attempt, cancels: nat -> Option<nat>, k: nat, max: int,
                                        words: seq<SensitiveWord>, n: nat)
    requires k < max
    ensures Retry(attempts, cancels, k, max) == Done(words, n) <==>
            && k < n <= max && attempts(n - 1) == Succeeded(words)
            && forall j: nat | k <= j < n - 1 :: !attempts(j).Succeeded? && cancels(j).None?
    ensures Retry(attempts, cancels, k, max) == GaveUp(n) <==>
            && n == max
            && (forall j: nat | k <= j < max :: !attempts(j).Succeeded?)
            && (forall j: nat | k <= j < max - 1 :: cancels(j).None?)
    ensures Retry(attempts, cancels, k, max) == Cancelled(n) <==>
            && k < n < max && cancels(n - 1).Some?
            && (forall j: nat | k <= j < n :: !attempts(j).Succeeded?)
            && (forall j: nat | k <= j < n - 1 :: cancels(j).None?)
    ensures !Retry(attempts, cancels, k, max).NeverTried?
    decreases max - k
  {
    if !attempts(k).Succeeded? && k + 1 < max && cancels(k).None? {
      RetryMeaning(attempts, cancels, k + 1, max, words, n);
    }
  }

  function Pow2(n: nat): nat {
    if n == 0 then 1 else 2 * Pow2(n - 1)
  }

  /** The wait after the k-th failed attempt, counted from zero: it doubles each time. */
  function Backoff(first: nat, k: nat): nat {
    if k == 0 then first else 2 * Backoff(first, k - 1)
  }

  /** The first `n` waits together. */
  function Waits(first: nat, n: nat): nat {
    if n == 0 then 0 else Waits(first, n - 1) + Backoff(first, n - 1)
  }

  lemma Doubling(first: nat, p: nat)
    ensures 2 * (first * p) == first * (2 * p) && first * (p - 1) + first * p == first * (2 * p - 1)
  {
  }

  lemma {:induction false} WaitsClosedForm(first: nat, n: nat)
    ensures Backoff(first, n) == first * Pow2(n) && Waits(first, n) == first * (Pow2(n) - 1)
  {
    if n > 0 {
      WaitsClosedForm(first, n - 1);
      Doubling(first, Pow2(n - 1));
    }
  }

  class WordAppService {
    const engine: ACFilterEngine
    const cached: bool       // whether there is a cache to invalidate
    const maxAttempts: int
    const retryBackoff: nat
    var lastFingerprint: Fingerprint

    constructor (engine: ACFilterEngine, cached: bool, maxAttempts: int, retryBackoff: nat)
      ensures this.engine == engine && this.cached == cached
      ensures this.maxAttempts == maxAttempts && this.retryBackoff == retryBackoff
      ensures lastFingerprint == Fingerprint(0, 0, 0)
    {
      this.engine := engine;
      this.cached := cached;
      this.maxAttempts := maxAttempts;
      this.retryBackoff := retryBackoff;
      lastFingerprint := Fingerprint(0, 0, 0);
    }

    /** Sleeps between failed attempts, doubling the wait: n attempts sleep through n - 1 waits, and
        cancellation cuts the n-th wait short. */
    method RebuildWithRetry(attempts: nat -> Attempt, cancels: nat -> Option<nat>)
        returns (outcome: Outcome, slept: nat)
      modifies engine
      ensures outcome == Retry(attempts, cancels, 0, maxAttempts)
      ensures outcome.Done? ==>
        && engine.Holds(ActiveEntries(outcome.words))
        && engine.version == (old(engine.version) + 1) % TWO_TO_THE_64
      ensures !outcome.Done? ==> engine.current == old(engine.current) && engine.version == old(engine.version)
      ensures match outcome
              case NeverTried => slept == 0
              case Done(_, n) => n >= 1 && slept == Waits(retryBackoff, n - 1)
              case GaveUp(n) => n >= 1 && slept == Waits(retryBackoff, n - 1)
              case Cancelled(n) => n >= 1 && Waits(retryBackoff, n - 1) <= slept <= Waits(retryBackoff, n)
    {
      hide ACFilterEngine.Holds, ActiveEntries;
      var backoff := retryBackoff;
      var attempt := 1;
      slept := 0;
      while attempt <= maxAttempts
        invariant 1 <= attempt <= maxAttempts || (attempt == 1 && slept == 0)
        invariant Retry(attempts, cancels, attempt - 1, maxAttempts) == Retry(attempts, cancels, 0, maxAttempts)
        invariant backoff == Backoff(retryBackoff, attempt - 1)
        invariant slept == Waits(retryBackoff, attempt - 1)
        invariant engine.current == old(engine.current) && engine.version == old(engine.version)
        decreases maxAttempts - attempt
      {
        var answer := attempts(attempt - 1);
        if answer.Succeeded? {
          engine.Rebuild(answer.words);
          return Done(answer.words, attempt), slept;
        }
        if attempt == maxAttempts {
          return GaveUp(attempt), slept;
        }
        var wait := cancels(attempt - 1);
        if wait.Some? {
          slept := slept + if wait.value < backoff then wait.value else backoff;
          return Cancelled(attempt), slept;
        }
        slept := slept + backoff;
        backoff := backoff * 2;
        attempt := attempt + 1;
      }
      return NeverTried, 0;
    }

    /** A failed query, an unchanged fingerprint or a failed rebuild leave everything as it was;
        otherwise the fingerprint taken before the load is noted and the filter results are invalidated. */
    method ReconcileOnce(answer: Option<Fingerprint>, attempts: nat -> Attempt, cancels: nat -> Option<nat>)
        returns (outcome: Option<Outcome>, invalidated: Option<string>)
      modifies this, engine
      ensures invalidated ==
              if cached && outcome.Some? && (outcome.value.Done? || outcome.value.NeverTried?) then Some("filter:")
              else None
      ensures outcome == if answer.None? || answer.value == old(lastFingerprint) then None
                         else Some(Retry(attempts, cancels, 0, maxAttempts))
      ensures lastFingerprint ==
              if outcome.Some? && (outcome.value.Done? || outcome.value.NeverTried?) then answer.value
              else old(lastFingerprint)
      ensures outcome.Some? && outcome.value.Done? ==>
        && engine.Holds(ActiveEntries(outcome.value.words))
        && engine.version == (old(engine.version) + 1) % TWO_TO_THE_64
      ensures !(outcome.Some? && outcome.value.Done?) ==>
        engine.current == old(engine.current) && engine.version == old(engine.version)
    {
      if answer.None? {
        return None, None;
      }
      var fpBefore := answer.value;
      if fpBefore == lastFingerprint {
        return None, None;
      }
      var result, slept := RebuildWithRetry(attempts, cancels);
      outcome := Some(result);
      if result.GaveUp? || result.Cancelled? {
        return outcome, None;
      }
      lastFingerprint := fpBefore;
      invalidated := InvalidatePrefix("filter:");
    }

    /** The prefix handed to the cache, if there is one; a failure of the cache is only logged. */
    method InvalidatePrefix(prefix: string) returns (invalidated: Option<string>)
      ensures invalidated == if cached then Some(prefix) else None
    {
      if !cached {
        return None;
      }
      return Some(prefix);
    }

    /** Start-up: loads first and takes the fingerprint afterwards; a failed fingerprint is not an error. */
    method InitEngine(load: Attempt, answer: Option<Fingerprint>) returns (ok: bool)
      modifies this, engine
      ensures ok == load.Succeeded?
      ensures ok ==> engine.Holds(ActiveEntries(load.words))
      ensures ok ==> engine.version == (old(engine.version) + 1) % TWO_TO_THE_64
      ensures lastFingerprint == if ok && answer.Some? then answer.value else old(lastFingerprint)
      ensures !ok ==> engine.current == old(engine.current) && engine.version == old(engine.version)
    {
      hide ACFilterEngine.Holds, ActiveEntries;
      if !load.Succeeded? {
        return false;
      }
      engine.Rebuild(load.words);
      if answer.Some? {
        lastFingerprint := answer.value;
      }
      ok := true;
    }
  }

  /** With no attempt allowed, a reconcile notes a fingerprint without loading anything. */
  lemma NoAttemptsCommitsBlindly(attempts: nat -> Attempt, cancels: nat -> Option<nat>, max: int)
    ensures Retry(attempts, cancels, 0, max).NeverTried? <==> max < 1
  {
    if max >= 1 {
      RetryMeaning(attempts, cancels, 0, max, [], 0);
    }
  }
}
